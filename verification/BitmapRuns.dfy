/** What holds over every run of allocate and free requests against one bitmap. */
module BitmapRuns {
  import opened Bitmaps

  /** A request: allocate `n` positions, or give back the `k`-th range still held (nothing if there is no such range). */
  datatype Op = Alloc(n: nat) | Free(k: nat)

  /** The marked positions, and the ranges handed out and not yet given back. */
  datatype State = State(marked: set<nat>, live: seq<(nat, nat)>)

  function Cells(r: (nat, nat)): set<nat> {
    Range(r.0, r.1)
  }

  ghost predicate AllocStep(dead: nat, len: nat, s: State, n: nat, t: State) {
    exists r: nat ::
      SearchAnswer(s.marked, dead, len, n, r) &&
      t == if r == INVALID then s else State(s.marked + Range(r, n), s.live + [(r, n)])
  }

  ghost predicate FreeStep(s: State, k: nat, t: State) {
    t == if k < |s.live| then State(s.marked - Cells(s.live[k]), s.live[..k] + s.live[k + 1..]) else s
  }

  ghost predicate Step(dead: nat, len: nat, s: State, op: Op, t: State) {
    match op
    case Alloc(n) => AllocStep(dead, len, s, n, t)
    case Free(k) => FreeStep(s, k, t)
  }

  ghost predicate IsRun(dead: nat, len: nat, ops: seq<Op>, states: seq<State>) {
    |states| == |ops| + 1 &&
    states[0] == State({}, []) &&
    forall i :: 0 <= i < |ops| ==> Step(dead, len, states[i], ops[i], states[i + 1])
  }

  ghost predicate InBounds(dead: nat, len: nat, live: seq<(nat, nat)>) {
    forall i :: 0 <= i < |live| ==> dead <= live[i].0 && live[i].0 + live[i].1 <= len
  }

  ghost predicate Disjoint(live: seq<(nat, nat)>) {
    forall i, j :: 0 <= i < j < |live| ==> Cells(live[i]) !! Cells(live[j])
  }

  /** The positions covered by the live ranges. */
  ghost function Covered(live: seq<(nat, nat)>): set<nat> {
    if live == [] then {} else Covered(live[..|live| - 1]) + Cells(live[|live| - 1])
  }

  /** Live ranges avoid the dead zone, stay below `len`, share no position, and are exactly what is marked. */
  ghost predicate Accounted(dead: nat, len: nat, s: State) {
    InBounds(dead, len, s.live) && Disjoint(s.live) && s.marked == Covered(s.live)
  }

  lemma {:induction false} CellsAreCovered(live: seq<(nat, nat)>, i: nat)
    requires i < |live|
    ensures Cells(live[i]) <= Covered(live)
  {
    if i < |live| - 1 {
      CellsAreCovered(live[..|live| - 1], i);
    }
  }

  lemma FreeRunIsUnmarked(dead: nat, len: nat, marked: set<nat>, n: nat, r: nat)
    requires SearchAnswer(marked, dead, len, n, r) && r != INVALID
    ensures dead <= r && r + n <= len
    ensures Range(r, n) !! marked
  {
  }

  /** A range apart from what is covered joins the account. */
  lemma RangeJoins(dead: nat, len: nat, s: State, r: nat, n: nat)
    requires Accounted(dead, len, s) && dead <= r && r + n <= len && Cells((r, n)) !! s.marked
    ensures Accounted(dead, len, State(s.marked + Cells((r, n)), s.live + [(r, n)]))
  {
    hide Cells;
    var live := s.live + [(r, n)];
    assert live[..|live| - 1] == s.live;
    forall i, j | 0 <= i < j < |live|
      ensures Cells(live[i]) !! Cells(live[j])
    {
      if j == |s.live| {
        CellsAreCovered(s.live, i);
      }
    }
  }

  lemma AllocKeepsAccount(dead: nat, len: nat, s: State, n: nat, t: State)
    requires Accounted(dead, len, s) && AllocStep(dead, len, s, n, t)
    ensures Accounted(dead, len, t)
  {
    hide Range, SearchAnswer, Accounted;
    if t != s {
      var r: nat :| SearchAnswer(s.marked, dead, len, n, r) && r != INVALID &&
                    t == State(s.marked + Range(r, n), s.live + [(r, n)]);
      FreeRunIsUnmarked(dead, len, s.marked, n, r);
      RangeJoins(dead, len, s, r, n);
    }
  }

  lemma CoveredLast(live: seq<(nat, nat)>, r: (nat, nat))
    ensures Covered(live + [r]) == Covered(live) + Cells(r)
  {
    assert (live + [r])[..|live|] == live;
  }

  lemma SetMinusApart(a: set<nat>, c: set<nat>, d: set<nat>)
    requires c !! d
    ensures (a - c) + d == (a + d) - c
  {
  }

  lemma SetPlusMinus(a: set<nat>, d: set<nat>)
    requires a !! d
    ensures (a + d) - d == a
  {
  }

  /** With disjoint ranges, dropping one range uncovers exactly its own positions. */
  lemma {:induction false} UncoverOne(live: seq<(nat, nat)>, k: nat)
    requires Disjoint(live) && k < |live|
    ensures Covered(live[..k] + live[k + 1..]) == Covered(live) - Cells(live[k])
  {
    hide Cells, Covered;
    var init, last := live[..|live| - 1], live[|live| - 1];
    assert init + [last] == live;
    CoveredLast(init, last);
    if k == |live| - 1 {
      assert live[..k] + live[k + 1..] == init;
      ApartFromEarlier(live);
      SetPlusMinus(Covered(init), Cells(last));
    } else {
      UncoverOne(init, k);
      assert live[..k] + live[k + 1..] == init[..k] + init[k + 1..] + [last];
      CoveredLast(init[..k] + init[k + 1..], last);
      SetMinusApart(Covered(init), Cells(live[k]), Cells(last));
    }
  }

  lemma ApartFromEarlier(live: seq<(nat, nat)>)
    requires Disjoint(live) && live != []
    ensures Covered(live[..|live| - 1]) !! Cells(live[|live| - 1])
  {
    AllApart(live[..|live| - 1], live[|live| - 1]);
  }

  lemma {:induction false} AllApart(live: seq<(nat, nat)>, r: (nat, nat))
    requires forall i :: 0 <= i < |live| ==> Cells(live[i]) !! Cells(r)
    ensures Covered(live) !! Cells(r)
  {
    if live != [] {
      AllApart(live[..|live| - 1], r);
    }
  }

  lemma FreeKeepsAccount(dead: nat, len: nat, s: State, k: nat, t: State)
    requires Accounted(dead, len, s) && FreeStep(s, k, t)
    ensures Accounted(dead, len, t)
  {
    if k < |s.live| {
      UncoverOne(s.live, k);
      hide Cells, Covered;
    }
  }

  /** In every state of every run, from an initially free bitmap, the live ranges are pairwise
      disjoint, outside the dead zone, and together exactly the marked positions. */
  lemma {:induction false} RunsStayAccounted(dead: nat, len: nat, ops: seq<Op>, states: seq<State>, i: nat)
    requires IsRun(dead, len, ops, states) && i <= |ops|
    ensures Accounted(dead, len, states[i])
  {
    if i > 0 {
      RunsStayAccounted(dead, len, ops, states, i - 1);
      assert Step(dead, len, states[i - 1], ops[i - 1], states[i]);
      match ops[i - 1]
      case Alloc(n) => AllocKeepsAccount(dead, len, states[i - 1], n, states[i]);
      case Free(k) => FreeKeepsAccount(dead, len, states[i - 1], k, states[i]);
    }
  }

  /** Giving a successful allocation back restores the bitmap and the list of live ranges. */
  lemma FreeUndoesAlloc(dead: nat, len: nat, s: State, n: nat, t: State, u: State)
    requires AllocStep(dead, len, s, n, t) && t != s && FreeStep(t, |s.live|, u)
    ensures u == s
  {
    var r: nat :| SearchAnswer(s.marked, dead, len, n, r) && r != INVALID &&
                    t == State(s.marked + Range(r, n), s.live + [(r, n)]);
    FreeRunIsUnmarked(dead, len, s.marked, n, r);
    assert s.marked + Range(r, n) - Range(r, n) == s.marked;
  }

  lemma RunGrows(dead: nat, len: nat, ops: seq<Op>, states: seq<State>, op: Op, t: State)
    requires IsRun(dead, len, ops, states) && Step(dead, len, states[|ops|], op, t)
    ensures IsRun(dead, len, ops + [op], states + [t])
  {
    hide Step;
  }

  /** Drives the real bitmap through `ops`: its marked positions and the ranges held follow a run of the state machine that
      answers exactly these requests. */
  method Replay(b: Bitmap, ops: seq<Op>) returns (live: seq<(nat, nat)>, ghost states: seq<State>)
    requires b.Valid() && b.marked == {}
    modifies b, b.words
    ensures b.Valid()
    ensures IsRun(b.deadZone, b.len, ops, states) && states[|ops|] == State(b.marked, live)
  {
    live := [];
    states := [State({}, [])];
    for i := 0 to |ops|
      invariant b.Valid()
      invariant IsRun(b.deadZone, b.len, ops[..i], states) && states[i] == State(b.marked, live)
    {
      hide IsRun, SearchAnswer, Bitmap.Valid, Range;
      match ops[i] {
        case Alloc(n) =>
          var first := b.AllocateInBitmap(n);
          if first != INVALID {
            live := live + [(first, n)];
          }
        case Free(k) =>
          if k < |live| {
            RunsStayAccounted(b.deadZone, b.len, ops[..i], states, i);
            b.FreeInBitmap(live[k].0, live[k].1);
            live := live[..k] + live[k + 1..];
          }
      }
      RunGrows(b.deadZone, b.len, ops[..i], states, ops[i], State(b.marked, live));
      assert ops[..i] + [ops[i]] == ops[..i + 1];
      states := states + [State(b.marked, live)];
    }
    assert ops[..|ops|] == ops;
  }
}
