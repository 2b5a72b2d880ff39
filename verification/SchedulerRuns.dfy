/** The round-robin scheduler as a state machine over its process list, and what holds over every run. */
module SchedulerRuns {
  const MAX_PID: nat := 0xFFFF_FFFE

  /** The current process is the one at index `i`, or it is gone (or was never chosen) and index `i` follows it;
      the index after the last stands for the end of the list. */
  datatype Cursor = At(i: nat) | Gap(i: nat)

  /** Live process ids in list order, newest first. */
  datatype State = State(pids: seq<nat>, cursor: Cursor, lastPid: nat) {

    ghost predicate Valid() {
      lastPid <= MAX_PID &&
      (forall i :: 0 <= i < |pids| ==> 0 < pids[i] <= lastPid) &&
      (forall i, j :: 0 <= i < j < |pids| ==> pids[i] != pids[j]) &&
      match cursor
      case At(i) => i < |pids|
      case Gap(i) => i <= |pids|
    }

    /** The index the next tick dispatches. */
    function NextIndex(): nat {
      var n := match cursor case At(i) => i + 1 case Gap(i) => i;
      if n < |pids| then n else 0
    }

    /** The next tick starts over at the head of the list. */
    predicate WrapsNext() {
      match cursor case At(i) => i + 1 >= |pids| case Gap(i) => i >= |pids|
    }

    /** Ticks that pass before the one that dispatches the process at index `j`. */
    function Distance(j: nat): nat
      requires j < |pids|
    {
      var x := NextIndex();
      if j >= x then j - x else j + |pids| - x
    }

    /** The turn of the process at index `j` comes only after the list has been started over. */
    predicate WrapAhead(j: nat) {
      WrapsNext() || j < NextIndex()
    }
  }

  const Initial: State := State([], Gap(0), 0)

  /** The index of a live process. */
  ghost predicate IsAt(s: State, pid: nat, j: nat) {
    j < |s.pids| && s.pids[j] == pid
  }

  // ----- Steps

  function Shift(c: Cursor): Cursor {
    match c case At(i) => At(i + 1) case Gap(i) => Gap(i + 1)
  }

  /** `UserProcessLoad`: a new process at the head, unless process ids have run out. */
  function Load(s: State): State {
    if s.lastPid == MAX_PID then s else State([s.lastPid + 1] + s.pids, Shift(s.cursor), s.lastPid + 1)
  }

  /** `SchedulerTick` with a process to run. */
  function Tick(s: State): State
    requires s.pids != []
  {
    s.(cursor := At(s.NextIndex()))
  }

  /** The current process leaves the list. */
  function Exit(s: State): State
    requires s.cursor.At? && s.cursor.i < |s.pids|
  {
    var i := s.cursor.i;
    s.(pids := s.pids[..i] + s.pids[i + 1..], cursor := Gap(i))
  }

  datatype Event = Loaded | Ticked | Exited

  ghost predicate Step(s: State, e: Event, t: State) {
    match e
    case Loaded => t == Load(s)
    case Ticked => s.pids != [] && t == Tick(s)
    case Exited => s.cursor.At? && s.cursor.i < |s.pids| && t == Exit(s)
  }

  /** The process running after the step. */
  ghost predicate Runs(s: State, pid: nat) {
    s.cursor.At? && IsAt(s, pid, s.cursor.i)
  }

  lemma StepKeepsValid(s: State, e: Event, t: State)
    requires s.Valid() && Step(s, e, t)
    ensures t.Valid()
  {
  }

  // ----- What one step does to a waiting process

  /** A tick brings every process it does not dispatch one place nearer. */
  lemma TickApproaches(s: State, j: nat)
    requires s.Valid() && j < |s.pids|
    ensures s.Distance(j) == 0 <==> Tick(s).cursor == At(j)
    ensures s.Distance(j) > 0 ==> Tick(s).Distance(j) == s.Distance(j) - 1
  {
  }

  /** The exit of the current process makes nobody wait longer. */
  lemma ExitKeepsDistance(s: State, j: nat)
    requires s.Valid() && s.cursor.At? && j < |s.pids| && j != s.cursor.i
    ensures var k := if j < s.cursor.i then j else j - 1;
      k < |Exit(s).pids| && Exit(s).pids[k] == s.pids[j] && Exit(s).Distance(k) == s.Distance(j)
  {
  }

  /** A load makes exactly those wait one tick longer whose turn comes after the list is started over. */
  lemma LoadDelays(s: State, j: nat)
    requires s.Valid() && j < |s.pids| && s.lastPid < MAX_PID
    ensures Load(s).pids[j + 1] == s.pids[j]
    ensures Load(s).Distance(j + 1) == s.Distance(j) + if s.WrapAhead(j) then 1 else 0
  {
  }

  // ----- Every run

  ghost predicate IsRun(events: seq<Event>, states: seq<State>) {
    |states| == |events| + 1 && states[0].Valid() &&
    forall i :: 0 <= i < |events| ==> Step(states[i], events[i], states[i + 1])
  }

  function Count(events: seq<Event>, e: Event): nat {
    if events == [] then 0 else Count(events[..|events| - 1], e) + if events[|events| - 1] == e then 1 else 0
  }

  /** Process ids stay unique, non-zero and in range, and what runs is live, in every state of every run. */
  lemma {:induction false} RunsStayValid(events: seq<Event>, states: seq<State>, n: nat)
    requires IsRun(events, states) && n <= |events|
    ensures states[n].Valid()
  {
    if n > 0 {
      RunsStayValid(events, states, n - 1);
      StepKeepsValid(states[n - 1], events[n - 1], states[n]);
    }
  }

  // ----- Who is in the list

  /** Some of the first `n` events was an exit while the process ran. */
  ghost predicate Ended(events: seq<Event>, states: seq<State>, pid: nat, n: nat)
    requires n <= |events| < |states|
  {
    exists i :: 0 <= i < n && events[i] == Exited && Runs(states[i], pid)
  }

  /** The ids handed out by `k` loads: 1, 2, 3 and so on, up to the last id. */
  predicate HandedOut(pid: nat, k: nat) {
    1 <= pid <= k && pid <= 0xFFFF_FFFE
  }

  /** The last id is the number of loads, as far as ids go. */
  lemma {:induction false} LastPidCounts(events: seq<Event>, states: seq<State>, n: nat)
    requires IsRun(events, states) && states[0] == Initial && n <= |events|
    ensures forall pid: nat :: HandedOut(pid, Count(events[..n], Loaded)) <==> 1 <= pid <= states[n].lastPid
    ensures states[n].lastPid <= Count(events[..n], Loaded) && states[n].lastPid <= 0xFFFF_FFFE
    ensures states[n].lastPid < 0xFFFF_FFFE ==> states[n].lastPid == Count(events[..n], Loaded)
  {
    if n > 0 {
      LastPidCounts(events, states, n - 1);
      assert Step(states[n - 1], events[n - 1], states[n]);
      assert events[..n][..n - 1] == events[..n - 1];
    }
  }

  lemma {:induction false} EndedWasHandedOut(events: seq<Event>, states: seq<State>, n: nat, pid: nat)
    requires IsRun(events, states) && n <= |events| && Ended(events, states, pid, n)
    ensures pid <= states[n].lastPid
  {
    RunsStayValid(events, states, n - 1);
    assert Step(states[n - 1], events[n - 1], states[n]);
    if !(events[n - 1] == Exited && Runs(states[n - 1], pid)) {
      EndedWasHandedOut(events, states, n - 1, pid);
    }
  }

  /** What one event does to the list, by membership. */
  lemma StepLists(s: State, e: Event, t: State, pid: nat)
    requires s.Valid() && Step(s, e, t)
    ensures pid in t.pids <==>
      (pid in s.pids && !(e == Exited && Runs(s, pid))) || (e == Loaded && s.lastPid < MAX_PID && pid == s.lastPid + 1)
  {
    match e
    case Loaded =>
    case Ticked =>
    case Exited =>
      var i := s.cursor.i;
      assert s.pids == s.pids[..i] + [s.pids[i]] + s.pids[i + 1..];
      assert s.pids[i] !in s.pids[..i] && s.pids[i] !in s.pids[i + 1..];
  }

  /** Over every run from the start, an id is listed exactly when some load handed it out and no exit has happened while it ran. */
  lemma {:induction false} ListedIffLive(events: seq<Event>, states: seq<State>, n: nat, pid: nat)
    requires IsRun(events, states) && states[0] == Initial && n <= |events|
    ensures pid in states[n].pids <==> HandedOut(pid, Count(events[..n], Loaded)) && !Ended(events, states, pid, n)
  {
    LastPidCounts(events, states, n);
    if n > 0 {
      ListedIffLive(events, states, n - 1, pid);
      LastPidCounts(events, states, n - 1);
      RunsStayValid(events, states, n - 1);
      StepLists(states[n - 1], events[n - 1], states[n], pid);
      if Ended(events, states, pid, n - 1) {
        EndedWasHandedOut(events, states, n - 1, pid);
      }
      assert Ended(events, states, pid, n) <==>
        Ended(events, states, pid, n - 1) || (events[n - 1] == Exited && Runs(states[n - 1], pid));
      hide HandedOut, Count, Runs;
    }
  }

  /** The list is ordered, the newest process first. */
  lemma {:induction false} NewestFirst(events: seq<Event>, states: seq<State>, n: nat)
    requires IsRun(events, states) && states[0] == Initial && n <= |events|
    ensures forall i, j :: 0 <= i < j < |states[n].pids| ==> states[n].pids[i] > states[n].pids[j]
  {
    if n > 0 {
      NewestFirst(events, states, n - 1);
      RunsStayValid(events, states, n - 1);
      assert Step(states[n - 1], events[n - 1], states[n]);
    }
  }

  /** After an exit one process fewer is listed, and no tick dispatches the one that left. */
  lemma ExitLeaves(s: State)
    requires s.Valid() && s.cursor.At?
    ensures var t := Exit(s);
      && |t.pids| == |s.pids| - 1 && s.pids[s.cursor.i] !in t.pids && !Runs(t, s.pids[s.cursor.i])
      && (t.pids != [] ==> !Runs(Tick(t), s.pids[s.cursor.i]))
  {
    StepLists(s, Exited, Exit(s), s.pids[s.cursor.i]);
  }

  /** The event makes the process wait one tick longer: a load, while its turn comes only after the list is started over. */
  ghost predicate Delayed(s: State, e: Event, pid: nat) {
    e == Loaded && s.lastPid < MAX_PID && exists j :: IsAt(s, pid, j) && s.WrapAhead(j)
  }

  /** How many of the first `n` events delay the process. */
  ghost function Delays(events: seq<Event>, states: seq<State>, pid: nat, n: nat): nat
    requires n <= |events| < |states|
  {
    if n == 0 then 0
    else Delays(events, states, pid, n - 1) + if Delayed(states[n - 1], events[n - 1], pid) then 1 else 0
  }

  /** A process stands at one index only. */
  lemma DelayedAt(s: State, e: Event, pid: nat, j: nat)
    requires s.Valid() && IsAt(s, pid, j)
    ensures Delayed(s, e, pid) <==> e == Loaded && s.lastPid < MAX_PID && s.WrapAhead(j)
  {
  }

  /** What one event does to a process it does not dispatch. */
  lemma StepMoves(s: State, e: Event, t: State, pid: nat, j: nat) returns (k: nat)
    requires s.Valid() && Step(s, e, t) && IsAt(s, pid, j) && !Runs(s, pid) && !Runs(t, pid)
    ensures IsAt(t, pid, k)
    ensures (if e == Ticked then 1 else 0) + t.Distance(k) == s.Distance(j) + if Delayed(s, e, pid) then 1 else 0
  {
    DelayedAt(s, e, pid, j);
    match e
    case Loaded =>
      if s.lastPid < MAX_PID {
        LoadDelays(s, j);
        k := j + 1;
      } else {
        k := j;
      }
    case Ticked =>
      TickApproaches(s, j);
      k := j;
    case Exited =>
      ExitKeepsDistance(s, j);
      k := if j < s.cursor.i then j else j - 1;
  }

  /** Fairness, exactly: for a live process that has not run, the ticks so far and its distance now make up its distance at
      the start and the loads that delayed it. */
  lemma {:induction false} WaitIsExact(events: seq<Event>, states: seq<State>, n: nat, pid: nat, j: nat) returns (k: nat)
    requires IsRun(events, states) && n <= |events| && IsAt(states[0], pid, j)
    requires forall i :: 0 <= i <= n ==> !Runs(states[i], pid)
    ensures IsAt(states[n], pid, k)
    ensures Count(events[..n], Ticked) + states[n].Distance(k) == states[0].Distance(j) + Delays(events, states, pid, n)
  {
    if n == 0 {
      k := j;
    } else {
      var i := WaitIsExact(events, states, n - 1, pid, j);
      RunsStayValid(events, states, n - 1);
      assert events[..n][..n - 1] == events[..n - 1];
      k := StepMoves(states[n - 1], events[n - 1], states[n], pid, i);
    }
  }

  lemma {:induction false} DelaysAreLoads(events: seq<Event>, states: seq<State>, pid: nat, n: nat)
    requires n <= |events| < |states|
    ensures Delays(events, states, pid, n) <= Count(events[..n], Loaded)
  {
    if n > 0 {
      DelaysAreLoads(events, states, pid, n - 1);
      assert events[..n][..n - 1] == events[..n - 1];
    }
  }

  /** A live process runs at some point of every run with more ticks than its distance and the loads that delay it, and so of
      every run with more ticks than its distance and all loads. */
  lemma DispatchedInTime(events: seq<Event>, states: seq<State>, pid: nat, j: nat)
    requires IsRun(events, states) && IsAt(states[0], pid, j)
    ensures Delays(events, states, pid, |events|) <= Count(events, Loaded)
    ensures Count(events, Ticked) > states[0].Distance(j) + Delays(events, states, pid, |events|) ==>
      exists i :: 0 <= i <= |events| && Runs(states[i], pid)
  {
    assert events[..|events|] == events;
    DelaysAreLoads(events, states, pid, |events|);
    if forall i :: 0 <= i <= |events| ==> !Runs(states[i], pid) {
      var k := WaitIsExact(events, states, |events|, pid, j);
    }
  }
}
