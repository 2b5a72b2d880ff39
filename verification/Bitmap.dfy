/**
The kernel's packed bitmap allocator: positions `deadZone .. len` are described by the
bits of an array of words, and `firstFree` is a search hint.
*/
module Bitmaps {
  import opened Bitwise

  const SIZE_MAX: nat := 0xFFFF_FFFF
  /** `BITMAP_INVALID_WORD_IX`. */
  const INVALID: nat := SIZE_MAX

  /** The positions `first .. first + n`. */
  function Range(first: nat, n: nat): (r: set<nat>)
    ensures forall i: nat :: i in r <==> first <= i < first + n
  {
    if n == 0 then {} else Range(first, n - 1) + {first + n - 1}
  }

  lemma RangeGrows(first: nat, n: nat)
    ensures Range(first, n + 1) == Range(first, n) + {first + n}
  {
  }

  /** `n` consecutive unmarked positions of `dead .. len` start at `at`. */
  ghost predicate FreeRun(marked: set<nat>, dead: nat, len: nat, at: nat, n: nat) {
    dead <= at && at + n <= len && forall i :: at <= i < at + n ==> i !in marked
  }

  /** `at` is the leftmost start of a free run of length `n`. */
  ghost predicate LeftmostFreeRun(marked: set<nat>, dead: nat, len: nat, at: nat, n: nat) {
    FreeRun(marked, dead, len, at, n) &&
    forall other: nat :: other < at ==> !FreeRun(marked, dead, len, other, n)
  }

  ghost predicate NoFreeRun(marked: set<nat>, dead: nat, len: nat, n: nat) {
    forall at: nat :: !FreeRun(marked, dead, len, at, n)
  }

  /** What an allocation of `n` positions must answer: the leftmost free run, or failure if there is none.
      A request for no positions at all answers the position after the leftmost free one. */
  ghost predicate SearchAnswer(marked: set<nat>, dead: nat, len: nat, n: nat, r: nat) {
    if n == 0 then
      (r == INVALID && NoFreeRun(marked, dead, len, 1)) || (r > 0 && LeftmostFreeRun(marked, dead, len, r - 1, 1))
    else
      if r == INVALID then NoFreeRun(marked, dead, len, n) else LeftmostFreeRun(marked, dead, len, r, n)
  }

  /** The positions of `dead .. len` whose packed bit is set. */
  ghost function MarkedIn(words: seq<bv32>, dead: nat, len: nat): (m: set<nat>)
    requires dead <= len && len - dead <= 32 * |words|
    ensures forall i: nat :: i in m <==> dead <= i < len && PackedBit(words, i - dead)
    decreases len
  {
    if dead == len then {}
    else if PackedBit(words, len - 1 - dead) then MarkedIn(words, dead, len - 1) + {len - 1}
    else MarkedIn(words, dead, len - 1)
  }

  /** One packed store marks or unmarks exactly one position. */
  lemma MarkedAfterStore(words: seq<bv32>, dead: nat, len: nat, i: nat, v: bool)
    requires dead <= i < len && len - dead <= 32 * |words|
    ensures MarkedIn(StoreBit(words, i - dead, v), dead, len)
         == if v then MarkedIn(words, dead, len) + {i} else MarkedIn(words, dead, len) - {i}
  {
    hide PackedBit, StoreBit, MarkedIn;
    var before, after := MarkedIn(words, dead, len), MarkedIn(StoreBit(words, i - dead, v), dead, len);
    forall p: nat | dead <= p < len
      ensures p in after <==> if p == i then v else p in before
    {
      PackedBitAfterStore(words, i - dead, v, p - dead);
    }
    if v {
      assert after == before + {i};
    } else {
      assert after == before - {i};
    }
  }

  class Bitmap {
    const words: array<bv32>
    const len: nat
    const deadZone: nat
    var firstFree: nat
    /** The positions whose bit is set. */
    ghost var marked: set<nat>

    /** The packed words read as a set of positions. */
    ghost function Bits(): set<nat>
      reads words
      requires Fits()
    {
      MarkedIn(words[..], deadZone, len)
    }

    /** The backing words cover every described position. */
    ghost predicate Fits() {
      deadZone <= len <= SIZE_MAX && len - deadZone <= 32 * words.Length
    }

    /** The words hold the marked positions, and the hint is sound: nothing below it is free. */
    ghost predicate Valid()
      reads this, words
    {
      Fits() && marked == Bits() &&
      deadZone <= firstFree <= SIZE_MAX &&
      forall i: nat :: deadZone <= i < firstFree && i < len ==> i in marked
    }

    /** `InitBitmap` over backing storage with arbitrary contents. */
    constructor (words: array<bv32>, len: nat, deadZone: nat, taken: bool)
      requires deadZone <= len <= SIZE_MAX && len - deadZone <= 32 * words.Length
      modifies words
      ensures Valid() && this.words == words && this.len == len && this.deadZone == deadZone
      ensures marked == if taken then Range(deadZone, len - deadZone) else {}
    {
      this.words := words;
      this.len := len;
      this.deadZone := deadZone;
      firstFree := if taken then INVALID else deadZone;
      new;
      SetBits(deadZone, len - deadZone, taken);
      marked := Bits();
      UpdateHint(deadZone, len - deadZone, taken);
    }

    /** One iteration of the loop of `MarkInBitmap`: the store through `SetBit`. */
    method StoreAt(i: nat, taken: bool)
      requires Fits() && deadZone <= i < len
      modifies words
      ensures Bits() == if taken then old(Bits()) + {i} else old(Bits()) - {i}
    {
      hide PackedBit, SetBit, Shift, MarkedIn;
      var k := i - deadZone;
      MarkedAfterStore(words[..], deadZone, len, i, taken);
      ghost var after := StoreBit(words[..], k, taken);
      words[k / 32] := SetBit(words[k / 32], Shift(k), taken);
      assert words[..] == after;
    }

    /** The loop of `MarkInBitmap`. */
    method SetBits(first: nat, n: nat, taken: bool)
      requires Fits()
      requires deadZone <= first && first + n <= len
      modifies words
      ensures Bits() == if taken then old(Bits()) + Range(first, n) else old(Bits()) - Range(first, n)
    {
      hide Bits, Range;
      ghost var before := Bits();
      for i := first to first + n
        invariant Bits() == if taken then before + Range(first, i - first) else before - Range(first, i - first)
      {
        StoreAt(i, taken);
        RangeGrows(first, i - first);
      }
    }

    /** The tail of `MarkInBitmap`. */
    method UpdateHint(first: nat, n: nat, taken: bool)
      requires Fits() && marked == Bits() && deadZone <= firstFree <= SIZE_MAX
      requires deadZone <= first && first + n <= len
      requires taken ==> Range(first, n) <= marked
      requires forall i: nat :: deadZone <= i < firstFree && i < len && i !in Range(first, n) ==> i in marked
      modifies this`firstFree
      ensures Valid()
      ensures firstFree ==
        if taken then (if first <= old(firstFree) < first + n then first + n else old(firstFree))
        else if first < old(firstFree) then first else old(firstFree)
    {
      if taken {
        if first <= firstFree && first + n > firstFree {
          firstFree := first + n;
        }
      } else if first < firstFree {
        firstFree := first;
      }
    }

    method MarkInBitmap(first: nat, n: nat, taken: bool)
      requires Valid()
      requires deadZone <= first && first + n <= len
      modifies this, words
      ensures Valid()
      ensures marked == if taken then old(marked) + Range(first, n) else old(marked) - Range(first, n)
      ensures firstFree ==
        if taken then (if first <= old(firstFree) < first + n then first + n else old(firstFree))
        else if first < old(firstFree) then first else old(firstFree)
    {
      SetBits(first, n, taken);
      marked := if taken then marked + Range(first, n) else marked - Range(first, n);
      UpdateHint(first, n, taken);
    }

    method FindInBitmap(n: nat) returns (r: nat)
      requires Valid()
      ensures SearchAnswer(marked, deadZone, len, n, r)
    {
      hide PackedBit, Shift, MarkedIn, MaskTest;
      ghost var want := if n == 0 then 1 else n;
      forall at: nat | at < firstFree
        ensures !FreeRun(marked, deadZone, len, at, want)
      {
        assert deadZone <= at < len ==> at in marked;
      }
      var i, found := firstFree, 0;
      while i < len
        invariant firstFree <= i
        invariant 0 <= found < want && found <= i - firstFree
        invariant i > len ==> i == firstFree
        invariant i <= len ==> forall p: nat :: i - found <= p < i ==> p !in marked
        invariant forall at: nat :: at < i - found ==> !FreeRun(marked, deadZone, len, at, want)
      {
        var k := i - deadZone;
        MaskReadsPackedBit(words[..], k);
        assert i in marked <==> PackedBit(words[..], k);
        if MaskTest(words[k / 32], Shift(k)) {
          found := 0;
        } else {
          found := found + 1;
          if found >= n {
            return i - n + 1;
          }
        }
        i := i + 1;
      }
      return INVALID;
    }

    method AllocateInBitmap(n: nat) returns (first: nat)
      requires Valid()
      modifies this, words
      ensures Valid()
      ensures SearchAnswer(old(marked), deadZone, len, n, first)
      ensures marked == if first == INVALID then old(marked) else old(marked) + Range(first, n)
    {
      first := FindInBitmap(n);
      if first == INVALID {
        return;
      }
      MarkInBitmap(first, n, true);
    }

    method FreeInBitmap(first: nat, n: nat)
      requires Valid()
      requires deadZone <= first && first + n <= len
      modifies this, words
      ensures Valid()
      ensures marked == old(marked) - Range(first, n)
    {
      MarkInBitmap(first, n, false);
    }
  }
}
