/** Single-bit access to a 32-bit word (`size_t` on i686). */
module Bitwise {

  /** `GetBit`: bit `b` of `word`. */
  function GetBit(word: bv32, b: bv32): bool
    requires b < 32
  {
    (word >> b) & 1 == 1
  }

  /** The word `SetBit` leaves behind: bit `b` of `word` replaced by `value`. */
  function SetBit(word: bv32, b: bv32, value: bool): bv32
    requires b < 32
  {
    if value then word | (1 << b) else word & !(1 << b)
  }

  /** Writing one bit is seen by a read of that bit and by no other read. */
  lemma GetAfterSet(w: bv32, b: bv32, c: bv32, v: bool)
    requires b < 32 && c < 32
    ensures GetBit(SetBit(w, b, v), c) == if b == c then v else GetBit(w, c)
  {
  }

  /** The mask test of the bitmap search. */
  predicate MaskTest(word: bv32, b: bv32)
    requires b < 32
  {
    word & (1 << b) != 0
  }

  /** The mask test reads the same bit as `GetBit`. */
  lemma MaskReadsBit(w: bv32, b: bv32)
    requires b < 32
    ensures GetBit(w, b) <==> MaskTest(w, b)
  {
  }

  lemma SmallRoundTrip(a: nat)
    requires a < 32
    ensures (a as bv32) < 32
    ensures (a as bv32) as nat == a
  {
  }

  /** The shift amount for position `k` inside its word. */
  function Shift(k: nat): (b: bv32)
    ensures b < 32
  {
    SmallRoundTrip(k % 32);
    (k % 32) as bv32
  }

  /** The shift amount is the position's remainder by 32. */
  lemma ShiftIsRemainder(k: nat)
    ensures Shift(k) as nat == k % 32
  {
    SmallRoundTrip(k % 32);
  }

  lemma ShiftsDiffer(k: nat, m: nat)
    requires k % 32 != m % 32
    ensures Shift(k) != Shift(m)
  {
    ShiftIsRemainder(k);
    ShiftIsRemainder(m);
  }

  /** Bit `k` of an array of packed words. */
  predicate PackedBit(words: seq<bv32>, k: nat)
    requires k / 32 < |words|
  {
    GetBit(words[k / 32], Shift(k))
  }

  /** The mask test of the search loop reads the packed bit. */
  lemma MaskReadsPackedBit(words: seq<bv32>, k: nat)
    requires k / 32 < |words|
    ensures PackedBit(words, k) <==> MaskTest(words[k / 32], Shift(k))
  {
    hide GetBit, Shift, MaskTest;
    MaskReadsBit(words[k / 32], Shift(k));
  }

  /** The packed words after `SetBit` on position `k`. */
  function StoreBit(words: seq<bv32>, k: nat, v: bool): (r: seq<bv32>)
    requires k / 32 < |words|
    ensures |r| == |words|
  {
    words[k / 32 := SetBit(words[k / 32], Shift(k), v)]
  }

  /** Storing a bit at position `k` changes position `k` only, across word boundaries. */
  lemma PackedBitAfterStore(words: seq<bv32>, k: nat, v: bool, m: nat)
    requires k / 32 < |words| && m / 32 < |words|
    ensures PackedBit(StoreBit(words, k, v), m) == if m == k then v else PackedBit(words, m)
  {
    hide GetBit, SetBit, Shift;
    GetAfterSet(words[k / 32], Shift(k), Shift(m), v);
    if k / 32 == m / 32 && k != m {
      ShiftsDiffer(k, m);
    }
  }
}
