/** Bitmaps held in 32-bit words (include/common/bitops.h).

A bitmap is a sequence of machine words.  `BitAt` is its meaning: the value of
the bit with a given index.  The operations below act on whole words, as the
kernel does, and are specified on bits only.
*/
module Bitops {
  type Word = bv32

  const BITS_PER_LONG: nat := 32

  /** A bit position as a shift amount. */
  function Shift(k: nat): (r: bv6)
    requires k < 32
    ensures r < 32 && r as nat == k
  {
    k as bv6
  }

  predicate ShiftedBit(w: Word, k: bv6)
    requires k < 32
  {
    (w >> k) & 1 == 1
  }

  predicate Bit(w: Word, k: nat)
    requires k < 32
  {
    ShiftedBit(w, Shift(k))
  }

  function SetShift(w: Word, k: bv6): Word
    requires k < 32
  {
    w | (1 << k)
  }

  function SetWordBit(w: Word, k: nat): Word
    requires k < 32
  {
    SetShift(w, Shift(k))
  }

  function ClearShift(w: Word, k: bv6): Word
    requires k < 32
  {
    w & !(1 << k)
  }

  function ClearWordBit(w: Word, k: nat): Word
    requires k < 32
  {
    ClearShift(w, Shift(k))
  }

  /** The bit with index `i` of a bitmap; the kernel's bitmap_get_bit. */
  predicate BitAt(bits: seq<Word>, i: nat)
    requires i < 32 * |bits|
  {
    Bit(bits[i / 32], i % 32)
  }

  // ---------------------------------------------------------------- words

  lemma SetShifted(w: Word, b: bv6, k: bv6)
    requires b < 32 && k < 32
    ensures ShiftedBit(SetShift(w, b), k) == (k == b || ShiftedBit(w, k))
  {}

  lemma ClearShifted(w: Word, b: bv6, k: bv6)
    requires b < 32 && k < 32
    ensures ShiftedBit(ClearShift(w, b), k) == (k != b && ShiftedBit(w, k))
  {}

  lemma XorShifted(v: Word, w: Word, k: bv6)
    requires k < 32 && ShiftedBit(v, k) == ShiftedBit(w, k)
    ensures !ShiftedBit(v ^ w, k)
  {}

  lemma SetWordBitBits(w: Word, b: nat, k: nat)
    requires b < 32 && k < 32
    ensures Bit(SetWordBit(w, b), k) == (k == b || Bit(w, k))
  {
    SetShifted(w, Shift(b), Shift(k));
  }

  lemma ClearWordBitBits(w: Word, b: nat, k: nat)
    requires b < 32 && k < 32
    ensures Bit(ClearWordBit(w, b), k) == (k != b && Bit(w, k))
  {
    ClearShifted(w, Shift(b), Shift(k));
  }

  lemma NoBitsFrom(w: Word, n: bv6)
    requires n < 32 && forall k: bv6 :: n <= k < 32 ==> !ShiftedBit(w, k)
    ensures w >> n == 0
    decreases 32 - n
  {
    assert !ShiftedBit(w, n);
    if n < 31 {
      NoBitsFrom(w, n + 1);
    }
  }

  lemma XorZero(v: Word, w: Word)
    requires (v ^ w) >> (0 as bv6) == 0
    ensures v == w
  {}

  lemma ShiftOfNat(k: bv6)
    requires k < 32
    ensures Shift(k as nat) == k
  {}

  /** A word is determined by its 32 bits. */
  lemma WordExtensionality(v: Word, w: Word)
    requires forall k: nat :: k < 32 ==> Bit(v, k) == Bit(w, k)
    ensures v == w
  {
    var x := v ^ w;
    forall k: bv6 | k < 32 ensures !ShiftedBit(x, k) {
      ShiftOfNat(k);
      assert Bit(v, k as nat) == Bit(w, k as nat);
      XorShifted(v, w, k);
    }
    NoBitsFrom(x, 0);
    XorZero(v, w);
  }

  /** The two words a search skips hold no bit of the wanted value. */
  lemma UniformWord(k: nat)
    requires k < 32
    ensures !Bit(0, k) && Bit(0xFFFF_FFFF, k)
  {}

  /** Index of the lowest bit at or above `k` equal to `v`, or 32: the
      compiler builtin ffsl on a word or on its complement, less one. */
  function LowestFrom(w: Word, v: bool, k: nat): (r: nat)
    requires k <= 32
    ensures k <= r <= 32
    ensures r < 32 ==> Bit(w, r) == v
    ensures forall j: nat :: k <= j < r ==> Bit(w, j) != v
    decreases 32 - k
  {
    if k == 32 || Bit(w, k) == v then k else LowestFrom(w, v, k + 1)
  }

  lemma LowestExists(w: Word, v: bool)
    requires w != (if v then 0 else 0xFFFF_FFFF)
    ensures LowestFrom(w, v, 0) < 32
  {
    if LowestFrom(w, v, 0) == 32 {
      var z: Word := if v then 0 else 0xFFFF_FFFF;
      forall k: nat | k < 32 ensures Bit(w, k) == Bit(z, k) {
        UniformWord(k);
      }
      WordExtensionality(w, z);
    }
  }

  // -------------------------------------------------------------- bitmaps

  /** Bitmaps of equal length with equal bits hold equal words. */
  lemma BitmapExtensionality(a: seq<Word>, b: seq<Word>)
    requires |a| == |b|
    requires forall i: nat :: i < 32 * |a| ==> BitAt(a, i) == BitAt(b, i)
    ensures a == b
  {
    forall w | 0 <= w < |a| ensures a[w] == b[w] {
      forall k: nat | k < 32 ensures Bit(a[w], k) == Bit(b[w], k) {
        var i := 32 * w + k;
        assert i / 32 == w && i % 32 == k;
        assert BitAt(a, i) == BitAt(b, i);
      }
      WordExtensionality(a[w], b[w]);
    }
  }

  function SetBit(bits: seq<Word>, bit: nat): (r: seq<Word>)
    requires bit < 32 * |bits|
    ensures |r| == |bits|
    ensures forall i: nat :: i < 32 * |bits| ==> BitAt(r, i) == (i == bit || BitAt(bits, i))
  {
    var r := bits[bit / 32 := SetWordBit(bits[bit / 32], bit % 32)];
    assert forall i: nat :: i < 32 * |bits| ==> BitAt(r, i) == (i == bit || BitAt(bits, i)) by {
      forall i: nat | i < 32 * |bits| ensures BitAt(r, i) == (i == bit || BitAt(bits, i)) {
        SetWordBitBits(bits[bit / 32], bit % 32, i % 32);
      }
    }
    r
  }

  function ClearBit(bits: seq<Word>, bit: nat): (r: seq<Word>)
    requires bit < 32 * |bits|
    ensures |r| == |bits|
    ensures forall i: nat :: i < 32 * |bits| ==> BitAt(r, i) == (i != bit && BitAt(bits, i))
  {
    var r := bits[bit / 32 := ClearWordBit(bits[bit / 32], bit % 32)];
    assert forall i: nat :: i < 32 * |bits| ==> BitAt(r, i) == (i != bit && BitAt(bits, i)) by {
      forall i: nat | i < 32 * |bits| ensures BitAt(r, i) == (i != bit && BitAt(bits, i)) {
        ClearWordBitBits(bits[bit / 32], bit % 32, i % 32);
      }
    }
    r
  }

  /** bitmap_set_bit: one word of the array is rewritten in place. */
  method BitmapSetBit(bits: array<Word>, bit: nat)
    requires bit < 32 * bits.Length
    modifies bits
    ensures bits[..] == SetBit(old(bits[..]), bit)
  {
    bits[bit / 32] := SetWordBit(bits[bit / 32], bit % 32);
  }

  /** bitmap_clear_bit: one word of the array is rewritten in place. */
  method BitmapClearBit(bits: array<Word>, bit: nat)
    requires bit < 32 * bits.Length
    modifies bits
    ensures bits[..] == ClearBit(old(bits[..]), bit)
  {
    bits[bit / 32] := ClearWordBit(bits[bit / 32], bit % 32);
  }

  /** The word-by-word search shared by find_first_bit (`v` true) and
      find_first_zero_bit (`v` false): the least index below `size` whose bit
      equals `v`, or `size` if there is none. */
  method FindFirst(bits: seq<Word>, v: bool, size: nat) returns (r: nat)
    requires size <= 32 * |bits|
    ensures r <= size
    ensures r < size ==> BitAt(bits, r) == v
    ensures forall i: nat :: i < r ==> BitAt(bits, i) != v
  {
    var skip: Word := if v then 0 else 0xFFFF_FFFF;
    var w := 0;
    while w * BITS_PER_LONG < size
      invariant w <= |bits|
      invariant forall i: nat :: i < 32 * w ==> BitAt(bits, i) != v
    {
      if bits[w] != skip {
        var k := LowestFrom(bits[w], v, 0);
        LowestExists(bits[w], v);
        forall i: nat | i < 32 * w + k ensures BitAt(bits, i) != v {
          if 32 * w <= i {
            assert i / 32 == w && i % 32 < k;
          }
        }
        assert (32 * w + k) / 32 == w && (32 * w + k) % 32 == k;
        return if 32 * w + k < size then 32 * w + k else size;
      }
      forall i: nat | i < 32 * (w + 1) ensures BitAt(bits, i) != v {
        if 32 * w <= i {
          assert i / 32 == w;
          UniformWord(i % 32);
        }
      }
      w := w + 1;
    }
    return size;
  }
}
