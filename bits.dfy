// Single bits of 64-bit words, addressed by a 7-bit position so that the
// solver never converts an unbounded integer into a shift amount.

module Bits {

  /** A bit position in a 64-bit word. */
  type Idx = k: bv7 | k < 64

  /** Bit `k` of `x` is set. */
  predicate Bit(x: bv64, k: Idx) {
    (x >> k) & 1 == 1
  }

  /** The word `1 << j`, built by single shifts. */
  function OneAt(j: nat): bv64
    requires j < 64
  {
    if j == 0 then 1 else OneAt(j - 1) << 1
  }

  lemma ShlBit(x: bv64, k: Idx)
    requires 1 <= k
    ensures Bit(x << 1, k) == Bit(x, k - 1)
  {
  }

  lemma ShlBitZero(x: bv64)
    ensures !Bit(x << 1, 0)
  {
  }

  lemma AndBit(x: bv64, y: bv64, k: Idx)
    ensures Bit(x & y, k) == (Bit(x, k) && Bit(y, k))
  {
  }

  lemma OrBit(x: bv64, y: bv64, k: Idx)
    ensures Bit(x | y, k) == (Bit(x, k) || Bit(y, k))
  {
  }

  /** One step of a shift-and word: bit k survives when bit k-1 of the
      shifted word and bit k of the mask are both set. */
  lemma ShlAndBit(below: bv64, here: bv64, w: bv64, k: Idx)
    requires w == (below << 1) & here
    ensures Bit(w, k) == (k != 0 && Bit(below, k - 1) && Bit(here, k))
  {
    AndBit(below << 1, here, k);
    if k == 0 {
      ShlBitZero(below);
    } else {
      ShlBit(below, k);
    }
  }

  lemma PredIdx(k: Idx)
    requires k != 0
    ensures (k - 1) as int == k as int - 1
  {
  }

  lemma OneBit(k: Idx)
    ensures Bit(1, k) == (k == 0)
  {
  }

  lemma ZeroBit(k: Idx)
    ensures !Bit(0, k)
  {
  }

  /** OneAt(j) has exactly bit `j` set. */
  lemma {:induction false} OneAtBit(j: nat, k: Idx)
    requires j < 64
    ensures Bit(OneAt(j), k) == (j == k as int)
  {
    if j == 0 {
      OneBit(k);
    } else if k == 0 {
      ShlBitZero(OneAt(j - 1));
    } else {
      ShlBit(OneAt(j - 1), k);
      OneAtBit(j - 1, k - 1);
    }
  }

  /** The word `mask | 1 << j`. */
  function SetBit(mask: bv64, j: nat): bv64
    requires j < 64
  {
    mask | OneAt(j)
  }

  lemma OrOneAtBit(mask: bv64, w: bv64, j: nat, k: Idx)
    requires j < 64 && w == OneAt(j)
    ensures Bit(mask | w, k) == (Bit(mask, k) || j == k as int)
  {
    OrBit(mask, w, k);
    OneAtBit(j, k);
  }

  /** Setting bit j changes bit j alone. */
  lemma SetBitBits(mask: bv64, j: nat, k: Idx)
    requires j < 64
    ensures Bit(SetBit(mask, j), k) == (Bit(mask, k) || j == k as int)
  {
    OrOneAtBit(mask, OneAt(j), j, k);
  }

  lemma ShrBit(x: bv64, k: Idx)
    requires k < 63
    ensures Bit(x >> 1, k) == Bit(x, k + 1)
  {
  }

  lemma ShrTopClear(x: bv64)
    ensures !Bit(x >> 1, 63)
  {
  }

  /** A nonzero word has a set bit. */
  lemma NonzeroBit(x: bv64) returns (k: Idx)
    requires x != 0
    ensures Bit(x, k)
    decreases x
  {
    if x & 1 == 1 {
      return 0;
    }
    var j := NonzeroBit(x >> 1);
    ShrTopClear(x);
    ShrBit(x, j);
    k := j + 1;
  }

  /** The bit position whose number is `n`. */
  lemma IdxOf(n: nat) returns (k: Idx)
    requires n < 64
    ensures k as int == n
  {
    if n == 0 {
      k := 0;
    } else {
      k := IdxOf(n - 1);
      k := k + 1;
    }
  }
}
