// The two-ended verification shared by the pair-hash and skip-table
// engines: once a window's last and first bytes agree with the needle,
// pairs of bytes are compared from both ends inward ("zigzag"), byte j
// from the front together with byte m-1-j from the back, for j below
// lim = ceil(m/2).

module Zigzag {
  import opened Bytes

  /** The branch-free test `0 == (a^b)|(c^d)` of two byte comparisons. */
  function BothEqual(a: byte, b: byte, c: byte, d: byte): (r: bool)
    ensures r <==> a == b && c == d
  {
    (a ^ b) | (c ^ d) == 0
  }

  /** lim = (m + (1 - mm1&1)) >> 1, where Go's & binds tighter than -
      (bh2search/search.go:45): the rounded-up half of m. */
  function Lim(m: nat): (lim: nat)
    requires 1 <= m
    ensures 2 * lim == m || 2 * lim == m + 1
  {
    (m + (1 - (m - 1) % 2)) / 2
  }

  /** The zigzag compare from index j on: the first j' < lim at which
      needle[j'] or needle[m-1-j'] disagrees with the window ending at k,
      or lim when none does (bh2search/search.go:83-91). */
  function Zig(hay: seq<byte>, needle: seq<byte>, k: int, j: nat): (r: nat)
    requires 1 <= |needle| <= k + 1 <= |hay|
    requires 1 <= j <= Lim(|needle|)
    ensures j <= r <= Lim(|needle|)
    decreases Lim(|needle|) - j
  {
    var mm1 := |needle| - 1;
    if j == Lim(|needle|) then j
    else if BothEqual(hay[k - mm1 + j], needle[j], hay[k - j], needle[mm1 - j]) then Zig(hay, needle, k, j + 1)
    else j
  }

  /** Byte t from the front and byte t from the back of the window ending
      at k agree with the needle. */
  predicate PairMatch(hay: seq<byte>, needle: seq<byte>, k: int, t: int)
    requires 1 <= |needle| <= k + 1 <= |hay| && 0 <= t < |needle|
  {
    hay[k - (|needle| - 1) + t] == needle[t] && hay[k - t] == needle[|needle| - 1 - t]
  }

  lemma {:induction false} ZigSpec(hay: seq<byte>, needle: seq<byte>, k: int, j: nat)
    requires 1 <= |needle| <= k + 1 <= |hay|
    requires 1 <= j <= Lim(|needle|)
    ensures Zig(hay, needle, k, j) == Lim(|needle|) <==>
      forall t :: j <= t < Lim(|needle|) ==> PairMatch(hay, needle, k, t)
    decreases Lim(|needle|) - j
  {
    if j < Lim(|needle|) {
      var mm1 := |needle| - 1;
      assert PairMatch(hay, needle, k, j) <==>
        BothEqual(hay[k - mm1 + j], needle[j], hay[k - j], needle[mm1 - j]);
      ZigSpec(hay, needle, k, j + 1);
    }
  }

  /** The candidate test at window end k: last and first byte, then the
      zigzag all the way to lim. */
  predicate Candidate(hay: seq<byte>, needle: seq<byte>, k: int)
    requires 1 <= |needle| <= k + 1 <= |hay|
  {
    var mm1 := |needle| - 1;
    BothEqual(hay[k], needle[mm1], hay[k - mm1], needle[0]) && Zig(hay, needle, k, 1) == Lim(|needle|)
  }

  /** Comparing the two ends and the pairs up to lim compares every byte,
      because 2 lim >= m. */
  lemma CandidateSound(hay: seq<byte>, needle: seq<byte>, k: int)
    requires 1 <= |needle| <= k + 1 <= |hay|
    requires Candidate(hay, needle, k)
    ensures Occurs(hay, needle, k - (|needle| - 1))
  {
    var m, mm1, lim := |needle|, |needle| - 1, Lim(|needle|);
    var x := k - mm1;
    ZigSpec(hay, needle, k, 1);
    forall p | x <= p < x + m
      ensures hay[p] == needle[p - x]
    {
      var t := p - x;
      if t == 0 || t == mm1 {
      } else if t < lim {
        assert PairMatch(hay, needle, k, t);
      } else {
        assert PairMatch(hay, needle, k, mm1 - t);
      }
    }
    OccursBytes(hay, needle, x);
  }

  lemma CandidateComplete(hay: seq<byte>, needle: seq<byte>, k: int)
    requires 1 <= |needle| <= k + 1 <= |hay|
    requires Occurs(hay, needle, k - (|needle| - 1))
    ensures Candidate(hay, needle, k)
  {
    var mm1 := |needle| - 1;
    var x := k - mm1;
    OccursBytes(hay, needle, x);
    assert hay[x] == needle[x - x] && hay[x + mm1] == needle[x + mm1 - x];
    forall t | 1 <= t < Lim(|needle|)
      ensures PairMatch(hay, needle, k, t)
    {
      assert hay[x + t] == needle[x + t - x];
      assert hay[x + (mm1 - t)] == needle[x + (mm1 - t) - x];
    }
    ZigSpec(hay, needle, k, 1);
  }

  /** The candidate test holds exactly when the needle ends at k
      (bh2search/search.go:81-95). */
  lemma CandidateExact(hay: seq<byte>, needle: seq<byte>, k: int)
    requires 1 <= |needle| <= k + 1 <= |hay|
    ensures Candidate(hay, needle, k) <==> Occurs(hay, needle, k - (|needle| - 1))
  {
    if Candidate(hay, needle, k) {
      CandidateSound(hay, needle, k);
    }
    if Occurs(hay, needle, k - (|needle| - 1)) {
      CandidateComplete(hay, needle, k);
    }
  }
}
