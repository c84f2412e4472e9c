// The word-at-a-time single-byte scanners of unsafeMEMCHR.go: mmIndex,
// mmFindALL and mmCount look for the needle's last byte eight bytes at a
// time with the "has a zero byte" test of the GNU C library's memchr, then
// byte by byte over the tail.
//
// The haystack is taken to start at an 8-byte aligned address and to hold
// at least eight bytes, so that every word load lies inside it; words are
// loaded little-endian.

module Memchr {
  import opened Bytes

  /** magicBITS: every byte's low bit clear except in the lowest byte, and
      the top bit clear. */
  const Magic: bv64 := 0x7efe_fefe_fefe_feff
  const NotMagic: bv64 := 0xffff_ffff_ffff_ffff ^ Magic

  /** The lanes of a word, lowest first: lane idx is `w << ((7-idx)*8) >> 56`. */
  function Lanes(w: bv64): (l: seq<bv64>)
    ensures |l| == 8
  {
    [w << 56 >> 56, w << 48 >> 56, w << 40 >> 56, w << 32 >> 56, w << 24 >> 56, w << 16 >> 56, w << 8 >> 56, w >> 56]
  }

  /** The word test `((w + magic) ^ ^w) & ^magic`; nonzero means the word
      may hold a zero lane. */
  function ZeroLaneTest(w: bv64): bv64 {
    ((w + Magic) ^ (0xffff_ffff_ffff_ffff ^ w)) & NotMagic
  }

  /** The word test never misses a zero lane. */
  lemma ZeroLaneDetected(w: bv64, idx: nat)
    requires idx < 8 && Lanes(w)[idx] == 0
    ensures ZeroLaneTest(w) != 0
  {
  }

  /** The word test can fire on a word with no zero lane: 0x80 in the top
      lane and 0x01 elsewhere. */
  lemma ZeroLaneTestFalsePositive()
    ensures ZeroLaneTest(0x8001_0101_0101_0101) != 0
    ensures forall idx :: 0 <= idx < 8 ==> Lanes(0x8001_0101_0101_0101)[idx] != 0
  {
  }

  /** The word whose lanes, from the lowest, are the bytes b0 to b7. */
  function Word(b0: byte, b1: byte, b2: byte, b3: byte, b4: byte, b5: byte, b6: byte, b7: byte): bv64 {
    (b0 as bv64) | (b1 as bv64 << 8) | (b2 as bv64 << 16) | (b3 as bv64 << 24)
    | (b4 as bv64 << 32) | (b5 as bv64 << 40) | (b6 as bv64 << 48) | (b7 as bv64 << 56)
  }

  /** The little-endian load `*(*uint64)(readIdx)` of s[o..o+8]. */
  function Load(s: seq<byte>, o: nat): bv64
    requires o + 8 <= |s|
  {
    Word(s[o], s[o + 1], s[o + 2], s[o + 3], s[o + 4], s[o + 5], s[o + 6], s[o + 7])
  }

  /** needleMask after `i` rounds of `needleMask |= uint64(char);
      needleMask <<= 8`, with `b` the widened byte. */
  function Spread(b: bv64, i: nat): bv64
    requires i <= 7
  {
    if i == 0 then 0 else (Spread(b, i - 1) | b) << 8
  }

  /** One more round of the mask loop. */
  lemma SpreadNext(b: bv64, i: nat, mask: bv64)
    requires i < 7 && mask == Spread(b, i)
    ensures (mask | b) << 8 == Spread(b, i + 1)
  {
  }

  /** needleMask once the loop is done and the last `|= uint64(char)` applied. */
  function NeedleMask(c: byte): bv64 {
    Spread(c as bv64, 7) | c as bv64
  }

  lemma SpreadStep(c: byte, b: bv64, i: nat, w1: byte, w2: byte, w3: byte, w4: byte, w5: byte, w6: byte)
    requires 1 <= i <= 7 && b == c as bv64
    requires Spread(b, i - 1) == Word(0, w1, w2, w3, w4, w5, w6, 0)
    ensures Spread(b, i) == Word(0, c, w1, w2, w3, w4, w5, w6)
  {
  }

  /** needleMask holds `c` in each of its eight lanes. */
  lemma NeedleMaskWord(c: byte)
    ensures NeedleMask(c) == Word(c, c, c, c, c, c, c, c)
  {
    var b := c as bv64;
    assert Spread(b, 0) == Word(0, 0, 0, 0, 0, 0, 0, 0);
    SpreadStep(c, b, 1, 0, 0, 0, 0, 0, 0);
    SpreadStep(c, b, 2, c, 0, 0, 0, 0, 0);
    SpreadStep(c, b, 3, c, c, 0, 0, 0, 0);
    SpreadStep(c, b, 4, c, c, c, 0, 0, 0);
    SpreadStep(c, b, 5, c, c, c, c, 0, 0);
    SpreadStep(c, b, 6, c, c, c, c, c, 0);
    SpreadStep(c, b, 7, c, c, c, c, c, c);
  }

  /** Lane by lane, xoring with `c` in every lane zeroes exactly the lanes
      that hold `c`. The eight lemmas are kept unrolled on purpose: with a
      concrete lane each query is about eight fixed shifts, whereas one
      lemma over a lane index would leave the shift amount symbolic, which
      the bit-vector reasoning handles far less cheaply. */
  lemma LaneMatch0(s: seq<byte>, o: nat, c: byte, mask: bv64)
    requires o + 8 <= |s| && mask == Word(c, c, c, c, c, c, c, c)
    ensures Lanes(Load(s, o) ^ mask)[0] == 0 <==> s[o] == c
  {
  }

  lemma LaneMatch1(s: seq<byte>, o: nat, c: byte, mask: bv64)
    requires o + 8 <= |s| && mask == Word(c, c, c, c, c, c, c, c)
    ensures Lanes(Load(s, o) ^ mask)[1] == 0 <==> s[o + 1] == c
  {
  }

  lemma LaneMatch2(s: seq<byte>, o: nat, c: byte, mask: bv64)
    requires o + 8 <= |s| && mask == Word(c, c, c, c, c, c, c, c)
    ensures Lanes(Load(s, o) ^ mask)[2] == 0 <==> s[o + 2] == c
  {
  }

  lemma LaneMatch3(s: seq<byte>, o: nat, c: byte, mask: bv64)
    requires o + 8 <= |s| && mask == Word(c, c, c, c, c, c, c, c)
    ensures Lanes(Load(s, o) ^ mask)[3] == 0 <==> s[o + 3] == c
  {
  }

  lemma LaneMatch4(s: seq<byte>, o: nat, c: byte, mask: bv64)
    requires o + 8 <= |s| && mask == Word(c, c, c, c, c, c, c, c)
    ensures Lanes(Load(s, o) ^ mask)[4] == 0 <==> s[o + 4] == c
  {
  }

  lemma LaneMatch5(s: seq<byte>, o: nat, c: byte, mask: bv64)
    requires o + 8 <= |s| && mask == Word(c, c, c, c, c, c, c, c)
    ensures Lanes(Load(s, o) ^ mask)[5] == 0 <==> s[o + 5] == c
  {
  }

  lemma LaneMatch6(s: seq<byte>, o: nat, c: byte, mask: bv64)
    requires o + 8 <= |s| && mask == Word(c, c, c, c, c, c, c, c)
    ensures Lanes(Load(s, o) ^ mask)[6] == 0 <==> s[o + 6] == c
  {
  }

  lemma LaneMatch7(s: seq<byte>, o: nat, c: byte, mask: bv64)
    requires o + 8 <= |s| && mask == Word(c, c, c, c, c, c, c, c)
    ensures Lanes(Load(s, o) ^ mask)[7] == 0 <==> s[o + 7] == c
  {
  }

  lemma LanesAgree(l: seq<bv64>, s: seq<byte>, o: nat, c: byte)
    requires |l| == 8 && o + 8 <= |s|
    requires l[0] == 0 <==> s[o] == c
    requires l[1] == 0 <==> s[o + 1] == c
    requires l[2] == 0 <==> s[o + 2] == c
    requires l[3] == 0 <==> s[o + 3] == c
    requires l[4] == 0 <==> s[o + 4] == c
    requires l[5] == 0 <==> s[o + 5] == c
    requires l[6] == 0 <==> s[o + 6] == c
    requires l[7] == 0 <==> s[o + 7] == c
    ensures forall k :: 0 <= k < 8 ==> (l[k] == 0 <==> s[o + k] == c)
  {
  }

  /** A lane of `hay ^= needleMask` is zero exactly when the haystack byte
      under it is the byte sought. */
  lemma MatchLanes(s: seq<byte>, o: nat, c: byte, mask: bv64, hay: bv64)
    requires o + 8 <= |s| && mask == Word(c, c, c, c, c, c, c, c) && hay == Load(s, o) ^ mask
    ensures forall k :: 0 <= k < 8 ==> (Lanes(hay)[k] == 0 <==> s[o + k] == c)
  {
    LaneMatch0(s, o, c, mask);
    LaneMatch1(s, o, c, mask);
    LaneMatch2(s, o, c, mask);
    LaneMatch3(s, o, c, mask);
    LaneMatch4(s, o, c, mask);
    LaneMatch5(s, o, c, mask);
    LaneMatch6(s, o, c, mask);
    LaneMatch7(s, o, c, mask);
    LanesAgree(Lanes(Load(s, o) ^ mask), s, o, c);
  }

  // ---------------------------------------------------------------------
  // What the scanners compute

  /** The positions j in [lo, hi) with s[j] == c, ascending. */
  function Positions(s: seq<byte>, c: byte, lo: nat, hi: nat): seq<int>
    requires lo <= hi <= |s|
    decreases hi
  {
    if hi == lo then [] else Positions(s, c, lo, hi - 1) + (if s[hi - 1] == c then [hi - 1] else [])
  }

  /** Positions lists exactly the positions of `c` in [lo, hi), in
      strictly increasing order. */
  lemma {:induction false} PositionsSpec(s: seq<byte>, c: byte, lo: nat, hi: nat)
    requires lo <= hi <= |s|
    ensures forall x :: x in Positions(s, c, lo, hi) <==> lo <= x < hi && s[x] == c
    ensures StrictlyIncreasing(Positions(s, c, lo, hi))
    decreases hi
  {
    if hi > lo {
      PositionsSpec(s, c, lo, hi - 1);
      var init := Positions(s, c, lo, hi - 1);
      forall u | 0 <= u < |init|
        ensures init[u] < hi - 1
      {
        assert init[u] in init;
      }
    }
  }

  /** Scanning [lo, mid) and then [mid, hi) lists what scanning [lo, hi) does. */
  lemma {:induction false} PositionsSplit(s: seq<byte>, c: byte, lo: nat, mid: nat, hi: nat)
    requires lo <= mid <= hi <= |s|
    ensures Positions(s, c, lo, mid) + Positions(s, c, mid, hi) == Positions(s, c, lo, hi)
    decreases hi - mid
  {
    if hi > mid {
      PositionsSplit(s, c, lo, mid, hi - 1);
      var last: seq<int> := if s[hi - 1] == c then [hi - 1] else [];
      AppendAssoc(Positions(s, c, lo, mid), Positions(s, c, mid, hi - 1), last);
    }
  }

  /** The first position of `c` in `s`, or -1. */
  function ByteIndex(s: seq<byte>, c: byte): int {
    var ps := Positions(s, c, 0, |s|);
    if ps == [] then -1 else ps[0]
  }

  /** ByteIndex is -1 when `c` does not occur, and otherwise a position of
      `c` before which `c` does not occur. */
  lemma ByteIndexSpec(s: seq<byte>, c: byte)
    ensures var r := ByteIndex(s, c);
      (r == -1 <==> forall j :: 0 <= j < |s| ==> s[j] != c) &&
      (r != -1 ==> 0 <= r < |s| && s[r] == c && forall j :: 0 <= j < r ==> s[j] != c)
  {
    var ps := Positions(s, c, 0, |s|);
    assert ByteIndex(s, c) == if ps == [] then -1 else ps[0];
    PositionsSpec(s, c, 0, |s|);
    if ps != [] {
      assert ps[0] in ps;
      forall j | 0 <= j < ps[0]
        ensures s[j] != c
      {
        HeadLeast(ps, j);
      }
    } else {
      forall j | 0 <= j < |s|
        ensures s[j] != c
      {
        assert s[j] == c ==> j in ps;
      }
    }
  }

  /** ByteIndex is bytes.Index with the one-byte needle [c]. */
  lemma ByteIndexIsIndex(s: seq<byte>, c: byte)
    ensures ByteIndex(s, c) == Index(s, [c])
  {
    forall j | 0 <= j < |s|
      ensures Occurs(s, [c], j) <==> s[j] == c
    {
      assert s[j] == c ==> s[j..j + 1] == [c];
      assert s[j..j + 1][0] == s[j];
    }
    ByteIndexSpec(s, c);
  }

  /** Positions of the byte c are the occurrences of the one-byte needle
      [c]: the corrected mmFindALL and mmCount agree with every other
      find-all engine. */
  lemma PositionsAreOccurrences(s: seq<byte>, c: byte)
    ensures Positions(s, c, 0, |s|) == Occurrences(s, [c])
  {
    forall j
      ensures Occurs(s, [c], j) <==> 0 <= j < |s| && s[j] == c
    {
      if 0 <= j < |s| {
        assert s[j] == c ==> s[j..j + 1] == [c];
        assert s[j..j + 1][0] == s[j];
      }
    }
    PositionsSpec(s, c, 0, |s|);
    OccurrencesFromSpec(s, [c], 0);
    IncreasingUnique(Positions(s, c, 0, |s|), Occurrences(s, [c]));
  }

  /** mmFindALL as written: its tail restarts at the last full word, so the
      hits of that word are listed again when n is not a multiple of 8
      (unsafeMEMCHR.go:174-182). */
  function FindAllAsWritten(s: seq<byte>, c: byte): seq<int>
    requires 8 <= |s|
  {
    var lim := |s| - |s| % 8;
    Positions(s, c, 0, lim) + (if |s| % 8 != 0 then Positions(s, c, lim - 8, |s|) else [])
  }

  /** With nine bytes and `c` in the first, mmFindALL reports 0 twice. */
  lemma FindAllAsWrittenRepeats()
    ensures var s: seq<byte> := [1, 0, 0, 0, 0, 0, 0, 0, 0];
      FindAllAsWritten(s, 1) == [0, 0] && Positions(s, 1, 0, |s|) == [0]
  {
    var s: seq<byte> := [1, 0, 0, 0, 0, 0, 0, 0, 0];
    assert Positions(s, 1, 0, 1) == [0];
    assert Positions(s, 1, 0, 8) == [0];
    assert Positions(s, 1, 0, 9) == [0];
  }

  /** In general the as-written list is the correct one with the hits of
      the last full word listed a second time, so it is longer than the
      count by exactly that many. */
  lemma FindAllAsWrittenExtra(s: seq<byte>, c: byte)
    requires 8 <= |s| && |s| % 8 != 0
    ensures var lim := |s| - |s| % 8;
      FindAllAsWritten(s, c) == Positions(s, c, 0, lim) + Positions(s, c, lim - 8, lim) + Positions(s, c, lim, |s|) &&
      |FindAllAsWritten(s, c)| == |Positions(s, c, 0, |s|)| + |Positions(s, c, lim - 8, lim)|
  {
    var lim := |s| - |s| % 8;
    PositionsSplit(s, c, lim - 8, lim, |s|);
    PositionsSplit(s, c, 0, lim, |s|);
    AppendAssoc(Positions(s, c, 0, lim), Positions(s, c, lim - 8, lim), Positions(s, c, lim, |s|));
  }

  // ---------------------------------------------------------------------
  // The scanners

  /** The mask loop (unsafeMEMCHR.go:74-78). */
  method BuildNeedleMask(c: byte) returns (needleMask: bv64)
    ensures needleMask == NeedleMask(c)
  {
    var b := c as bv64;
    needleMask := 0;
    var i := 0;
    while i < 7
      invariant 0 <= i <= 7 && needleMask == Spread(b, i)
    {
      SpreadNext(b, i, needleMask);
      needleMask := (needleMask | b) << 8;
      i := i + 1;
    }
    needleMask := needleMask | b;
  }

  /** The word step of mmIndex at `o` (unsafeMEMCHR.go:83-92): the first
      lane holding `c`, or -1 when there is none. */
  method FirstLane(s: seq<byte>, c: byte, o: nat, needleMask: bv64) returns (idx: int)
    requires o + 8 <= |s| && needleMask == Word(c, c, c, c, c, c, c, c)
    ensures -1 <= idx < 8
    ensures idx != -1 ==> s[o + idx] == c
    ensures forall j :: o <= j < o + 8 && (idx == -1 || j < o + idx) ==> s[j] != c
  {
    var hay := Load(s, o) ^ needleMask;
    MatchLanes(s, o, c, needleMask, hay);
    if ZeroLaneTest(hay) != 0 {
      idx := FirstZeroLane(s, c, o, Lanes(hay));
      return idx;
    }
    NoHitsInWord(s, c, o, needleMask);
    PositionsSpec(s, c, o, o + 8);
    return -1;
  }

  /** The lane loop of mmIndex (unsafeMEMCHR.go:87-91), over the lanes of
      the masked word. */
  method FirstZeroLane(s: seq<byte>, c: byte, o: nat, lanes: seq<bv64>) returns (idx: int)
    requires |lanes| == 8 && o + 8 <= |s|
    requires forall k :: 0 <= k < 8 ==> (lanes[k] == 0 <==> s[o + k] == c)
    ensures -1 <= idx < 8
    ensures idx != -1 ==> s[o + idx] == c
    ensures forall j :: o <= j < o + 8 && (idx == -1 || j < o + idx) ==> s[j] != c
  {
    idx := 0;
    while idx < 8
      invariant 0 <= idx <= 8
      invariant forall j :: o <= j < o + idx ==> s[j] != c
    {
      if lanes[idx] == 0 {
        return idx;
      }
      idx := idx + 1;
    }
    return -1;
  }

  /** mmIndex (unsafeMEMCHR.go:50-112): the first position of the needle's
      last byte, or -1; -1 as well when the haystack is shorter than the
      needle. */
  method MmIndex(hayst: seq<byte>, pat: seq<byte>) returns (r: int)
    requires 1 <= |pat| && 8 <= |hayst|
    ensures r == if |hayst| < |pat| then -1 else ByteIndex(hayst, pat[|pat| - 1])
  {
    var c := pat[|pat| - 1];
    var n := |hayst|;
    var limIdx := n - n % 8;
    if n < |pat| {
      return -1;
    }
    ByteIndexSpec(hayst, c);
    var needleMask := BuildNeedleMask(c);
    NeedleMaskWord(c);
    ghost var words := n / 8;
    assert limIdx == 8 * words;
    var uint64Idx := 0;
    ghost var w := 0;
    while true
      invariant uint64Idx == 8 * w && w < words
      invariant forall j :: 0 <= j < uint64Idx ==> hayst[j] != c
      decreases limIdx - uint64Idx
    {
      var idx := FirstLane(hayst, c, uint64Idx, needleMask);
      if idx != -1 {
        return uint64Idx + idx;
      }
      uint64Idx := uint64Idx + 8;
      w := w + 1;
      if uint64Idx >= limIdx {
        break;
      }
    }
    if n % 8 != 0 {
      uint64Idx := uint64Idx - 8;
      while uint64Idx < n
        invariant limIdx - 8 <= uint64Idx <= n
        invariant forall j :: 0 <= j < uint64Idx ==> hayst[j] != c
      {
        if hayst[uint64Idx] == c {
          return uint64Idx;
        }
        uint64Idx := uint64Idx + 1;
      }
    }
    return -1;
  }

  /** The word step of mmFindALL at `o` (unsafeMEMCHR.go:157-166). */
  method AppendLanes(s: seq<byte>, c: byte, o: nat, needleMask: bv64, found0: seq<int>) returns (found: seq<int>)
    requires o + 8 <= |s| && needleMask == Word(c, c, c, c, c, c, c, c)
    ensures found == found0 + Positions(s, c, o, o + 8)
  {
    var hay := Load(s, o) ^ needleMask;
    MatchLanes(s, o, c, needleMask, hay);
    if ZeroLaneTest(hay) != 0 {
      found := AppendZeroLanes(s, c, o, Lanes(hay), found0);
    } else {
      NoHitsInWord(s, c, o, needleMask);
      found := found0;
    }
  }

  /** The lane loop of mmFindALL (unsafeMEMCHR.go:161-165). */
  method AppendZeroLanes(s: seq<byte>, c: byte, o: nat, lanes: seq<bv64>, found0: seq<int>) returns (found: seq<int>)
    requires |lanes| == 8 && o + 8 <= |s|
    requires forall k :: 0 <= k < 8 ==> (lanes[k] == 0 <==> s[o + k] == c)
    ensures found == found0 + Positions(s, c, o, o + 8)
  {
    found := found0;
    var idx := 0;
    while idx < 8
      invariant 0 <= idx <= 8
      invariant found == found0 + Positions(s, c, o, o + idx)
    {
      AppendAssoc(found0, Positions(s, c, o, o + idx), if s[o + idx] == c then [o + idx] else []);
      if lanes[idx] == 0 {
        found := found + [o + idx];
      }
      idx := idx + 1;
    }
  }

  /** A word that fails the word test holds no `c`. */
  lemma NoHitsInWord(s: seq<byte>, c: byte, o: nat, needleMask: bv64)
    requires o + 8 <= |s| && needleMask == Word(c, c, c, c, c, c, c, c)
    requires ZeroLaneTest(Load(s, o) ^ needleMask) == 0
    ensures Positions(s, c, o, o + 8) == []
  {
    PositionsSpec(s, c, o, o + 8);
    var ps := Positions(s, c, o, o + 8);
    if ps != [] {
      assert ps[0] in ps;
      MatchLanes(s, o, c, needleMask, Load(s, o) ^ needleMask);
      ZeroLaneDetected(Load(s, o) ^ needleMask, ps[0] - o);
    }
  }

  /** The byte-wise tail loop from `lo` to the end, appending. */
  method AppendTail(s: seq<byte>, c: byte, lo: nat, found0: seq<int>) returns (found: seq<int>)
    requires lo <= |s|
    ensures found == found0 + Positions(s, c, lo, |s|)
  {
    found := found0;
    var i := lo;
    while i < |s|
      invariant lo <= i <= |s|
      invariant found == found0 + Positions(s, c, lo, i)
    {
      AppendAssoc(found0, Positions(s, c, lo, i), if s[i] == c then [i] else []);
      if s[i] == c {
        found := found + [i];
      }
      i := i + 1;
    }
  }

  /** The word loop shared by mmFindALL's two versions: the positions in
      the full words [0, limIdx). */
  method AppendWords(s: seq<byte>, c: byte, needleMask: bv64) returns (found: seq<int>)
    requires 8 <= |s| && needleMask == NeedleMask(c)
    ensures found == Positions(s, c, 0, |s| - |s| % 8)
  {
    NeedleMaskWord(c);
    var limIdx := |s| - |s| % 8;
    ghost var words := |s| / 8;
    assert limIdx == 8 * words;
    found := [];
    var uint64Idx := 0;
    ghost var w := 0;
    while true
      invariant uint64Idx == 8 * w && w < words
      invariant found == Positions(s, c, 0, uint64Idx)
      decreases limIdx - uint64Idx
    {
      found := AppendLanes(s, c, uint64Idx, needleMask, found);
      PositionsSplit(s, c, 0, uint64Idx, uint64Idx + 8);
      uint64Idx := uint64Idx + 8;
      w := w + 1;
      if uint64Idx >= limIdx {
        break;
      }
    }
  }

  /** The full words of an n-byte haystack end at n - n%8, at least one
      word in. */
  lemma WordBounds(n: nat)
    requires 8 <= n
    ensures 8 <= n - n % 8 <= n
  {
  }

  /** mmFindALL (unsafeMEMCHR.go:121-184). */
  method MmFindAll(hayst: seq<byte>, pat: seq<byte>) returns (found: seq<int>)
    requires 1 <= |pat| && 8 <= |hayst|
    ensures found == if |hayst| < |pat| then [] else FindAllAsWritten(hayst, pat[|pat| - 1])
  {
    var c := pat[|pat| - 1];
    if |hayst| < |pat| {
      return [];
    }
    var needleMask := BuildNeedleMask(c);
    WordBounds(|hayst|);
    found := AppendWords(hayst, c, needleMask);
    if |hayst| % 8 != 0 {
      found := AppendTail(hayst, c, |hayst| - |hayst| % 8 - 8, found);
    } else {
      assert found + [] == found;
    }
  }

  /** mmFindALL with the tail restarted at the end of the last full word,
      as mmCount does: every position of `c`, once, ascending. */
  method MmFindAllFixed(hayst: seq<byte>, pat: seq<byte>) returns (found: seq<int>)
    requires 1 <= |pat| && 8 <= |hayst|
    ensures found == if |hayst| < |pat| then [] else Positions(hayst, pat[|pat| - 1], 0, |hayst|)
  {
    var c := pat[|pat| - 1];
    var n := |hayst|;
    if n < |pat| {
      return [];
    }
    var needleMask := BuildNeedleMask(c);
    found := AppendWords(hayst, c, needleMask);
    if n % 8 != 0 {
      found := AppendTail(hayst, c, n - n % 8, found);
      PositionsSplit(hayst, c, 0, n - n % 8, n);
    }
  }

  /** The word step of mmCount at `o` (unsafeMEMCHR.go:226-235). */
  method CountLanes(s: seq<byte>, c: byte, o: nat, needleMask: bv64, count0: nat) returns (count: nat)
    requires o + 8 <= |s| && needleMask == Word(c, c, c, c, c, c, c, c)
    ensures count == count0 + |Positions(s, c, o, o + 8)|
  {
    var hay := Load(s, o) ^ needleMask;
    MatchLanes(s, o, c, needleMask, hay);
    if ZeroLaneTest(hay) != 0 {
      count := CountZeroLanes(s, c, o, Lanes(hay), count0);
    } else {
      NoHitsInWord(s, c, o, needleMask);
      count := count0;
    }
  }

  /** The lane loop of mmCount (unsafeMEMCHR.go:230-234). */
  method CountZeroLanes(s: seq<byte>, c: byte, o: nat, lanes: seq<bv64>, count0: nat) returns (count: nat)
    requires |lanes| == 8 && o + 8 <= |s|
    requires forall k :: 0 <= k < 8 ==> (lanes[k] == 0 <==> s[o + k] == c)
    ensures count == count0 + |Positions(s, c, o, o + 8)|
  {
    count := count0;
    var idx := 0;
    while idx < 8
      invariant 0 <= idx <= 8
      invariant count == count0 + |Positions(s, c, o, o + idx)|
    {
      if lanes[idx] == 0 {
        count := count + 1;
      }
      idx := idx + 1;
    }
  }

  /** mmCount (unsafeMEMCHR.go:193-255): the number of positions of the
      needle's last byte; the tail restarts at n - n%8, so each position
      is counted once. */
  method MmCount(hayst: seq<byte>, pat: seq<byte>) returns (count: nat)
    requires 1 <= |pat| && 8 <= |hayst|
    ensures count == if |hayst| < |pat| then 0 else |Positions(hayst, pat[|pat| - 1], 0, |hayst|)|
  {
    var c := pat[|pat| - 1];
    var n := |hayst|;
    var limIdx := n - n % 8;
    if n < |pat| {
      return 0;
    }
    var needleMask := BuildNeedleMask(c);
    NeedleMaskWord(c);
    count := 0;
    ghost var words := n / 8;
    assert limIdx == 8 * words;
    var uint64Idx := 0;
    ghost var w := 0;
    while true
      invariant uint64Idx == 8 * w && w < words
      invariant count == |Positions(hayst, c, 0, uint64Idx)|
      decreases limIdx - uint64Idx
    {
      count := CountLanes(hayst, c, uint64Idx, needleMask, count);
      PositionsSplit(hayst, c, 0, uint64Idx, uint64Idx + 8);
      uint64Idx := uint64Idx + 8;
      w := w + 1;
      if uint64Idx >= limIdx {
        break;
      }
    }
    if n % 8 != 0 {
      uint64Idx := n - n % 8;
      while uint64Idx < n
        invariant limIdx <= uint64Idx <= n
        invariant count == |Positions(hayst, c, 0, uint64Idx)|
      {
        if hayst[uint64Idx] == c {
          count := count + 1;
        }
        uint64Idx := uint64Idx + 1;
      }
    }
  }
}
