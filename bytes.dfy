// Byte sequences, occurrences of a needle in a haystack, and the standard
// contracts of the library routines the search engines call (Go's
// bytes.Index, bytes.Equal and strings.HasPrefix).

module Bytes {

  type byte = bv8

  /** The byte values, as the engines' tables index them (ALPHABET is 256). */
  const Alphabet: nat := 256

  /** The byte whose value is `j`. */
  lemma ByteOf(j: nat) returns (c: byte)
    requires j < Alphabet
    ensures c as int == j
  {
    if j == 0 {
      c := 0;
    } else {
      c := ByteOf(j - 1);
      c := c + 1;
    }
  }

  lemma ByteIndexDistinct(c: byte, d: byte)
    requires c != d
    ensures c as int != d as int
  {
  }

  /** The needle `p` occurs in `s` at offset `k`. */
  predicate Occurs(s: seq<byte>, p: seq<byte>, k: int) {
    0 <= k && k + |p| <= |s| && s[k..k + |p|] == p
  }

  /** Occurrence, byte by byte. */
  lemma OccursBytes(s: seq<byte>, p: seq<byte>, k: int)
    ensures Occurs(s, p, k) <==>
      0 <= k && k + |p| <= |s| && forall j :: k <= j < k + |p| ==> s[j] == p[j - k]
  {
    if 0 <= k && k + |p| <= |s| {
      if forall j :: k <= j < k + |p| ==> s[j] == p[j - k] {
        assert s[k..k + |p|] == p by {
          forall t | 0 <= t < |p|
            ensures s[k..k + |p|][t] == p[t]
          {
            assert s[k + t] == p[k + t - k];
          }
        }
      }
      if Occurs(s, p, k) {
        forall j | k <= j < k + |p|
          ensures s[j] == p[j - k]
        {
          assert s[k..k + |p|][j - k] == s[j];
        }
      }
    }
  }

  /** Every offset in `xs` is an occurrence of `p` in `s`. */
  predicate AllOccur(s: seq<byte>, p: seq<byte>, xs: seq<int>) {
    forall t :: 0 <= t < |xs| ==> Occurs(s, p, xs[t])
  }

  predicate StrictlyIncreasing(xs: seq<int>) {
    forall t, u :: 0 <= t < u < |xs| ==> xs[t] < xs[u]
  }

  /** The head of a strictly increasing list is its least element. */
  lemma HeadLeast(xs: seq<int>, x: int)
    requires StrictlyIncreasing(xs)
    ensures x in xs ==> xs[0] <= x
  {
    if x in xs {
      var u :| 0 <= u < |xs| && xs[u] == x;
      if u > 0 {
        assert xs[0] < xs[u];
      }
    }
  }

  /** Past its head, a strictly increasing list holds exactly its values
      above the head. */
  lemma TailMembers(xs: seq<int>)
    requires StrictlyIncreasing(xs) && xs != []
    ensures forall x :: x in xs[1..] <==> x in xs && xs[0] < x
  {
    forall x | x in xs && xs[0] < x
      ensures x in xs[1..]
    {
      var a :| 0 <= a < |xs| && xs[a] == x;
      assert xs[1..][a - 1] == x;
    }
  }

  /** Two strictly increasing lists holding the same values are equal. */
  lemma {:induction false} IncreasingUnique(xs: seq<int>, ys: seq<int>)
    requires StrictlyIncreasing(xs) && StrictlyIncreasing(ys)
    requires forall x :: x in xs <==> x in ys
    ensures xs == ys
    decreases |xs|
  {
    assert xs != [] ==> xs[0] in xs && xs[0] in ys;
    assert ys != [] ==> ys[0] in ys && ys[0] in xs;
    if xs != [] && ys != [] {
      HeadLeast(ys, xs[0]);
      HeadLeast(xs, ys[0]);
      TailMembers(xs);
      TailMembers(ys);
      IncreasingUnique(xs[1..], ys[1..]);
      assert xs == [xs[0]] + xs[1..];
      assert ys == [ys[0]] + ys[1..];
    }
  }

  /** An occurrence past every offset of a sound, ascending list can be
      appended to it. */
  lemma AppendOccurrence(s: seq<byte>, p: seq<byte>, xs: seq<int>, y: int)
    requires AllOccur(s, p, xs) && StrictlyIncreasing(xs) && Occurs(s, p, y)
    requires forall t :: 0 <= t < |xs| ==> xs[t] < y
    ensures AllOccur(s, p, xs + [y]) && StrictlyIncreasing(xs + [y])
  {
    var ys := xs + [y];
    forall t | 0 <= t < |ys|
      ensures Occurs(s, p, ys[t])
    {
      if t < |xs| {
        assert ys[t] == xs[t];
      }
    }
    forall t, u | 0 <= t < u < |ys|
      ensures ys[t] < ys[u]
    {
      assert ys[t] == xs[t];
      if u < |xs| {
        assert ys[u] == xs[u];
      }
    }
  }

  /** Each offset of `xs` moved by `d`: chunk offsets made absolute. */
  function Shifted(xs: seq<int>, d: int): (r: seq<int>)
    ensures |r| == |xs| && forall t :: 0 <= t < |xs| ==> r[t] == xs[t] + d
  {
    if xs == [] then [] else [xs[0] + d] + Shifted(xs[1..], d)
  }

  lemma AppendAssoc(xs: seq<int>, ys: seq<int>, zs: seq<int>)
    ensures xs + (ys + zs) == (xs + ys) + zs
  {
  }

  lemma ShiftedZero(xs: seq<int>)
    ensures Shifted(xs, 0) == xs
  {
  }

  lemma ShiftedSnoc(xs: seq<int>, x: int, d: int)
    ensures Shifted(xs + [x], d) == Shifted(xs, d) + [d + x]
  {
    var l, r := Shifted(xs + [x], d), Shifted(xs, d) + [d + x];
    forall t | 0 <= t < |l|
      ensures l[t] == r[t]
    {
      if t < |xs| {
        assert (xs + [x])[t] == xs[t];
      }
    }
  }

  /** Moving every offset by `d` moves membership by `d`. */
  lemma ShiftedMembers(xs: seq<int>, d: int)
    ensures forall x :: x in Shifted(xs, d) <==> x - d in xs
  {
    var r := Shifted(xs, d);
    forall x | x in r
      ensures x - d in xs
    {
      var t :| 0 <= t < |r| && r[t] == x;
      assert xs[t] == x - d;
    }
    forall x | x - d in xs
      ensures x in r
    {
      var t :| 0 <= t < |xs| && xs[t] == x - d;
      assert r[t] == x;
    }
  }

  /** Moving every offset by `d` keeps the order. */
  lemma ShiftedIncreasing(xs: seq<int>, d: int)
    requires StrictlyIncreasing(xs)
    ensures StrictlyIncreasing(Shifted(xs, d))
  {
    var r := Shifted(xs, d);
    forall t, u | 0 <= t < u < |r|
      ensures r[t] < r[u]
    {
      assert xs[t] < xs[u];
    }
  }

  lemma ShiftedTwice(xs: seq<int>, a: int, b: int, c: int)
    requires a + b == c
    ensures Shifted(Shifted(xs, a), b) == Shifted(xs, c)
  {
    var l, r := Shifted(Shifted(xs, a), b), Shifted(xs, c);
    forall t | 0 <= t < |l|
      ensures l[t] == r[t]
    {
    }
  }

  /** Moving a list that is `xs` moved by `a` by a further `b` moves `xs`
      by `a + b`. */
  lemma ShiftedAgain(xs: seq<int>, ys: seq<int>, a: int, b: int, c: int)
    requires a + b == c && Shifted(xs, a) == ys
    ensures Shifted(ys, b) == Shifted(xs, c)
  {
    ShiftedTwice(xs, a, b, c);
  }

  /** One loop round of a collecting scan: the accumulated list and the
      rest still to come keep adding up to the whole. */
  lemma AccStep(acc: seq<int>, x: int, hit: bool, rest: seq<int>, tail: seq<int>, total: seq<int>)
    requires acc + rest == total
    requires hit ==> rest == [x] + tail
    requires !hit ==> rest == tail
    ensures (if hit then acc + [x] else acc) + tail == total
  {
    if hit {
      AppendAssoc(acc, [x], tail);
    }
  }

  /** A step that reports x (when hit) ahead of `rest`, seen through a
      shift by d, moves d + x onto the reports gathered so far. */
  lemma ShiftedAccStep(found: seq<int>, x: int, hit: bool, whole: seq<int>, rest: seq<int>, d: int)
    requires whole == (if hit then [x] else []) + rest
    ensures found + Shifted(whole, d) == (if hit then found + [d + x] else found) + Shifted(rest, d)
  {
    if hit {
      ShiftedCons(x, rest, d);
      AppendAssoc(found, [d + x], Shifted(rest, d));
    } else {
      assert whole == rest;
    }
  }

  lemma ShiftedCons(x: int, xs: seq<int>, d: int)
    ensures Shifted([x] + xs, d) == [d + x] + Shifted(xs, d)
  {
    assert ([x] + xs)[1..] == xs;
  }

  /** Where a chunk starting at `startIdx` begins once it is widened to the
      left by m-1 bytes so that an occurrence straddling the chunk boundary
      is seen: max(0, startIdx-(m-1)). */
  function ChunkStart(startIdx: nat, m: nat): (si: nat)
    requires 1 <= m
    ensures si <= startIdx
    ensures si == 0 || si == startIdx - (m - 1)
    ensures si == 0 ==> startIdx <= m - 1
  {
    if startIdx - (m - 1) < 0 then 0 else startIdx - (m - 1)
  }

  /** A slice of a slice is a slice of the whole. */
  lemma SubSlice(s: seq<byte>, lo: nat, hi: nat, a: nat, b: nat)
    requires lo <= hi <= |s| && a <= b <= hi - lo
    ensures s[lo..hi][a..b] == s[lo + a..lo + b]
  {
    var l, r := s[lo..hi][a..b], s[lo + a..lo + b];
    assert |l| == |r|;
    forall t | 0 <= t < |l|
      ensures l[t] == r[t]
    {
      assert l[t] == s[lo..hi][a + t];
    }
  }

  /** The part of the haystack a chunked search scans. */
  function Chunk(haystack: seq<byte>, m: nat, startIdx: nat, partLen: nat): seq<byte>
    requires 1 <= m && startIdx + partLen <= |haystack|
  {
    haystack[ChunkStart(startIdx, m)..startIdx + partLen]
  }

  /** An occurrence inside a chunk is an occurrence in the whole haystack at
      the chunk's start plus its offset. */
  lemma OccursInChunk(haystack: seq<byte>, p: seq<byte>, startIdx: nat, partLen: nat, x: int)
    requires 1 <= |p| && startIdx + partLen <= |haystack|
    ensures Occurs(Chunk(haystack, |p|, startIdx, partLen), p, x) ==>
      Occurs(haystack, p, ChunkStart(startIdx, |p|) + x)
  {
    var si := ChunkStart(startIdx, |p|);
    var hay := Chunk(haystack, |p|, startIdx, partLen);
    if Occurs(hay, p, x) {
      SubSlice(haystack, si, startIdx + partLen, x, x + |p|);
    }
  }

  /** An occurrence in the whole haystack that lies inside a chunk is an
      occurrence in the chunk, at the offset less the chunk's start. */
  lemma ChunkHasOccurrence(haystack: seq<byte>, p: seq<byte>, startIdx: nat, partLen: nat, x: int)
    requires 1 <= |p| && startIdx + partLen <= |haystack|
    requires ChunkStart(startIdx, |p|) <= x && x + |p| <= startIdx + partLen
    ensures Occurs(haystack, p, x) ==>
      Occurs(Chunk(haystack, |p|, startIdx, partLen), p, x - ChunkStart(startIdx, |p|))
  {
    var si := ChunkStart(startIdx, |p|);
    SubSlice(haystack, si, startIdx + partLen, x - si, x - si + |p|);
  }

  /** Offsets of occurrences inside a chunk, moved by the chunk's start,
      are occurrences in the whole haystack, in the same order. */
  lemma ShiftedChunkOccurs(haystack: seq<byte>, p: seq<byte>, startIdx: nat, partLen: nat, ys: seq<int>)
    requires 1 <= |p| && startIdx + partLen <= |haystack|
    requires AllOccur(Chunk(haystack, |p|, startIdx, partLen), p, ys) && StrictlyIncreasing(ys)
    ensures var xs := Shifted(ys, ChunkStart(startIdx, |p|));
      AllOccur(haystack, p, xs) && StrictlyIncreasing(xs) &&
      forall t :: 0 <= t < |xs| ==> ChunkStart(startIdx, |p|) <= xs[t] && xs[t] + |p| <= startIdx + partLen
  {
    var xs := Shifted(ys, ChunkStart(startIdx, |p|));
    forall t | 0 <= t < |xs|
      ensures Occurs(haystack, p, xs[t])
    {
      OccursInChunk(haystack, p, startIdx, partLen, ys[t]);
    }
  }

  /** The occurrences inside a chunk, moved by the chunk's start, are, in
      ascending order, exactly the occurrences in the whole haystack that
      lie inside haystack[si:startIdx+partLen]. */
  lemma ChunkOccurrences(haystack: seq<byte>, p: seq<byte>, startIdx: nat, partLen: nat)
    requires 1 <= |p| && startIdx + partLen <= |haystack|
    ensures var xs := Shifted(Occurrences(Chunk(haystack, |p|, startIdx, partLen), p), ChunkStart(startIdx, |p|));
      AllOccur(haystack, p, xs) && StrictlyIncreasing(xs) &&
      forall x :: ChunkStart(startIdx, |p|) <= x && x + |p| <= startIdx + partLen && Occurs(haystack, p, x) ==>
        x in xs
  {
    var si := ChunkStart(startIdx, |p|);
    var hay := Chunk(haystack, |p|, startIdx, partLen);
    var ys := Occurrences(hay, p);
    var xs := Shifted(ys, si);
    OccurrencesFromSpec(hay, p, 0);
    forall t | 0 <= t < |ys|
      ensures Occurs(hay, p, ys[t])
    {
      assert ys[t] in ys;
    }
    ShiftedChunkOccurs(haystack, p, startIdx, partLen, ys);
    ShiftedMembers(ys, si);
    forall x | si <= x && x + |p| <= startIdx + partLen && Occurs(haystack, p, x)
      ensures x in xs
    {
      ChunkHasOccurrence(haystack, p, startIdx, partLen, x);
    }
  }

  /** The contract of bytes.Index(s, p): the first offset at or after `k`
      at which `p` occurs in `s`, or -1 when there is none. */
  function IndexFrom(s: seq<byte>, p: seq<byte>, k: nat): (r: int)
    ensures r == -1 || (k <= r && Occurs(s, p, r))
    ensures forall j :: k <= j && (r == -1 || j < r) ==> !Occurs(s, p, j)
    decreases |s| - k
  {
    if k + |p| > |s| then -1
    else if s[k..k + |p|] == p then k
    else IndexFrom(s, p, k + 1)
  }

  /** bytes.Index(s, p). */
  function Index(s: seq<byte>, p: seq<byte>): (r: int)
    ensures r == -1 || Occurs(s, p, r)
    ensures r == -1 <==> forall j :: !Occurs(s, p, j)
    ensures forall j :: 0 <= j < r ==> !Occurs(s, p, j)
  {
    IndexFrom(s, p, 0)
  }

  /** All offsets at or after `k` where `p` occurs in `s`, ascending and
      overlapping: the reference answer for a find-all search. */
  function OccurrencesFrom(s: seq<byte>, p: seq<byte>, k: nat): seq<int>
    decreases |s| - k
  {
    if k + |p| > |s| then []
    else (if Occurs(s, p, k) then [k] else []) + OccurrencesFrom(s, p, k + 1)
  }

  function Occurrences(s: seq<byte>, p: seq<byte>): seq<int> {
    OccurrencesFrom(s, p, 0)
  }

  /** OccurrencesFrom lists exactly the occurrences at or after `k`, in
      strictly increasing order. */
  lemma {:induction false} OccurrencesFromSpec(s: seq<byte>, p: seq<byte>, k: nat)
    ensures StrictlyIncreasing(OccurrencesFrom(s, p, k))
    ensures forall x :: x in OccurrencesFrom(s, p, k) <==> k <= x && Occurs(s, p, x)
    decreases |s| - k
  {
    if k + |p| <= |s| {
      OccurrencesFromSpec(s, p, k + 1);
      var head := if Occurs(s, p, k) then [k] else [];
      var rest := OccurrencesFrom(s, p, k + 1);
      forall u | 0 <= u < |rest|
        ensures k < rest[u]
      {
        assert rest[u] in rest;
      }
      assert OccurrencesFrom(s, p, k) == head + rest;
    }
  }

  /** A strictly ascending list of occurrences at or after `k` is no longer
      than the list of all of them. */
  lemma {:induction false} SoundListShorter(s: seq<byte>, p: seq<byte>, xs: seq<int>, k: nat)
    requires AllOccur(s, p, xs) && StrictlyIncreasing(xs)
    requires forall t :: 0 <= t < |xs| ==> k <= xs[t]
    ensures |xs| <= |OccurrencesFrom(s, p, k)|
    decreases |s| - k
  {
    if xs != [] {
      assert Occurs(s, p, xs[0]);
      OccurrencesFromCons(s, p, k);
      if xs[0] == k {
        SoundListShorter(s, p, xs[1..], k + 1);
      } else {
        SoundListShorter(s, p, xs, k + 1);
      }
    }
  }

  /** Two lists that continue one head with equal tails are equal. */
  lemma SameTail(a: seq<int>, b: seq<int>, head: seq<int>, x: seq<int>, y: seq<int>)
    requires a == head + x && b == head + y && x == y
    ensures a == b
  {
  }

  /** One position of the occurrence list, whether or not a match still
      fits there. */
  lemma OccurrencesFromCons(s: seq<byte>, p: seq<byte>, k: nat)
    ensures OccurrencesFrom(s, p, k) == (if Occurs(s, p, k) then [k] else []) + OccurrencesFrom(s, p, k + 1)
  {
  }

  /** A stretch without occurrences adds nothing to the occurrence list. */
  lemma {:induction false} OccurrencesFromSkip(s: seq<byte>, p: seq<byte>, a: nat, b: nat)
    requires a <= b
    requires forall x :: a <= x < b ==> !Occurs(s, p, x)
    ensures OccurrencesFrom(s, p, a) == OccurrencesFrom(s, p, b)
    decreases b - a
  {
    if a < b && a + |p| <= |s| {
      assert OccurrencesFrom(s, p, a) == [] + OccurrencesFrom(s, p, a + 1);
      OccurrencesFromSkip(s, p, a + 1, b);
    }
  }

  /** The first element of the occurrence list is what bytes.Index finds. */
  lemma {:induction false} OccurrencesFromHead(s: seq<byte>, p: seq<byte>, k: nat)
    ensures var r := IndexFrom(s, p, k);
      if r == -1 then OccurrencesFrom(s, p, k) == []
      else OccurrencesFrom(s, p, k) == [r] + OccurrencesFrom(s, p, r + 1)
    decreases |s| - k
  {
    if k + |p| <= |s| {
      if s[k..k + |p|] == p {
        assert Occurs(s, p, k);
        assert OccurrencesFrom(s, p, k) == [k] + OccurrencesFrom(s, p, k + 1);
      } else {
        assert !Occurs(s, p, k);
        assert OccurrencesFrom(s, p, k) == [] + OccurrencesFrom(s, p, k + 1);
        assert IndexFrom(s, p, k) == IndexFrom(s, p, k + 1);
        OccurrencesFromHead(s, p, k + 1);
      }
    }
  }

  /** Searching a suffix of `s` finds occurrences of `s` shifted by the cut. */
  lemma OccursInSuffix(s: seq<byte>, p: seq<byte>, k: nat, j: int)
    requires k <= |s|
    ensures Occurs(s[k..], p, j) <==> j >= 0 && Occurs(s, p, k + j)
  {
    if 0 <= j && k + j + |p| <= |s| {
      assert s[k..][j..j + |p|] == s[k + j..k + j + |p|];
    }
  }

  /** bytes.Index on a suffix, translated back to the whole sequence. */
  lemma IndexOfSuffix(s: seq<byte>, p: seq<byte>, k: nat)
    requires k <= |s|
    ensures var r := Index(s[k..], p);
      (r == -1 ==> IndexFrom(s, p, k) == -1) && (r != -1 ==> IndexFrom(s, p, k) == k + r)
  {
    var r := Index(s[k..], p);
    var q := IndexFrom(s, p, k);
    forall j | 0 <= j
      ensures Occurs(s[k..], p, j) <==> Occurs(s, p, k + j)
    {
      OccursInSuffix(s, p, k, j);
    }
    if r == -1 {
      if q != -1 {
        OccursInSuffix(s, p, k, q - k);
      }
    } else {
      OccursInSuffix(s, p, k, r);
      if q != -1 && q < k + r {
        OccursInSuffix(s, p, k, q - k);
      }
    }
  }

  /** The occurrences a counting loop without a length guard still
      counts once its cursor is at `off`. */
  ghost function Left(hay: seq<byte>, needle: seq<byte>, off: nat): nat {
    |OccurrencesFrom(hay, needle, off)|
  }

  /** One iteration of a find-all loop, on the search result `idx` for the
      rest `s` of the haystack from `off`, every occurrence being `total`. */
  lemma FindStep(hay: seq<byte>, needle: seq<byte>, off: nat, s: seq<byte>, idx: int, found: seq<int>, total: seq<int>)
    requires 1 <= |needle| && off <= |hay| && s == hay[off..]
    requires idx == Index(s, needle)
    requires found + OccurrencesFrom(hay, needle, off) == total
    ensures idx == -1 ==> found == total
    ensures idx != -1 ==>
      0 <= idx && off + idx + 1 <= |hay| && s[idx + 1..] == hay[off + idx + 1..] &&
      (found + [off + idx]) + OccurrencesFrom(hay, needle, off + idx + 1) == total
  {
    IndexOfSuffix(hay, needle, off);
    OccurrencesFromHead(hay, needle, off);
    if idx != -1 {
      AppendAssoc(found, [off + idx], OccurrencesFrom(hay, needle, off + idx + 1));
    }
  }

  /** One iteration of a counting loop without a length guard. */
  lemma CountStepAll(hay: seq<byte>, needle: seq<byte>, off: nat, s: seq<byte>, idx: int)
    requires 1 <= |needle| && off <= |hay| && s == hay[off..]
    requires idx == Index(s, needle)
    ensures idx == -1 ==> Left(hay, needle, off) == 0
    ensures idx != -1 ==>
      0 <= idx && off + idx + 1 <= |hay| && s[idx + 1..] == hay[off + idx + 1..] &&
      Left(hay, needle, off) == 1 + Left(hay, needle, off + idx + 1)
  {
    IndexOfSuffix(hay, needle, off);
    OccurrencesFromHead(hay, needle, off);
  }

  /** bytes.Index on the rest `s` of the haystack from `off`, with what
      its answer means for a count without a length guard. */
  method IndexCounted(hay: seq<byte>, needle: seq<byte>, ghost off: nat, s: seq<byte>) returns (idx: int)
    requires 1 <= |needle| && off <= |hay| && s == hay[off..]
    ensures idx == -1 ==> Left(hay, needle, off) == 0
    ensures idx != -1 ==>
      0 <= idx && off + idx + 1 <= |hay| && s[idx + 1..] == hay[off + idx + 1..] &&
      Left(hay, needle, off) == 1 + Left(hay, needle, off + idx + 1)
  {
    idx := Index(s, needle);
    CountStepAll(hay, needle, off, s, idx);
  }

  /** bytes.Index on the rest `s` of the haystack from `off`, with what
      its answer means for the list of offsets found so far. */
  method IndexFound(hay: seq<byte>, needle: seq<byte>, off: nat, s: seq<byte>, ghost found: seq<int>, ghost total: seq<int>) returns (idx: int)
    requires 1 <= |needle| && off <= |hay| && s == hay[off..]
    requires found + OccurrencesFrom(hay, needle, off) == total
    ensures idx == -1 ==> found == total
    ensures idx != -1 ==>
      0 <= idx && off + idx + 1 <= |hay| && s[idx + 1..] == hay[off + idx + 1..] &&
      (found + [off + idx]) + OccurrencesFrom(hay, needle, off + idx + 1) == total
  {
    idx := Index(s, needle);
    FindStep(hay, needle, off, s, idx, found, total);
  }
}
