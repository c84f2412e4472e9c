// The pair-hash engine of bh2search/search.go, a modification of Lecroq's
// Hash3 algorithm.
//
// The cursor i names the last byte of a window. The byte pair ending at i
// is hashed into a byte, and the jump table says how far the window may
// move before the pair could line up with a pair of the needle. Once the
// jump is zero, the window's last and first bytes are compared, and then
// pairs of bytes from both ends inward ("zigzag"), up to lim = ceil(m/2).

module PairHash {
  import opened Bytes
  import opened Zigzag

  /** The bucket of the byte pair (a, b): Go computes a + b<<2 in byte
      arithmetic, where both the shift and the sum wrap
      (bh2search/search.go:58, 62, 71). */
  function Hash(a: byte, b: byte): (h: int)
    ensures 0 <= h < Alphabet
  {
    (a + (b << 2)) as int
  }

  // ---------------------------------------------------------------------
  // The jump table

  /** jmpMap[h] once the stores for needle positions 1..i-1 are done: the
      default m-1, then m-1-t for each position t whose pair
      (needle[t-1], needle[t]) hashes to h, the last store winning. */
  function JumpUpTo(needle: seq<byte>, h: int, i: nat): (s: int)
    requires 1 <= i <= |needle|
    ensures |needle| - i <= s <= |needle| - 1
  {
    if i == 1 then |needle| - 1
    else if Hash(needle[i - 2], needle[i - 1]) == h then |needle| - i
    else JumpUpTo(needle, h, i - 1)
  }

  /** The finished entry jmpMap[h] (bh2search/search.go:53-63). */
  function Jump(needle: seq<byte>, h: int): (s: int)
    requires 1 <= |needle|
    ensures 0 <= s <= |needle| - 1
  {
    JumpUpTo(needle, h, |needle|)
  }

  lemma {:induction false} JumpUpToSpec(needle: seq<byte>, h: int, i: nat)
    requires 1 <= i <= |needle|
    ensures forall t :: 1 <= t < i && Hash(needle[t - 1], needle[t]) == h ==>
      JumpUpTo(needle, h, i) <= |needle| - 1 - t
    ensures var s := JumpUpTo(needle, h, i);
      s < |needle| - 1 ==> Hash(needle[|needle| - 2 - s], needle[|needle| - 1 - s]) == h
  {
    if i > 1 {
      JumpUpToSpec(needle, h, i - 1);
    }
  }

  /** The entry of bucket h is m-1 minus the largest position t in 1..m-1
      whose pair hashes to h, and m-1 when there is none: no position of
      the needle asks for a smaller jump, and a jump below m-1 is asked for
      by the position it names. */
  lemma JumpSpec(needle: seq<byte>, h: int)
    requires 1 <= |needle|
    ensures forall t :: 1 <= t < |needle| && Hash(needle[t - 1], needle[t]) == h ==>
      Jump(needle, h) <= |needle| - 1 - t
    ensures var s := Jump(needle, h);
      s < |needle| - 1 ==> Hash(needle[|needle| - 2 - s], needle[|needle| - 1 - s]) == h
  {
    JumpUpToSpec(needle, h, |needle|);
  }

  /** `jmpMap` holds the jump of every bucket. */
  ghost predicate IsJumpTable(needle: seq<byte>, jmpMap: seq<int>)
    requires 1 <= |needle|
  {
    |jmpMap| == Alphabet && forall h :: 0 <= h < Alphabet ==> jmpMap[h] == Jump(needle, h)
  }

  /** The table after the default fill and the stores for positions
      1..i-1, one array store at a time. */
  function TableUpTo(needle: seq<byte>, i: nat): (t: seq<int>)
    requires 1 <= i <= |needle|
    ensures |t| == Alphabet
  {
    if i == 1 then seq(Alphabet, _ => |needle| - 1)
    else TableUpTo(needle, i - 1)[Hash(needle[i - 2], needle[i - 1]) := |needle| - i]
  }

  lemma {:induction false} TableUpToEntry(needle: seq<byte>, i: nat, h: int)
    requires 1 <= i <= |needle| && 0 <= h < Alphabet
    ensures TableUpTo(needle, i)[h] == JumpUpTo(needle, h, i)
  {
    if i == 1 {
      assert TableUpTo(needle, 1) == seq(Alphabet, _ => |needle| - 1);
    } else {
      TableUpToEntry(needle, i - 1, h);
    }
  }

  lemma TableUpToFull(needle: seq<byte>)
    requires 1 <= |needle|
    ensures IsJumpTable(needle, TableUpTo(needle, |needle|))
  {
    forall h | 0 <= h < Alphabet
      ensures TableUpTo(needle, |needle|)[h] == Jump(needle, h)
    {
      TableUpToEntry(needle, |needle|, h);
    }
  }

  // ---------------------------------------------------------------------
  // One outer iteration

  /** The inner loop of bh2search/search.go:69-77: add the jump of the pair
      ending at the cursor while the jump is nonzero and the cursor stays
      below `limit` (n in the engine as written). */
  function Skip(hay: seq<byte>, needle: seq<byte>, i: nat, limit: int): (k: int)
    requires 2 <= |needle| && 1 <= i < |hay| && limit <= |hay|
    ensures i <= k
    decreases |hay| - i
  {
    var j := Jump(needle, Hash(hay[i - 1], hay[i]));
    if i + j < limit && j != 0 then Skip(hay, needle, i + j, limit) else i + j
  }

  /** The outcome of one outer iteration: the window end the inner loop
      stopped at, the next cursor, and whether a match was verified. */
  datatype Probe = Probe(window: int, next: int, hit: bool)

  /** One outer iteration of findALL and count as written
      (bh2search/search.go:153-182): skip while the cursor is below n;
      check a candidate only below n; after a front-side mismatch at j move
      to i+j, after a back-side one to i+1, and after a match to
      i+1+jmpMap[hay[i+1]], the table being indexed by the raw byte. */
  function Step(hay: seq<byte>, needle: seq<byte>, i: nat): (r: Probe)
    requires 2 <= |needle| <= i + 1 <= |hay|
    ensures i <= r.window < r.next
  {
    var m, mm1 := |needle|, |needle| - 1;
    var k := Skip(hay, needle, i, |hay| - 1);
    if k < |hay| - 1 && BothEqual(hay[k], needle[mm1], hay[k - mm1], needle[0]) then
      var j := Zig(hay, needle, k, 1);
      if j == Lim(m) then Probe(k, k + 1 + Jump(needle, hay[k + 1] as int), true)
      else if hay[k - mm1 + j] != needle[j] then Probe(k, k + j, false)
      else Probe(k, k + 1, false)
    else Probe(k, k + 1, false)
  }

  /** A verified match is a true occurrence of the needle, and its window
      ends before the haystack's last byte. */
  lemma StepSound(hay: seq<byte>, needle: seq<byte>, i: nat)
    requires 2 <= |needle| <= i + 1 <= |hay|
    ensures var r := Step(hay, needle, i);
      r.hit ==> r.window < |hay| - 1 && Occurs(hay, needle, r.window - (|needle| - 1))
  {
    var r := Step(hay, needle, i);
    if r.hit {
      CandidateExact(hay, needle, r.window);
    }
  }

  // ---------------------------------------------------------------------
  // The search loops as written

  /** What findFI's loop returns from cursor i while i < bound: bound is
      n+1 in findFI and n in findFI_CC. */
  function ScanFirst(hay: seq<byte>, needle: seq<byte>, i: nat, bound: int): int
    requires 2 <= |needle| <= i + 1 && bound <= |hay|
    decreases |hay| - i
  {
    if i >= bound then -1
    else
      var r := Step(hay, needle, i);
      if r.hit then r.window - (|needle| - 1) else ScanFirst(hay, needle, r.next, bound)
  }

  /** The matches findALL's loop appends from cursor i while i < bound. */
  function ScanAll(hay: seq<byte>, needle: seq<byte>, i: nat, bound: int): seq<int>
    requires 2 <= |needle| <= i + 1 && bound <= |hay|
    decreases |hay| - i
  {
    if i >= bound then []
    else
      var r := Step(hay, needle, i);
      if r.hit then [r.window - (|needle| - 1)] + ScanAll(hay, needle, r.next, bound)
      else ScanAll(hay, needle, r.next, bound)
  }

  /** The cursor findALL's loop leaves, which is where the trailing check
      looks. */
  function ScanEnd(hay: seq<byte>, needle: seq<byte>, i: nat, bound: int): (e: int)
    requires 2 <= |needle| <= i + 1 && bound <= |hay|
    ensures bound <= e && i <= e
    decreases |hay| - i
  {
    if i >= bound then i else ScanEnd(hay, needle, Step(hay, needle, i).next, bound)
  }

  /** The trailing check at the haystack's last byte
      (bh2search/search.go:100-109). */
  predicate TailHit(hay: seq<byte>, needle: seq<byte>, e: int)
    requires 2 <= |needle| <= e + 1
  {
    var mm1 := |needle| - 1;
    e == |hay| - 1 && BothEqual(hay[e], needle[mm1], hay[e - mm1], needle[0]) &&
    forall j :: 1 <= j < mm1 ==> hay[e - mm1 + j] == needle[j]
  }

  lemma TailHitExact(hay: seq<byte>, needle: seq<byte>, e: int)
    requires 2 <= |needle| <= e + 1
    ensures TailHit(hay, needle, e) <==> e == |hay| - 1 && Occurs(hay, needle, e - (|needle| - 1))
  {
    var mm1 := |needle| - 1;
    if e == |hay| - 1 {
      OccursBytes(hay, needle, e - mm1);
      if Occurs(hay, needle, e - mm1) {
        forall j | 1 <= j < mm1
          ensures hay[e - mm1 + j] == needle[j]
        {
          assert hay[e - mm1 + j] == needle[e - mm1 + j - (e - mm1)];
        }
        assert hay[e - mm1 + mm1] == needle[e - mm1 + mm1 - (e - mm1)];
      }
    }
  }

  /** The loop reports true occurrences that start at or after i-m+1, end
      before the last byte, and ascend strictly. */
  lemma {:induction false} ScanAllSound(hay: seq<byte>, needle: seq<byte>, i: nat, bound: int)
    requires 2 <= |needle| <= i + 1 && bound <= |hay|
    ensures var xs := ScanAll(hay, needle, i, bound);
      AllOccur(hay, needle, xs) && StrictlyIncreasing(xs) &&
      forall t :: 0 <= t < |xs| ==> i - (|needle| - 1) <= xs[t] && xs[t] + |needle| < |hay|
    decreases |hay| - i
  {
    if i < bound {
      var r := Step(hay, needle, i);
      StepSound(hay, needle, i);
      ScanAllSound(hay, needle, r.next, bound);
      ScanAllUnfold(hay, needle, i, bound, r, r.window - (|needle| - 1));
      SoundJoin(hay, needle, i - (|needle| - 1), r.window - (|needle| - 1), r.hit,
        ScanAll(hay, needle, r.next, bound), ScanAll(hay, needle, i, bound));
    }
  }

  lemma ScanAllUnfold(hay: seq<byte>, needle: seq<byte>, i: nat, bound: int, r: Probe, x: int)
    requires 2 <= |needle| <= i + 1 && i < bound <= |hay|
    requires r == Step(hay, needle, i) && x == r.window - (|needle| - 1)
    ensures r.hit ==>
      ScanAll(hay, needle, i, bound) == [x] + ScanAll(hay, needle, r.next, bound)
    ensures !r.hit ==>
      ScanAll(hay, needle, i, bound) == ScanAll(hay, needle, r.next, bound)
  {
  }

  /** A sound, ascending tail behind a reported occurrence, or behind
      nothing, is a sound, ascending list. */
  lemma SoundJoin(hay: seq<byte>, needle: seq<byte>, lo: int, x: int, hit: bool, rest: seq<int>, xs: seq<int>)
    requires hit ==> xs == [x] + rest && Occurs(hay, needle, x) && lo <= x && x + |needle| < |hay|
    requires !hit ==> xs == rest
    requires AllOccur(hay, needle, rest) && StrictlyIncreasing(rest)
    requires forall t :: 0 <= t < |rest| ==> x < rest[t] && lo <= rest[t] && rest[t] + |needle| < |hay|
    ensures AllOccur(hay, needle, xs) && StrictlyIncreasing(xs)
    ensures forall t :: 0 <= t < |xs| ==> lo <= xs[t] && xs[t] + |needle| < |hay|
  {
    if hit {
      assert forall t :: 1 <= t < |xs| ==> xs[t] == rest[t - 1];
    }
  }

  /** findFI's loop returns the first match findALL's loop appends: the
      two loops take the same steps up to the first match. */
  lemma {:induction false} ScanFirstIsHead(hay: seq<byte>, needle: seq<byte>, i: nat, bound: int)
    requires 2 <= |needle| <= i + 1 && bound <= |hay|
    ensures var xs := ScanAll(hay, needle, i, bound);
      ScanFirst(hay, needle, i, bound) == if xs == [] then -1 else xs[0]
    decreases |hay| - i
  {
    if i < bound {
      var r := Step(hay, needle, i);
      if !r.hit {
        ScanFirstIsHead(hay, needle, r.next, bound);
      }
    }
  }

  // ---------------------------------------------------------------------
  // The five routines as written

  /** findFI: the loop's first match, else the trailing check
      (bh2search/search.go:37-113). */
  function FindFirstAsWritten(hay: seq<byte>, needle: seq<byte>): int
    requires 2 <= |needle|
  {
    FirstResult(hay, needle, |hay|)
  }

  /** findALL and count (bh2search/search.go:115-197, 199-276). */
  function FindAllAsWritten(hay: seq<byte>, needle: seq<byte>): seq<int>
    requires 1 <= |needle|
  {
    if |needle| < 2 then [] else AllResult(hay, needle, |hay|)
  }

  /** findFI_CC on the chunk hay[si:startIdx+partLen], si =
      max(0, startIdx-(m-1)), with the breaker never firing
      (bh2search/search.go:278-375). */
  function FindFirstChunkAsWritten(haystack: seq<byte>, needle: seq<byte>, startIdx: nat, partLen: nat): int
    requires 2 <= |needle| && startIdx + partLen <= |haystack|
  {
    var r := FirstResult(Chunk(haystack, |needle|, startIdx, partLen), needle, |Chunk(haystack, |needle|, startIdx, partLen)| - 1);
    if r == -1 then -1 else ChunkStart(startIdx, |needle|) + r
  }

  /** findALL_CC (bh2search/search.go:377-473). */
  function FindAllChunkAsWritten(haystack: seq<byte>, needle: seq<byte>, startIdx: nat, partLen: nat): seq<int>
    requires 1 <= |needle| && startIdx + partLen <= |haystack|
  {
    if |needle| < 2 then []
    else
      var hay := Chunk(haystack, |needle|, startIdx, partLen);
      Shifted(AllResult(hay, needle, |hay| - 1), ChunkStart(startIdx, |needle|))
  }

  /** The loop from cursor m-1 with the given bound, then the trailing
      check, returning at the first match. */
  function FirstResult(hay: seq<byte>, needle: seq<byte>, bound: int): int
    requires 2 <= |needle| && bound <= |hay|
  {
    var mm1 := |needle| - 1;
    var r := ScanFirst(hay, needle, mm1, bound);
    if r != -1 then r
    else if TailHit(hay, needle, ScanEnd(hay, needle, mm1, bound)) then ScanEnd(hay, needle, mm1, bound) - mm1
    else -1
  }

  /** The loop from cursor m-1 with the given bound, then the trailing
      check, collecting every match. */
  function AllResult(hay: seq<byte>, needle: seq<byte>, bound: int): seq<int>
    requires 2 <= |needle| && bound <= |hay|
  {
    var mm1 := |needle| - 1;
    var e := ScanEnd(hay, needle, mm1, bound);
    ScanAll(hay, needle, mm1, bound) + (if TailHit(hay, needle, e) then [e - mm1] else [])
  }

  /** Every match the routines report is a true occurrence, the list
      ascends strictly, and findFI returns findALL's first element. With
      the loop bound n+1 the trailing check never fires, so no reported
      occurrence ends on the haystack's last byte. */
  lemma FindAllAsWrittenSpec(hay: seq<byte>, needle: seq<byte>)
    requires 2 <= |needle|
    ensures var xs := FindAllAsWritten(hay, needle);
      AllOccur(hay, needle, xs) && StrictlyIncreasing(xs) &&
      (forall t :: 0 <= t < |xs| ==> xs[t] + |needle| < |hay|) &&
      FindFirstAsWritten(hay, needle) == if xs == [] then -1 else xs[0]
  {
    var mm1 := |needle| - 1;
    var loop := ScanAll(hay, needle, mm1, |hay|);
    var e := ScanEnd(hay, needle, mm1, |hay|);
    assert !TailHit(hay, needle, e);
    assert FindAllAsWritten(hay, needle) == loop by {
      assert AllResult(hay, needle, |hay|) == loop + [];
    }
    ScanAllSound(hay, needle, mm1, |hay|);
    ScanFirstIsHead(hay, needle, mm1, |hay|);
  }

  /** A haystack equal to the needle is not found, nor is any occurrence
      ending on the last byte (bh2search/search.go:67, 73, 81). */
  lemma FindOfNeedleItself(x: seq<byte>)
    requires 2 <= |x|
    ensures Occurs(x, x, 0)
    ensures FindFirstAsWritten(x, x) == -1 && FindAllAsWritten(x, x) == []
  {
    var mm1 := |x| - 1;
    var r := Step(x, x, mm1);
    assert !r.hit;
    assert ScanAll(x, x, r.next, |x|) == [];
    assert ScanAll(x, x, mm1, |x|) == [];
    assert ScanFirst(x, x, mm1, |x|) == -1;
  }

  /** With its trailing check, the loop's list stays sound and ascending:
      the trailing match, when there is one, ends on the last byte, after
      every match of the loop. */
  lemma AllResultSound(hay: seq<byte>, needle: seq<byte>, bound: int)
    requires 2 <= |needle| && bound <= |hay|
    ensures var xs := AllResult(hay, needle, bound);
      AllOccur(hay, needle, xs) && StrictlyIncreasing(xs)
  {
    var loop := ScanAll(hay, needle, |needle| - 1, bound);
    var e := ScanEnd(hay, needle, |needle| - 1, bound);
    ScanAllSound(hay, needle, |needle| - 1, bound);
    JoinTail(hay, needle, loop, e);
    assert AllResult(hay, needle, bound) == loop + (if TailHit(hay, needle, e) then [e - (|needle| - 1)] else []);
  }

  lemma JoinTail(hay: seq<byte>, needle: seq<byte>, loop: seq<int>, e: int)
    requires 2 <= |needle| <= e + 1
    requires AllOccur(hay, needle, loop) && StrictlyIncreasing(loop)
    requires forall t :: 0 <= t < |loop| ==> loop[t] + |needle| < |hay|
    ensures var ys := loop + (if TailHit(hay, needle, e) then [e - (|needle| - 1)] else []);
      AllOccur(hay, needle, ys) && StrictlyIncreasing(ys)
  {
    if TailHit(hay, needle, e) {
      TailHitExact(hay, needle, e);
      AppendOccurrence(hay, needle, loop, e - (|needle| - 1));
    } else {
      assert loop + [] == loop;
    }
  }

  /** findALL_CC reports occurrences in the whole haystack, strictly
      ascending; its trailing check can fire, at the chunk's last byte. */
  lemma FindAllChunkAsWrittenSpec(haystack: seq<byte>, needle: seq<byte>, startIdx: nat, partLen: nat)
    requires 2 <= |needle| && startIdx + partLen <= |haystack|
    ensures var xs := FindAllChunkAsWritten(haystack, needle, startIdx, partLen);
      AllOccur(haystack, needle, xs) && StrictlyIncreasing(xs) &&
      forall t :: 0 <= t < |xs| ==>
        ChunkStart(startIdx, |needle|) <= xs[t] && xs[t] + |needle| <= startIdx + partLen
  {
    var hay := Chunk(haystack, |needle|, startIdx, partLen);
    var ys := AllResult(hay, needle, |hay| - 1);
    assert FindAllChunkAsWritten(haystack, needle, startIdx, partLen) == Shifted(ys, ChunkStart(startIdx, |needle|));
    AllResultSound(hay, needle, |hay| - 1);
    ShiftedChunkOccurs(haystack, needle, startIdx, partLen, ys);
  }

  /** For any loop bound, the first-match routine returns the head of the
      collecting routine's list, or -1 when that list is empty: both run
      the same loop and the same trailing check. */
  lemma FirstResultIsHead(hay: seq<byte>, needle: seq<byte>, bound: int)
    requires 2 <= |needle| && bound <= |hay|
    ensures var xs := AllResult(hay, needle, bound);
      FirstResult(hay, needle, bound) == (if xs == [] then -1 else xs[0]) &&
      (xs != [] ==> 0 <= xs[0])
  {
    var loop := ScanAll(hay, needle, |needle| - 1, bound);
    var e := ScanEnd(hay, needle, |needle| - 1, bound);
    var tail: seq<int> := if TailHit(hay, needle, e) then [e - (|needle| - 1)] else [];
    ScanFirstIsHead(hay, needle, |needle| - 1, bound);
    assert AllResult(hay, needle, bound) == loop + tail;
    if loop == [] {
      assert loop + tail == tail;
    } else {
      ScanAllSound(hay, needle, |needle| - 1, bound);
      assert 0 <= loop[0];
      assert (loop + tail)[0] == loop[0];
    }
  }

  /** findFI_CC returns -1 or a true occurrence in the whole haystack, and
      it is findALL_CC's first report on the same chunk: the two routines
      run the same loop with bound n and the same trailing check. */
  lemma FindFirstChunkAsWrittenSpec(haystack: seq<byte>, needle: seq<byte>, startIdx: nat, partLen: nat)
    requires 2 <= |needle| && startIdx + partLen <= |haystack|
    ensures var r := FindFirstChunkAsWritten(haystack, needle, startIdx, partLen);
      var xs := FindAllChunkAsWritten(haystack, needle, startIdx, partLen);
      (r == -1 || Occurs(haystack, needle, r)) &&
      r == if xs == [] then -1 else xs[0]
  {
    FirstChunkIsHead(haystack, needle, startIdx, partLen);
    FindAllChunkAsWrittenSpec(haystack, needle, startIdx, partLen);
    HeadOccurs(haystack, needle, FindAllChunkAsWritten(haystack, needle, startIdx, partLen),
      FindFirstChunkAsWritten(haystack, needle, startIdx, partLen));
  }

  lemma FirstChunkIsHead(haystack: seq<byte>, needle: seq<byte>, startIdx: nat, partLen: nat)
    requires 2 <= |needle| && startIdx + partLen <= |haystack|
    ensures var xs := FindAllChunkAsWritten(haystack, needle, startIdx, partLen);
      FindFirstChunkAsWritten(haystack, needle, startIdx, partLen) == if xs == [] then -1 else xs[0]
  {
    var hay := Chunk(haystack, |needle|, startIdx, partLen);
    var si := ChunkStart(startIdx, |needle|);
    var ys := AllResult(hay, needle, |hay| - 1);
    var r := FirstResult(hay, needle, |hay| - 1);
    var xs := FindAllChunkAsWritten(haystack, needle, startIdx, partLen);
    var f := FindFirstChunkAsWritten(haystack, needle, startIdx, partLen);
    assert xs == Shifted(ys, si);
    assert f == if r == -1 then -1 else si + r;
    assert r == (if ys == [] then -1 else ys[0]) && (ys != [] ==> 0 <= ys[0]) by {
      FirstResultIsHead(hay, needle, |hay| - 1);
    }
    ShiftedHead(ys, si, r, xs, f);
  }

  /** The head of a list of occurrences is an occurrence. */
  lemma HeadOccurs(s: seq<byte>, p: seq<byte>, xs: seq<int>, r: int)
    requires AllOccur(s, p, xs) && r == (if xs == [] then -1 else xs[0])
    ensures r == -1 || Occurs(s, p, r)
  {
  }

  /** Moving a list of offsets moves its head, and -1 still stands for an
      empty list when the head is not negative. */
  lemma ShiftedHead(ys: seq<int>, d: nat, r: int, xs: seq<int>, f: int)
    requires ys != [] ==> 0 <= ys[0]
    requires r == (if ys == [] then -1 else ys[0]) && xs == Shifted(ys, d)
    requires f == if r == -1 then -1 else d + r
    ensures f == if xs == [] then -1 else xs[0]
  {
  }

  // ---------------------------------------------------------------------
  // Inputs on which the routines as written miss occurrences

  /** After a front-side mismatch at j the cursor moves to i+j, past an
      occurrence: findFI does not find [0,0,1,1,1] at offset 1 of
      [0,0,0,1,1,1,0], although it ends before the last byte. */
  lemma LeadingJumpSkipsOccurrence()
    ensures Occurs([0, 0, 0, 1, 1, 1, 0], [0, 0, 1, 1, 1], 1)
    ensures FindFirstAsWritten([0, 0, 0, 1, 1, 1, 0], [0, 0, 1, 1, 1]) == -1
  {
    var hay: seq<byte> := [0, 0, 0, 1, 1, 1, 0];
    var needle: seq<byte> := [0, 0, 1, 1, 1];
    assert hay[1..6] == needle;
    assert Jump(needle, Hash(1, 1)) == 0;
    assert Jump(needle, Hash(1, 0)) == 4;
    assert Skip(hay, needle, 4, 6) == 4;
    assert Zig(hay, needle, 4, 1) == 2;
    assert Step(hay, needle, 4) == Probe(4, 6, false);
    assert Skip(hay, needle, 6, 6) == 10;
    assert Step(hay, needle, 6) == Probe(10, 11, false);
    assert ScanFirst(hay, needle, 4, 7) == -1;
    assert ScanEnd(hay, needle, 4, 7) == 11;
  }

  /** After a match the jump is looked up by the raw byte hay[i+1] rather
      than by a pair, past an overlapping occurrence: findALL reports only
      0 for [1,1] in [1,1,1,0], although 1 ends before the last byte. */
  lemma RawByteJumpSkipsOccurrence()
    ensures Occurrences([1, 1, 1, 0], [1, 1]) == [0, 1]
    ensures FindAllAsWritten([1, 1, 1, 0], [1, 1]) == [0]
  {
    var hay: seq<byte> := [1, 1, 1, 0];
    var needle: seq<byte> := [1, 1];
    assert hay[0..2] == needle && hay[1..3] == needle && hay[2..4][1] != needle[1];
    assert OccurrencesFrom(hay, needle, 2) == [];
    assert Jump(needle, Hash(1, 1)) == 0;
    assert Jump(needle, hay[2] as int) == 1;
    assert Jump(needle, Hash(1, 0)) == 1;
    assert Step(hay, needle, 1) == Probe(1, 3, true);
    assert Step(hay, needle, 3) == Probe(4, 5, false);
    assert ScanAll(hay, needle, 5, 4) == [];
    assert ScanAll(hay, needle, 1, 4) == [0];
    assert ScanEnd(hay, needle, 1, 4) == 5;
  }

  /** findALL_CC sees a window ending on the chunk's last byte only when
      the cursor arrives there exactly; a jump landing on it ends the loop
      without the trailing test: [1,2,3] at offset 1 of [0,1,2,3] is missed. */
  lemma ChunkEndSkipped()
    ensures Occurs([0, 1, 2, 3], [1, 2, 3], 1)
    ensures FindAllChunkAsWritten([0, 1, 2, 3], [1, 2, 3], 0, 4) == []
  {
    var hay: seq<byte> := [0, 1, 2, 3];
    var needle: seq<byte> := [1, 2, 3];
    assert hay[1..4] == needle;
    assert Chunk(hay, 3, 0, 4) == hay;
    assert Jump(needle, Hash(1, 2)) == 1;
    assert Skip(hay, needle, 2, 3) == 3;
    assert Step(hay, needle, 2) == Probe(3, 4, false);
    assert ScanAll(hay, needle, 2, 3) == [];
    assert ScanEnd(hay, needle, 2, 3) == 4;
  }

  // ---------------------------------------------------------------------
  // The corrected engine

  /** A pair of the needle ending t bytes before an occurrence's end bounds
      the jump of its bucket: a jump from window end i never moves past an
      occurrence ending at or after i. */
  lemma OccurrenceBoundsJump(hay: seq<byte>, needle: seq<byte>, i: nat, x: int)
    requires 2 <= |needle| && 1 <= i < |hay|
    requires x + 1 <= i <= x + |needle| - 1
    ensures Occurs(hay, needle, x) ==>
      Jump(needle, Hash(hay[i - 1], hay[i])) <= x + |needle| - 1 - i
  {
    if Occurs(hay, needle, x) {
      var t := i - x;
      OccursBytes(hay, needle, x);
      assert hay[x + t] == needle[x + t - x] && hay[x + t - 1] == needle[x + t - 1 - x];
      JumpSpec(needle, Hash(hay[i - 1], hay[i]));
      assert 1 <= t < |needle| && Hash(needle[t - 1], needle[t]) == Hash(hay[i - 1], hay[i]);
    }
  }

  /** No occurrence ends at a window end the inner loop jumps over. */
  lemma {:induction false} SkipSafe(hay: seq<byte>, needle: seq<byte>, i: nat, limit: int)
    requires 2 <= |needle| <= i + 1 <= |hay| && limit <= |hay|
    ensures forall x :: i - (|needle| - 1) <= x < Skip(hay, needle, i, limit) - (|needle| - 1) ==>
      !Occurs(hay, needle, x)
    decreases |hay| - i
  {
    var mm1 := |needle| - 1;
    var j := Jump(needle, Hash(hay[i - 1], hay[i]));
    forall x | i - mm1 <= x < i + j - mm1
      ensures !Occurs(hay, needle, x)
    {
      OccurrenceBoundsJump(hay, needle, i, x);
    }
    if i + j < limit && j != 0 {
      SkipSafe(hay, needle, i + j, limit);
    }
  }

  /** One outer iteration as evidently intended: skip and check windows up
      to and including the one ending on the last byte, and move on by one
      byte after every candidate, matched or not. */
  function StepFixed(hay: seq<byte>, needle: seq<byte>, i: nat): (r: Probe)
    requires 2 <= |needle| <= i + 1 <= |hay|
    ensures i <= r.window && r.next == r.window + 1
  {
    var k := Skip(hay, needle, i, |hay|);
    Probe(k, k + 1, k < |hay| && Candidate(hay, needle, k))
  }

  function ScanFirstFixed(hay: seq<byte>, needle: seq<byte>, i: nat): int
    requires 2 <= |needle| <= i + 1
    decreases |hay| - i
  {
    if i >= |hay| then -1
    else
      var r := StepFixed(hay, needle, i);
      if r.hit then r.window - (|needle| - 1) else ScanFirstFixed(hay, needle, r.next)
  }

  function ScanAllFixed(hay: seq<byte>, needle: seq<byte>, i: nat): seq<int>
    requires 2 <= |needle| <= i + 1
    decreases |hay| - i
  {
    if i >= |hay| then []
    else
      var r := StepFixed(hay, needle, i);
      if r.hit then [r.window - (|needle| - 1)] + ScanAllFixed(hay, needle, r.next)
      else ScanAllFixed(hay, needle, r.next)
  }

  lemma ScanAllFixedUnfold(hay: seq<byte>, needle: seq<byte>, i: nat, r: Probe, x: int)
    requires 2 <= |needle| <= i + 1 <= |hay|
    requires r == StepFixed(hay, needle, i) && x == r.window - (|needle| - 1)
    ensures r.hit ==>
      ScanAllFixed(hay, needle, i) == [x] + ScanAllFixed(hay, needle, r.next)
    ensures !r.hit ==>
      ScanAllFixed(hay, needle, i) == ScanAllFixed(hay, needle, r.next)
  {
    var rest := ScanAllFixed(hay, needle, r.next);
    assert ScanAllFixed(hay, needle, i) == if r.hit then [x] + rest else rest;
  }

  /** The occurrences a corrected loop at window end i has still to
      report: those starting at or after i-m+1. */
  ghost function Pending(hay: seq<byte>, needle: seq<byte>, i: nat): seq<int>
    requires 1 <= |needle| <= i + 1
  {
    OccurrencesFrom(hay, needle, i - (|needle| - 1))
  }

  /** The same step on the occurrences still to be reported. */
  lemma FixedOccStep(hay: seq<byte>, needle: seq<byte>, i: nat, r: Probe, acc: seq<int>, total: seq<int>)
    requires 2 <= |needle| <= i + 1 <= |hay|
    requires r == StepFixed(hay, needle, i)
    requires acc + Pending(hay, needle, i) == total
    ensures r.hit ==> (acc + [r.window - (|needle| - 1)]) + Pending(hay, needle, r.next) == total
    ensures !r.hit ==> acc + Pending(hay, needle, r.next) == total
  {
    var x: nat := r.window - (|needle| - 1);
    FixedStepExact(hay, needle, i, r, x);
    AccStep(acc, x, r.hit, Pending(hay, needle, i), Pending(hay, needle, r.next), total);
  }

  /** The windows the corrected step skips hold no occurrence. */
  lemma StepFixedSkip(hay: seq<byte>, needle: seq<byte>, i: nat, r: Probe)
    requires 2 <= |needle| <= i + 1 <= |hay|
    requires r == StepFixed(hay, needle, i)
    ensures OccurrencesFrom(hay, needle, i - (|needle| - 1)) == OccurrencesFrom(hay, needle, r.window - (|needle| - 1))
  {
    SkipNoOccurrence(hay, needle, i, r.window);
  }

  lemma SkipNoOccurrence(hay: seq<byte>, needle: seq<byte>, i: nat, k: int)
    requires 2 <= |needle| <= i + 1 <= |hay|
    requires k == Skip(hay, needle, i, |hay|)
    ensures OccurrencesFrom(hay, needle, i - (|needle| - 1)) == OccurrencesFrom(hay, needle, k - (|needle| - 1))
  {
    SkipSafe(hay, needle, i, |hay|);
    SkipGap(hay, needle, i - (|needle| - 1), k - (|needle| - 1));
  }

  /** No occurrence in [a, b) leaves the list from a equal to the list from b. */
  lemma SkipGap(hay: seq<byte>, needle: seq<byte>, a: int, b: int)
    requires 0 <= a <= b
    requires forall x :: a <= x < b ==> !Occurs(hay, needle, x)
    ensures OccurrencesFrom(hay, needle, a) == OccurrencesFrom(hay, needle, b)
  {
    OccurrencesFromSkip(hay, needle, a, b);
  }

  /** The corrected step reports its window exactly when an occurrence
      ends there. */
  lemma StepFixedHit(hay: seq<byte>, needle: seq<byte>, i: nat, r: Probe)
    requires 2 <= |needle| <= i + 1 <= |hay|
    requires r == StepFixed(hay, needle, i)
    ensures r.hit == Occurs(hay, needle, r.window - (|needle| - 1))
  {
    if r.window < |hay| {
      CandidateExact(hay, needle, r.window);
    }
  }

  lemma ConsJoin(a: seq<int>, b: seq<int>, c: seq<int>, x: int, hit: bool)
    requires a == b && b == (if hit then [x] else []) + c
    ensures hit ==> a == [x] + c
    ensures !hit ==> a == c
  {
  }

  /** One corrected iteration accounts for every occurrence ending between
      its start and its window end. */
  lemma FixedStepExact(hay: seq<byte>, needle: seq<byte>, i: nat, r: Probe, x: nat)
    requires 2 <= |needle| <= i + 1 <= |hay|
    requires r == StepFixed(hay, needle, i) && x == r.window - (|needle| - 1)
    ensures r.hit ==>
      OccurrencesFrom(hay, needle, i - (|needle| - 1)) ==
      [x] + OccurrencesFrom(hay, needle, r.next - (|needle| - 1))
    ensures !r.hit ==>
      OccurrencesFrom(hay, needle, i - (|needle| - 1)) == OccurrencesFrom(hay, needle, r.next - (|needle| - 1))
  {
    StepFixedSkip(hay, needle, i, r);
    StepFixedHit(hay, needle, i, r);
    OccurrencesFromCons(hay, needle, x);
    var n: nat := r.next - (|needle| - 1);
    assert n == x + 1;
    ConsJoin(OccurrencesFrom(hay, needle, i - (|needle| - 1)), OccurrencesFrom(hay, needle, x),
      OccurrencesFrom(hay, needle, n), x, r.hit);
  }

  /** One corrected iteration extends an exact tail to an exact list. */
  lemma ExactJoin(hay: seq<byte>, needle: seq<byte>, i: nat, r: Probe, tailA: seq<int>, tailB: seq<int>)
    requires 2 <= |needle| <= i + 1 <= |hay|
    requires r == StepFixed(hay, needle, i)
    requires tailA == ScanAllFixed(hay, needle, r.next) && tailB == OccurrencesFrom(hay, needle, r.next - (|needle| - 1))
    requires tailA == tailB
    ensures ScanAllFixed(hay, needle, i) == OccurrencesFrom(hay, needle, i - (|needle| - 1))
  {
    var x: nat := r.window - (|needle| - 1);
    ScanAllFixedUnfold(hay, needle, i, r, x);
    FixedStepExact(hay, needle, i, r, x);
  }

  /** From window end i on, the corrected loop lists exactly the
      occurrences starting at or after i-m+1. */
  lemma {:induction false} ScanAllFixedExact(hay: seq<byte>, needle: seq<byte>, i: nat)
    requires 2 <= |needle| <= i + 1
    ensures ScanAllFixed(hay, needle, i) == OccurrencesFrom(hay, needle, i - (|needle| - 1))
    decreases |hay| - i
  {
    if i < |hay| {
      var r := StepFixed(hay, needle, i);
      ScanAllFixedExact(hay, needle, r.next);
      ExactJoin(hay, needle, i, r, ScanAllFixed(hay, needle, r.next), OccurrencesFrom(hay, needle, r.next - (|needle| - 1)));
    }
  }

  lemma {:induction false} ScanFirstFixedIsHead(hay: seq<byte>, needle: seq<byte>, i: nat)
    requires 2 <= |needle| <= i + 1
    ensures var xs := ScanAllFixed(hay, needle, i);
      ScanFirstFixed(hay, needle, i) == if xs == [] then -1 else xs[0]
    decreases |hay| - i
  {
    if i < |hay| {
      var r := StepFixed(hay, needle, i);
      if !r.hit {
        ScanFirstFixedIsHead(hay, needle, r.next);
      }
    }
  }

  /** findFI as evidently intended. */
  function FindFirstResult(hay: seq<byte>, needle: seq<byte>): int
    requires 2 <= |needle|
  {
    ScanFirstFixed(hay, needle, |needle| - 1)
  }

  /** findALL and count as evidently intended, keeping the m < 2 guard. */
  function FindAllResult(hay: seq<byte>, needle: seq<byte>): seq<int>
    requires 1 <= |needle|
  {
    if |needle| < 2 then [] else ScanAllFixed(hay, needle, |needle| - 1)
  }

  /** The corrected findALL lists every occurrence, overlapping ones and
      one ending on the last byte included, in ascending order. */
  lemma FindAllResultExact(hay: seq<byte>, needle: seq<byte>)
    requires 2 <= |needle|
    ensures FindAllResult(hay, needle) == Occurrences(hay, needle)
  {
    ScanAllFixedExact(hay, needle, |needle| - 1);
  }

  /** The corrected findFI is bytes.Index. */
  lemma FindFirstResultExact(hay: seq<byte>, needle: seq<byte>)
    requires 2 <= |needle|
    ensures FindFirstResult(hay, needle) == Index(hay, needle)
  {
    ScanAllFixedExact(hay, needle, |needle| - 1);
    ScanFirstFixedIsHead(hay, needle, |needle| - 1);
    OccurrencesFromHead(hay, needle, 0);
  }

  /** findFI_CC as evidently intended: the corrected search on the chunk,
      moved by the chunk's start. */
  function FindFirstChunkResult(haystack: seq<byte>, needle: seq<byte>, startIdx: nat, partLen: nat): int
    requires 2 <= |needle| && startIdx + partLen <= |haystack|
  {
    var r := FindFirstResult(Chunk(haystack, |needle|, startIdx, partLen), needle);
    if r == -1 then -1 else ChunkStart(startIdx, |needle|) + r
  }

  /** findALL_CC as evidently intended. */
  function FindAllChunkResult(haystack: seq<byte>, needle: seq<byte>, startIdx: nat, partLen: nat): seq<int>
    requires 1 <= |needle| && startIdx + partLen <= |haystack|
  {
    Shifted(FindAllResult(Chunk(haystack, |needle|, startIdx, partLen), needle), ChunkStart(startIdx, |needle|))
  }

  /** The corrected findALL_CC lists, in ascending order, exactly the
      occurrences in the whole haystack that lie inside the chunk
      haystack[si:startIdx+partLen]. */
  lemma FindAllChunkResultExact(haystack: seq<byte>, needle: seq<byte>, startIdx: nat, partLen: nat)
    requires 2 <= |needle| && startIdx + partLen <= |haystack|
    ensures var xs := FindAllChunkResult(haystack, needle, startIdx, partLen);
      AllOccur(haystack, needle, xs) && StrictlyIncreasing(xs) &&
      forall x :: ChunkStart(startIdx, |needle|) <= x && x + |needle| <= startIdx + partLen && Occurs(haystack, needle, x) ==>
        x in xs
  {
    FindAllResultExact(Chunk(haystack, |needle|, startIdx, partLen), needle);
    ChunkOccurrences(haystack, needle, startIdx, partLen);
  }

  /** The corrected findFI_CC returns the first occurrence in the chunk,
      as an offset into the whole haystack. */
  lemma FindFirstChunkResultExact(haystack: seq<byte>, needle: seq<byte>, startIdx: nat, partLen: nat)
    requires 2 <= |needle| && startIdx + partLen <= |haystack|
    ensures var r := Index(Chunk(haystack, |needle|, startIdx, partLen), needle);
      FindFirstChunkResult(haystack, needle, startIdx, partLen) ==
      if r == -1 then -1 else ChunkStart(startIdx, |needle|) + r
  {
    FindFirstResultExact(Chunk(haystack, |needle|, startIdx, partLen), needle);
  }

  // ---------------------------------------------------------------------
  // The routines

  lemma ScanFirstUnfold(hay: seq<byte>, needle: seq<byte>, i: nat, bound: int, r: Probe)
    requires 2 <= |needle| <= i + 1 && i < bound <= |hay|
    requires r == Step(hay, needle, i)
    ensures r.hit ==> ScanFirst(hay, needle, i, bound) == r.window - (|needle| - 1)
    ensures !r.hit ==> ScanFirst(hay, needle, i, bound) == ScanFirst(hay, needle, r.next, bound)
    ensures ScanEnd(hay, needle, i, bound) == ScanEnd(hay, needle, r.next, bound)
  {
  }

  lemma ScanFirstFixedUnfold(hay: seq<byte>, needle: seq<byte>, i: nat, r: Probe)
    requires 2 <= |needle| <= i + 1 <= |hay|
    requires r == StepFixed(hay, needle, i)
    ensures r.hit ==> ScanFirstFixed(hay, needle, i) == r.window - (|needle| - 1)
    ensures !r.hit ==> ScanFirstFixed(hay, needle, i) == ScanFirstFixed(hay, needle, r.next)
  {
  }

  /** The preprocessing of every routine: all buckets mm1, then the pair
      ending at needle position i gets m-1-i, later pairs overwriting
      earlier ones (bh2search/search.go:53-63). */
  method BuildJumpTable(needle: seq<byte>) returns (jmpMap: array<int>)
    requires 2 <= |needle|
    ensures fresh(jmpMap) && IsJumpTable(needle, jmpMap[..])
  {
    var m, mm1 := |needle|, |needle| - 1;
    jmpMap := new int[Alphabet];
    var i := 0;
    while i < Alphabet
      invariant 0 <= i <= Alphabet
      invariant forall h :: 0 <= h < i ==> jmpMap[h] == mm1
    {
      jmpMap[i] := mm1;
      i := i + 1;
    }
    assert jmpMap[..] == TableUpTo(needle, 1);
    jmpMap[Hash(needle[0], needle[1])] := m - 2;
    i := 2;
    while i < m
      invariant 2 <= i <= m
      invariant jmpMap[..] == TableUpTo(needle, i)
    {
      jmpMap[Hash(needle[i - 1], needle[i])] := mm1 - i;
      i := i + 1;
    }
    TableUpToFull(needle);
  }

  /** The inner skip loop (bh2search/search.go:68-77). */
  method SkipAhead(hay: seq<byte>, needle: seq<byte>, jmpMap: array<int>, i0: nat, limit: int) returns (i: nat)
    requires 2 <= |needle| && 1 <= i0 < |hay| && limit <= |hay|
    requires IsJumpTable(needle, jmpMap[..])
    ensures i == Skip(hay, needle, i0, limit)
  {
    i := i0;
    var j := 1;
    while j != 0
      invariant 0 <= j
      invariant j != 0 ==> 1 <= i < |hay| && Skip(hay, needle, i, limit) == Skip(hay, needle, i0, limit)
      invariant j == 0 ==> i == Skip(hay, needle, i0, limit)
      decreases |hay| - i, j
    {
      var h := Hash(hay[i - 1], hay[i]);
      j := jmpMap[h];
      assert j == Jump(needle, h);
      i := i + j;
      if i < limit {
        continue;
      }
      break;
    }
  }

  /** Step once the skip has stopped at a candidate window end k and the
      zigzag comparison has stopped at j. */
  lemma StepCandidate(hay: seq<byte>, needle: seq<byte>, i0: nat, k: int, j: int)
    requires 2 <= |needle| <= i0 + 1 <= |hay|
    requires k == Skip(hay, needle, i0, |hay| - 1) && k < |hay| - 1
    requires BothEqual(hay[k], needle[|needle| - 1], hay[k - (|needle| - 1)], needle[0])
    requires j == Zig(hay, needle, k, 1)
    ensures j == Lim(|needle|) ==> Step(hay, needle, i0) == Probe(k, k + 1 + Jump(needle, hay[k + 1] as int), true)
    ensures j != Lim(|needle|) && hay[k - (|needle| - 1) + j] != needle[j] ==> Step(hay, needle, i0) == Probe(k, k + j, false)
    ensures j != Lim(|needle|) && hay[k - (|needle| - 1) + j] == needle[j] ==> Step(hay, needle, i0) == Probe(k, k + 1, false)
  {
  }

  /** Step once the skip has stopped at a window end that is not a
      candidate. */
  lemma StepNoCandidate(hay: seq<byte>, needle: seq<byte>, i0: nat, k: int)
    requires 2 <= |needle| <= i0 + 1 <= |hay|
    requires k == Skip(hay, needle, i0, |hay| - 1)
    requires !(k < |hay| - 1 && BothEqual(hay[k], needle[|needle| - 1], hay[k - (|needle| - 1)], needle[0]))
    ensures Step(hay, needle, i0) == Probe(k, k + 1, false)
  {
  }

  /** One iteration of the outer loop as written: skip, test the
      candidate's two ends, compare inward from both sides, and choose the
      next cursor (bh2search/search.go:67-97). */
  method OuterStep(hay: seq<byte>, needle: seq<byte>, jmpMap: array<int>, i0: nat)
    returns (window: int, next: int, hit: bool)
    requires 2 <= |needle| <= i0 + 1 <= |hay|
    requires IsJumpTable(needle, jmpMap[..])
    ensures Probe(window, next, hit) == Step(hay, needle, i0)
  {
    var lim := Lim(|needle|);
    var i := SkipAhead(hay, needle, jmpMap, i0, |hay| - 1);
    var jmp := i + 1;
    hit := false;
    if i < |hay| - 1 && BothEqual(hay[i], needle[|needle| - 1], hay[i - (|needle| - 1)], needle[0]) {
      var j := 1;
      while j < lim
        invariant 1 <= j <= lim && jmp == i + 1
        invariant Zig(hay, needle, i, j) == Zig(hay, needle, i, 1)
      {
        if BothEqual(hay[i - (|needle| - 1) + j], needle[j], hay[i - j], needle[|needle| - 1 - j]) {
          j := j + 1;
          continue;
        }
        if hay[i - (|needle| - 1) + j] != needle[j] {
          jmp := i + j;
        }
        break;
      }
      StepCandidate(hay, needle, i0, i, j);
      if j == lim {
        hit := true;
        assert jmpMap[hay[jmp] as int] == Jump(needle, hay[jmp] as int);
        jmp := jmp + jmpMap[hay[jmp] as int];
      }
    } else {
      StepNoCandidate(hay, needle, i0, i);
    }
    return i, jmp, hit;
  }

  /** The trailing check at cursor i (bh2search/search.go:100-109). */
  method TailCheck(hay: seq<byte>, needle: seq<byte>, i: int) returns (hit: bool)
    requires 2 <= |needle| <= i + 1
    ensures hit == TailHit(hay, needle, i)
  {
    hit := false;
    if i == |hay| - 1 && BothEqual(hay[i], needle[|needle| - 1], hay[i - (|needle| - 1)], needle[0]) {
      var j := 1;
      while j < |needle| - 1
        invariant 1 <= j <= |needle| - 1
        invariant forall t :: 1 <= t < j ==> hay[i - (|needle| - 1) + t] == needle[t]
      {
        if hay[i - (|needle| - 1) + j] != needle[j] {
          break;
        }
        j := j + 1;
      }
      hit := j == |needle| - 1;
    }
  }

  /** The outer loop while the cursor is below `bound`, returning at the
      first match, then the trailing check. */
  method SearchFirst(hay: seq<byte>, needle: seq<byte>, jmpMap: array<int>, bound: int) returns (r: int)
    requires 2 <= |needle| && bound <= |hay|
    requires IsJumpTable(needle, jmpMap[..])
    ensures r == FirstResult(hay, needle, bound)
  {
    var i: nat := |needle| - 1;
    while i < bound
      invariant |needle| - 1 <= i
      invariant ScanFirst(hay, needle, i, bound) == ScanFirst(hay, needle, |needle| - 1, bound)
      invariant ScanEnd(hay, needle, i, bound) == ScanEnd(hay, needle, |needle| - 1, bound)
      decreases |hay| - i
    {
      var window, next, hit := OuterStep(hay, needle, jmpMap, i);
      ScanFirstUnfold(hay, needle, i, bound, Probe(window, next, hit));
      if hit {
        return window - (|needle| - 1);
      }
      i := next;
    }
    var tail := TailCheck(hay, needle, i);
    if tail {
      return i - (|needle| - 1);
    }
    return -1;
  }

  /** AllResult from what a loop that has left its bound has gathered. */
  lemma AllResultOf(hay: seq<byte>, needle: seq<byte>, bound: int, i: nat, acc: seq<int>, y: int)
    requires 2 <= |needle| <= i + 1 && bound <= i && bound <= |hay| && y == i - (|needle| - 1)
    requires acc + ScanAll(hay, needle, i, bound) == ScanAll(hay, needle, |needle| - 1, bound)
    requires ScanEnd(hay, needle, i, bound) == ScanEnd(hay, needle, |needle| - 1, bound)
    ensures AllResult(hay, needle, bound) == acc + if TailHit(hay, needle, i) then [y] else []
  {
    assert ScanAll(hay, needle, i, bound) == [] && ScanEnd(hay, needle, i, bound) == i;
    assert acc == ScanAll(hay, needle, |needle| - 1, bound) by {
      assert acc + [] == acc;
    }
  }

  /** The outer loop collecting every match, each added to `base`, then the
      trailing check. */
  method SearchAll(hay: seq<byte>, needle: seq<byte>, jmpMap: array<int>, bound: int, base: int)
    returns (found: seq<int>)
    requires 2 <= |needle| && bound <= |hay|
    requires IsJumpTable(needle, jmpMap[..])
    ensures found == Shifted(AllResult(hay, needle, bound), base)
  {
    found := [];
    ghost var acc: seq<int> := [];
    var i: nat := |needle| - 1;
    while i < bound
      invariant |needle| - 1 <= i
      invariant found == Shifted(acc, base)
      invariant acc + ScanAll(hay, needle, i, bound) == ScanAll(hay, needle, |needle| - 1, bound)
      invariant ScanEnd(hay, needle, i, bound) == ScanEnd(hay, needle, |needle| - 1, bound)
      decreases |hay| - i
    {
      var window, next, hit := OuterStep(hay, needle, jmpMap, i);
      var x := window - (|needle| - 1);
      ScanAllUnfold(hay, needle, i, bound, Probe(window, next, hit), x);
      ScanFirstUnfold(hay, needle, i, bound, Probe(window, next, hit));
      AccStep(acc, x, hit, ScanAll(hay, needle, i, bound), ScanAll(hay, needle, next, bound),
        ScanAll(hay, needle, |needle| - 1, bound));
      if hit {
        ShiftedSnoc(acc, x, base);
        found := found + [base + x];
        acc := acc + [x];
      }
      i := next;
    }
    var y := i - (|needle| - 1);
    AllResultOf(hay, needle, bound, i, acc, y);
    var tail := TailCheck(hay, needle, i);
    if tail {
      ShiftedSnoc(acc, y, base);
      found := found + [base + y];
    } else {
      assert acc + [] == acc;
    }
  }

  /** The outer loop counting the matches, then the trailing check. */
  method SearchCount(hay: seq<byte>, needle: seq<byte>, jmpMap: array<int>, bound: int)
    returns (count: nat)
    requires 2 <= |needle| && bound <= |hay|
    requires IsJumpTable(needle, jmpMap[..])
    ensures count == |AllResult(hay, needle, bound)|
  {
    count := 0;
    ghost var acc: seq<int> := [];
    var i: nat := |needle| - 1;
    while i < bound
      invariant |needle| - 1 <= i
      invariant count == |acc|
      invariant acc + ScanAll(hay, needle, i, bound) == ScanAll(hay, needle, |needle| - 1, bound)
      invariant ScanEnd(hay, needle, i, bound) == ScanEnd(hay, needle, |needle| - 1, bound)
      decreases |hay| - i
    {
      var window, next, hit := OuterStep(hay, needle, jmpMap, i);
      ghost var x := window - (|needle| - 1);
      ScanAllUnfold(hay, needle, i, bound, Probe(window, next, hit), x);
      ScanFirstUnfold(hay, needle, i, bound, Probe(window, next, hit));
      AccStep(acc, x, hit, ScanAll(hay, needle, i, bound), ScanAll(hay, needle, next, bound),
        ScanAll(hay, needle, |needle| - 1, bound));
      if hit {
        count := count + 1;
        acc := acc + [x];
      }
      i := next;
    }
    AllResultOf(hay, needle, bound, i, acc, i - (|needle| - 1));
    var tail := TailCheck(hay, needle, i);
    if tail {
      count := count + 1;
    }
  }

  /** findFI (bh2search/search.go:37-113). */
  method FindFirst(hay: seq<byte>, needle: seq<byte>) returns (r: int)
    requires 2 <= |needle|
    ensures r == FindFirstAsWritten(hay, needle)
  {
    var jmpMap := BuildJumpTable(needle);
    r := SearchFirst(hay, needle, jmpMap, |hay|);
  }

  /** findALL (bh2search/search.go:115-197). */
  method FindAll(hay: seq<byte>, needle: seq<byte>) returns (found: seq<int>)
    requires 1 <= |needle|
    ensures found == FindAllAsWritten(hay, needle)
  {
    if |needle| < 2 {
      return [];
    }
    var jmpMap := BuildJumpTable(needle);
    found := SearchAll(hay, needle, jmpMap, |hay|, 0);
    ShiftedZero(AllResult(hay, needle, |hay|));
  }

  /** count (bh2search/search.go:199-276). */
  method Count(hay: seq<byte>, needle: seq<byte>) returns (count: nat)
    requires 1 <= |needle|
    ensures count == |FindAllAsWritten(hay, needle)|
  {
    if |needle| < 2 {
      return 0;
    }
    var jmpMap := BuildJumpTable(needle);
    count := SearchCount(hay, needle, jmpMap, |hay|);
  }

  /** findFI_CC with a breaker that never fires
      (bh2search/search.go:278-375). */
  method FindFirstChunk(haystack: seq<byte>, needle: seq<byte>, startIdx: nat, partLen: nat) returns (r: int)
    requires 2 <= |needle| && startIdx + partLen <= |haystack|
    ensures r == FindFirstChunkAsWritten(haystack, needle, startIdx, partLen)
  {
    var si := ChunkStart(startIdx, |needle|);
    var hay := haystack[si..startIdx + partLen];
    assert hay == Chunk(haystack, |needle|, startIdx, partLen);
    var jmpMap := BuildJumpTable(needle);
    r := SearchFirst(hay, needle, jmpMap, |hay| - 1);
    if r != -1 {
      r := si + r;
    }
  }

  /** findALL_CC (bh2search/search.go:377-473). */
  method FindAllChunk(haystack: seq<byte>, needle: seq<byte>, startIdx: nat, partLen: nat) returns (found: seq<int>)
    requires 1 <= |needle| && startIdx + partLen <= |haystack|
    ensures found == FindAllChunkAsWritten(haystack, needle, startIdx, partLen)
  {
    if |needle| < 2 {
      return [];
    }
    var si := ChunkStart(startIdx, |needle|);
    var hay := haystack[si..startIdx + partLen];
    assert hay == Chunk(haystack, |needle|, startIdx, partLen);
    var jmpMap := BuildJumpTable(needle);
    found := SearchAll(hay, needle, jmpMap, |hay| - 1, si);
  }

  // ---------------------------------------------------------------------
  // The routines as evidently intended

  /** One iteration of the corrected outer loop: the skip may stop on the
      last byte, the candidate test covers it, and the cursor always moves
      on by one. */
  method OuterStepFixed(hay: seq<byte>, needle: seq<byte>, jmpMap: array<int>, i0: nat)
    returns (window: int, hit: bool)
    requires 2 <= |needle| <= i0 + 1 <= |hay|
    requires IsJumpTable(needle, jmpMap[..])
    ensures Probe(window, window + 1, hit) == StepFixed(hay, needle, i0)
  {
    var lim := Lim(|needle|);
    window := SkipAhead(hay, needle, jmpMap, i0, |hay|);
    hit := false;
    if window < |hay| && BothEqual(hay[window], needle[|needle| - 1], hay[window - (|needle| - 1)], needle[0]) {
      var j := 1;
      while j < lim
        invariant 1 <= j <= lim
        invariant Zig(hay, needle, window, j) == Zig(hay, needle, window, 1)
      {
        if !BothEqual(hay[window - (|needle| - 1) + j], needle[j], hay[window - j], needle[|needle| - 1 - j]) {
          break;
        }
        j := j + 1;
      }
      hit := j == lim;
    }
  }

  method SearchFirstFixed(hay: seq<byte>, needle: seq<byte>, jmpMap: array<int>) returns (r: int)
    requires 2 <= |needle|
    requires IsJumpTable(needle, jmpMap[..])
    ensures r == ScanFirstFixed(hay, needle, |needle| - 1)
  {
    var i: nat := |needle| - 1;
    while i < |hay|
      invariant |needle| - 1 <= i
      invariant ScanFirstFixed(hay, needle, i) == ScanFirstFixed(hay, needle, |needle| - 1)
      decreases |hay| - i
    {
      var window, hit := OuterStepFixed(hay, needle, jmpMap, i);
      ScanFirstFixedUnfold(hay, needle, i, Probe(window, window + 1, hit));
      if hit {
        return window - (|needle| - 1);
      }
      i := window + 1;
    }
    return -1;
  }

  /** One corrected outer iteration, stated as the step it takes on the
      occurrences still to be reported. */
  method NextFixed(hay: seq<byte>, needle: seq<byte>, jmpMap: array<int>, i: nat, ghost acc: seq<int>, ghost total: seq<int>)
    returns (window: int, hit: bool, ghost acc': seq<int>)
    requires 2 <= |needle| <= i + 1 <= |hay|
    requires IsJumpTable(needle, jmpMap[..])
    requires acc + Pending(hay, needle, i) == total
    ensures i <= window
    ensures acc' == if hit then acc + [window - (|needle| - 1)] else acc
    ensures acc' + Pending(hay, needle, window + 1) == total
  {
    window, hit := OuterStepFixed(hay, needle, jmpMap, i);
    ghost var r := StepFixed(hay, needle, i);
    assert r.window == window && r.next == window + 1 && r.hit == hit;
    FixedOccStep(hay, needle, i, r, acc, total);
    acc' := if hit then acc + [window - (|needle| - 1)] else acc;
  }

  /** The reported list, moved by `base`, follows the ghost list of
      occurrences through one step. */
  lemma FoundStep(acc: seq<int>, acc': seq<int>, found: seq<int>, x: int, base: int, hit: bool)
    requires found == Shifted(acc, base)
    requires acc' == if hit then acc + [x] else acc
    ensures hit ==> found + [base + x] == Shifted(acc', base)
    ensures !hit ==> found == Shifted(acc', base)
  {
    ShiftedSnoc(acc, x, base);
  }

  method SearchAllFixed(hay: seq<byte>, needle: seq<byte>, jmpMap: array<int>, base: int) returns (found: seq<int>)
    requires 2 <= |needle|
    requires IsJumpTable(needle, jmpMap[..])
    ensures found == Shifted(Occurrences(hay, needle), base)
  {
    found := [];
    ghost var acc: seq<int> := [];
    ghost var total := Occurrences(hay, needle);
    var i: nat := |needle| - 1;
    while i < |hay|
      invariant |needle| - 1 <= i
      invariant found == Shifted(acc, base)
      invariant acc + Pending(hay, needle, i) == total
      decreases |hay| - i
    {
      var window, hit, acc' := NextFixed(hay, needle, jmpMap, i, acc, total);
      var x := window - (|needle| - 1);
      FoundStep(acc, acc', found, x, base, hit);
      if hit {
        found := found + [base + x];
      }
      acc := acc';
      i := window + 1;
    }
    assert Pending(hay, needle, i) == [];
    assert acc + [] == acc;
  }

  method SearchCountFixed(hay: seq<byte>, needle: seq<byte>, jmpMap: array<int>) returns (count: nat)
    requires 2 <= |needle|
    requires IsJumpTable(needle, jmpMap[..])
    ensures count == |Occurrences(hay, needle)|
  {
    count := 0;
    ghost var acc: seq<int> := [];
    ghost var total := Occurrences(hay, needle);
    var i: nat := |needle| - 1;
    while i < |hay|
      invariant |needle| - 1 <= i
      invariant count == |acc|
      invariant acc + Pending(hay, needle, i) == total
      decreases |hay| - i
    {
      var window, hit, acc' := NextFixed(hay, needle, jmpMap, i, acc, total);
      if hit {
        count := count + 1;
      }
      acc := acc';
      i := window + 1;
    }
    assert acc + [] == acc;
  }

  /** findFI corrected: exactly bytes.Index. */
  method FindFirstFixed(hay: seq<byte>, needle: seq<byte>) returns (r: int)
    requires 2 <= |needle|
    ensures r == Index(hay, needle)
  {
    var jmpMap := BuildJumpTable(needle);
    r := SearchFirstFixed(hay, needle, jmpMap);
    FindFirstResultExact(hay, needle);
  }

  /** findALL corrected: every occurrence, in ascending order. */
  method FindAllFixed(hay: seq<byte>, needle: seq<byte>) returns (found: seq<int>)
    requires 1 <= |needle|
    ensures found == if |needle| < 2 then [] else Occurrences(hay, needle)
  {
    if |needle| < 2 {
      return [];
    }
    var jmpMap := BuildJumpTable(needle);
    found := SearchAllFixed(hay, needle, jmpMap, 0);
    ShiftedZero(Occurrences(hay, needle));
  }

  /** count corrected: the number of occurrences. */
  method CountFixed(hay: seq<byte>, needle: seq<byte>) returns (count: nat)
    requires 1 <= |needle|
    ensures count == if |needle| < 2 then 0 else |Occurrences(hay, needle)|
  {
    if |needle| < 2 {
      return 0;
    }
    var jmpMap := BuildJumpTable(needle);
    count := SearchCountFixed(hay, needle, jmpMap);
  }

  /** findFI_CC corrected: the first occurrence inside the chunk. */
  method FindFirstChunkFixed(haystack: seq<byte>, needle: seq<byte>, startIdx: nat, partLen: nat) returns (r: int)
    requires 2 <= |needle| && startIdx + partLen <= |haystack|
    ensures r == FindFirstChunkResult(haystack, needle, startIdx, partLen)
  {
    var si := ChunkStart(startIdx, |needle|);
    var hay := haystack[si..startIdx + partLen];
    assert hay == Chunk(haystack, |needle|, startIdx, partLen);
    var jmpMap := BuildJumpTable(needle);
    r := SearchFirstFixed(hay, needle, jmpMap);
    if r != -1 {
      r := si + r;
    }
  }

  /** findALL_CC corrected: every occurrence inside the chunk. */
  method FindAllChunkFixed(haystack: seq<byte>, needle: seq<byte>, startIdx: nat, partLen: nat) returns (found: seq<int>)
    requires 1 <= |needle| && startIdx + partLen <= |haystack|
    ensures found == FindAllChunkResult(haystack, needle, startIdx, partLen)
  {
    var si := ChunkStart(startIdx, |needle|);
    if |needle| < 2 {
      return [];
    }
    var hay := haystack[si..startIdx + partLen];
    assert hay == Chunk(haystack, |needle|, startIdx, partLen);
    var jmpMap := BuildJumpTable(needle);
    found := SearchAllFixed(hay, needle, jmpMap, si);
    FindAllResultExact(hay, needle);
  }
}
