// The skip-table engine of bcjsearch/search.go: a bad-character table over
// single bytes with a look-ahead jump, in the manner of Sunday's quick
// search.
//
// The cursor i names the last byte of a window. Each outer iteration
// computes the look-ahead jump i+1+jmpMap[hay[i+1]], checks the window
// ending at i, and then, in most routines, keeps adding the shift of the
// byte under the cursor until it meets a byte whose shift is zero, which
// is the needle's last byte. findFI, findALL and count share one loop;
// findFI_CC and findALL_CC each have their own.

module SkipTable {
  import opened Bytes
  import opened Zigzag

  /** maximize (bcjsearch/search.go:33-38): the larger of its arguments. */
  function Maximize(a: int, j: int): (r: int)
    ensures a <= r && j <= r
    ensures r == a || r == j
  {
    if a > j then a else j
  }

  // ---------------------------------------------------------------------
  // The shift table

  /** jmpMap[c] once the stores for needle positions 0..i-1 are done: the
      default m, then m-1-t for each position t holding c, the last store
      winning. */
  function ShiftUpTo(needle: seq<byte>, c: byte, i: nat): (s: nat)
    requires i <= |needle|
    ensures |needle| - i <= s <= |needle|
  {
    if i == 0 then |needle|
    else if needle[i - 1] == c then |needle| - i
    else ShiftUpTo(needle, c, i - 1)
  }

  /** The finished entry jmpMap[c] (bcjsearch/search.go:57-63). */
  function Shift(needle: seq<byte>, c: byte): (s: nat)
    ensures s <= |needle|
  {
    ShiftUpTo(needle, c, |needle|)
  }

  lemma {:induction false} ShiftUpToSpec(needle: seq<byte>, c: byte, i: nat)
    requires i <= |needle|
    ensures var s := ShiftUpTo(needle, c, i);
      (s < |needle| ==> needle[|needle| - 1 - s] == c) &&
      forall t :: |needle| - s <= t < i ==> needle[t] != c
  {
    if i > 0 && needle[i - 1] != c {
      ShiftUpToSpec(needle, c, i - 1);
    }
  }

  /** The shift of a byte is m less one less its last position in the
      needle, and m for a byte the needle does not hold: no position after
      the one it names holds the byte, and it is zero exactly for the
      needle's last byte. */
  lemma ShiftSpec(needle: seq<byte>, c: byte)
    ensures var s := Shift(needle, c);
      (s < |needle| ==> needle[|needle| - 1 - s] == c) &&
      (forall t :: |needle| - s <= t < |needle| ==> needle[t] != c) &&
      (1 <= |needle| ==> (s == 0 <==> needle[|needle| - 1] == c))
  {
    ShiftUpToSpec(needle, c, |needle|);
  }

  /** `jmpMap` holds the shift of every byte. */
  ghost predicate IsShiftTable(needle: seq<byte>, jmpMap: seq<int>) {
    |jmpMap| == Alphabet && forall c: byte {:trigger Shift(needle, c)} :: jmpMap[c as int] == Shift(needle, c)
  }

  /** The table after the default fill and the stores for positions
      0..i-1, one array store at a time. */
  function TableUpTo(needle: seq<byte>, i: nat): (t: seq<int>)
    requires i <= |needle|
    ensures |t| == Alphabet
  {
    if i == 0 then seq(Alphabet, _ => |needle|)
    else TableUpTo(needle, i - 1)[needle[i - 1] as int := |needle| - i]
  }

  lemma {:induction false} TableUpToEntry(needle: seq<byte>, i: nat, c: byte)
    requires i <= |needle|
    ensures TableUpTo(needle, i)[c as int] == ShiftUpTo(needle, c, i)
  {
    if i == 0 {
      assert TableUpTo(needle, 0) == seq(Alphabet, _ => |needle|);
    } else {
      TableUpToEntry(needle, i - 1, c);
      if needle[i - 1] != c {
        ByteIndexDistinct(needle[i - 1], c);
      }
    }
  }

  lemma TableUpToFull(needle: seq<byte>)
    ensures IsShiftTable(needle, TableUpTo(needle, |needle|))
  {
    forall c: byte
      ensures TableUpTo(needle, |needle|)[c as int] == Shift(needle, c)
    {
      TableUpToEntry(needle, |needle|, c);
    }
  }

  // ---------------------------------------------------------------------
  // Jumps

  /** The look-ahead jump i+1+jmpMap[hay[i+1]] (bcjsearch/search.go:69). */
  function LookAhead(hay: seq<byte>, needle: seq<byte>, i: nat): (k: nat)
    requires i + 1 < |hay|
    ensures i < k
  {
    i + 1 + Shift(needle, hay[i + 1])
  }

  /** The advance loop of findFI, findALL, count and findFI_CC
      (bcjsearch/search.go:80-88): while the cursor is below n = |hay|-1,
      add the shift of the byte under it, stopping at a byte whose shift is
      zero. */
  function Advance(hay: seq<byte>, needle: seq<byte>, p: nat): (q: nat)
    ensures p <= q
    decreases |hay| - p
  {
    if p + 1 >= |hay| then p
    else if Shift(needle, hay[p]) == 0 then p
    else Advance(hay, needle, p + Shift(needle, hay[p]))
  }

  /** The advance loop of findALL_CC (bcjsearch/search.go:434-442), which
      leaves the cursor on the last position below n instead of moving it
      past n. It never goes further than the other advance loop. */
  function AdvanceCC(hay: seq<byte>, needle: seq<byte>, p: nat): (q: nat)
    ensures p <= q <= Advance(hay, needle, p)
    decreases |hay| - p
  {
    if p + 1 >= |hay| then p
    else if Shift(needle, hay[p]) == 0 then p
    else if p + Shift(needle, hay[p]) + 1 >= |hay| then p
    else AdvanceCC(hay, needle, p + Shift(needle, hay[p]))
  }

  /** No occurrence ends at the window ends p..p+s-1, s the shift of
      hay[p]: byte p would stand at one of the needle's last s positions,
      and none of them holds it. */
  lemma ShiftSafe(hay: seq<byte>, needle: seq<byte>, p: nat)
    requires p < |hay|
    ensures forall x :: p - (|needle| - 1) <= x < p - (|needle| - 1) + Shift(needle, hay[p]) ==>
      !Occurs(hay, needle, x)
  {
    ShiftSpec(needle, hay[p]);
    forall x | p - (|needle| - 1) <= x < p - (|needle| - 1) + Shift(needle, hay[p])
      ensures !Occurs(hay, needle, x)
    {
      OccursBytes(hay, needle, x);
    }
  }

  /** No occurrence ends at a window end the advance loop moves past. */
  lemma {:induction false} AdvanceSafe(hay: seq<byte>, needle: seq<byte>, p: nat)
    ensures forall x :: p - (|needle| - 1) <= x < Advance(hay, needle, p) - (|needle| - 1) ==>
      !Occurs(hay, needle, x)
    decreases |hay| - p
  {
    if p + 1 < |hay| && Shift(needle, hay[p]) != 0 {
      ShiftSafe(hay, needle, p);
      AdvanceSafe(hay, needle, p + Shift(needle, hay[p]));
    }
  }

  // ---------------------------------------------------------------------
  // One outer iteration

  /** The loops of the five routines: findFI, findALL and count share one
      (Plain); findFI_CC and findALL_CC have their own. */
  datatype Routine = Plain | FirstChunk | AllChunk

  /** The outcome of one outer iteration at window end i: the next cursor,
      and whether the window ending at i is reported. */
  datatype Move = Move(next: int, hit: bool)

  /** The window's last and first byte agree with the needle's. */
  predicate FirstLast(hay: seq<byte>, needle: seq<byte>, i: int)
    requires 1 <= |needle| <= i + 1 <= |hay|
  {
    BothEqual(hay[i], needle[|needle| - 1], hay[i - (|needle| - 1)], needle[0])
  }

  /** The branch-free test of three byte comparisons in findALL_CC's
      m = 3 case. */
  function AllEqual3(a: byte, b: byte, c: byte, d: byte, e: byte, f: byte): (r: bool)
    ensures r <==> a == b && c == d && e == f
  {
    (a ^ b) | (c ^ d) | (e ^ f) == 0
  }

  /** One outer iteration at window end i.
      Plain (bcjsearch/search.go:67-93): the zigzag loop has no break, so j
      always reaches lim and a window is reported once its last and first
      bytes agree; then the advance from the look-ahead jump.
      FirstChunk (bcjsearch/search.go:288-337): a mismatch on the back side
      advances from the look-ahead jump, one on the front side at j
      advances from i+j; a window whose ends disagree moves to the
      look-ahead jump.
      AllChunk (bcjsearch/search.go:394-448): for m = 2 and m = 3 every
      byte is compared and the cursor moves to the look-ahead jump;
      otherwise the full candidate test, then findALL_CC's advance. */
  function Step(v: Routine, hay: seq<byte>, needle: seq<byte>, i: nat): (r: Move)
    requires 1 <= |needle| <= i + 1 < |hay|
    ensures i < r.next
  {
    var m, mm1 := |needle|, |needle| - 1;
    var k := LookAhead(hay, needle, i);
    match v
    case Plain => Move(Advance(hay, needle, k), FirstLast(hay, needle, i))
    case FirstChunk =>
      if !FirstLast(hay, needle, i) then Move(k, false)
      else
        var j := Zig(hay, needle, i, 1);
        if j == Lim(m) then Move(k, true)
        else if hay[i - j] != needle[mm1 - j] then Move(Advance(hay, needle, k), false)
        else Move(Advance(hay, needle, i + j), false)
    case AllChunk =>
      if m == 2 then Move(k, FirstLast(hay, needle, i))
      else if m == 3 then Move(k, AllEqual3(hay[i], needle[mm1], hay[i - mm1], needle[0], hay[i - 1], needle[1]))
      else Move(AdvanceCC(hay, needle, k), Candidate(hay, needle, i))
  }

  /** What a reported window end certifies: for Plain only the two end
      bytes, for the chunk routines a full occurrence. */
  predicate Certified(v: Routine, hay: seq<byte>, needle: seq<byte>, e: int)
    requires 1 <= |needle| <= e + 1 <= |hay|
  {
    if v == Plain then FirstLast(hay, needle, e) else Occurs(hay, needle, e - (|needle| - 1))
  }

  /** Every routine reports a window an occurrence ends at, and a reported
      window is certified. */
  lemma StepHit(v: Routine, hay: seq<byte>, needle: seq<byte>, i: nat)
    requires 1 <= |needle| <= i + 1 < |hay|
    ensures Step(v, hay, needle, i).hit <==> Certified(v, hay, needle, i)
    ensures Occurs(hay, needle, i - (|needle| - 1)) ==> Certified(v, hay, needle, i)
  {
    var x := i - (|needle| - 1);
    CandidateExact(hay, needle, i);
    OccursBytes(hay, needle, x);
    if Occurs(hay, needle, x) {
      assert hay[x] == needle[x - x] && hay[x + |needle| - 1] == needle[x + |needle| - 1 - x];
    }
    if |needle| == 3 {
      assert Occurs(hay, needle, x) ==> hay[x + 1] == needle[x + 1 - x];
    }
  }

  /** findFI's loop and findALL_CC's loop move past no window end an
      occurrence ends at. */
  lemma StepSafe(v: Routine, hay: seq<byte>, needle: seq<byte>, i: nat)
    requires 1 <= |needle| <= i + 1 < |hay| && v != FirstChunk
    ensures forall x :: i + 1 - (|needle| - 1) <= x < Step(v, hay, needle, i).next - (|needle| - 1) ==>
      !Occurs(hay, needle, x)
  {
    ShiftSafe(hay, needle, i + 1);
    AdvanceSafe(hay, needle, LookAhead(hay, needle, i));
  }

  /** An occurrence ending at e certifies e for every routine. */
  lemma OccursCertified(v: Routine, hay: seq<byte>, needle: seq<byte>, e: int)
    requires 1 <= |needle| <= e + 1 <= |hay|
    ensures Occurs(hay, needle, e - (|needle| - 1)) ==> Certified(v, hay, needle, e)
  {
    var x := e - (|needle| - 1);
    OccursBytes(hay, needle, x);
    if Occurs(hay, needle, x) {
      assert hay[x] == needle[x - x] && hay[x + |needle| - 1] == needle[x + |needle| - 1 - x];
    }
  }

  /** For a needle of one or two bytes, agreeing end bytes are a full
      occurrence. */
  lemma FirstLastShort(hay: seq<byte>, needle: seq<byte>, e: int)
    requires 1 <= |needle| <= 2 && |needle| <= e + 1 <= |hay|
    ensures FirstLast(hay, needle, e) <==> Occurs(hay, needle, e - (|needle| - 1))
  {
    OccursCertified(Plain, hay, needle, e);
    OccursBytes(hay, needle, e - (|needle| - 1));
  }

  // ---------------------------------------------------------------------
  // The loops and the trailing checks

  /** The window ends a routine's loop reports from cursor i on, while the
      cursor is below n = |hay|-1. */
  function ScanAll(v: Routine, hay: seq<byte>, needle: seq<byte>, i: nat): seq<int>
    requires 1 <= |needle| <= i + 1
    decreases |hay| - i
  {
    if i + 1 >= |hay| then []
    else
      var r := Step(v, hay, needle, i);
      if r.hit then [i] + ScanAll(v, hay, needle, r.next) else ScanAll(v, hay, needle, r.next)
  }

  /** What a routine's loop returns from cursor i on when it stops at its
      first report: the window's start, or -1 once the cursor reaches n. */
  function ScanFirst(v: Routine, hay: seq<byte>, needle: seq<byte>, i: nat): int
    requires 1 <= |needle| <= i + 1
    decreases |hay| - i
  {
    if i + 1 >= |hay| then -1
    else
      var r := Step(v, hay, needle, i);
      if r.hit then i - (|needle| - 1) else ScanFirst(v, hay, needle, r.next)
  }

  /** The cursor a routine's loop leaves, where the trailing check looks. */
  function ScanEnd(v: Routine, hay: seq<byte>, needle: seq<byte>, i: nat): (e: nat)
    requires 1 <= |needle| <= i + 1
    ensures i <= e && |hay| <= e + 1
    decreases |hay| - i
  {
    if i + 1 >= |hay| then i else ScanEnd(v, hay, needle, Step(v, hay, needle, i).next)
  }

  /** The trailing check of findFI, findALL, count and findFI_CC
      (bcjsearch/search.go:95-104): the cursor is on n, the end bytes
      agree, and so do bytes 1..m-2. With m = 1 the trailing loop leaves j
      at 1, which is not m-1, and nothing is reported. */
  predicate TailHit(hay: seq<byte>, needle: seq<byte>, e: int)
    requires 1 <= |needle| <= e + 1
  {
    e + 1 == |hay| && FirstLast(hay, needle, e) && 2 <= |needle| &&
    forall j :: 1 <= j < |needle| - 1 ==> hay[e - (|needle| - 1) + j] == needle[j]
  }

  /** The trailing check of findALL_CC (bcjsearch/search.go:450-459): the
      cursor is on n, its byte is the needle's last, and bytes 0..m-2
      agree. */
  predicate TailHitCC(hay: seq<byte>, needle: seq<byte>, e: int)
    requires 1 <= |needle| <= e + 1
  {
    e + 1 == |hay| && hay[e] == needle[|needle| - 1] &&
    forall j :: 0 <= j < |needle| - 1 ==> hay[e - (|needle| - 1) + j] == needle[j]
  }

  predicate Tail(v: Routine, hay: seq<byte>, needle: seq<byte>, e: int)
    requires 1 <= |needle| <= e + 1
  {
    if v == AllChunk then TailHitCC(hay, needle, e) else TailHit(hay, needle, e)
  }

  /** findALL_CC's trailing check reports exactly an occurrence ending on
      the last byte; the other routines' check does so only for m >= 2. */
  lemma TailExact(v: Routine, hay: seq<byte>, needle: seq<byte>, e: int)
    requires 1 <= |needle| <= e + 1
    ensures Tail(v, hay, needle, e) <==>
      e + 1 == |hay| && (v == AllChunk || 2 <= |needle|) && Occurs(hay, needle, e - (|needle| - 1))
  {
    var x := e - (|needle| - 1);
    if e + 1 == |hay| {
      OccursBytes(hay, needle, x);
      OccursCertified(Plain, hay, needle, e);
      if Occurs(hay, needle, x) {
        forall j | 0 <= j < |needle| - 1
          ensures hay[x + j] == needle[j]
        {
          assert hay[x + j] == needle[x + j - x];
        }
      }
      if Tail(v, hay, needle, e) {
        forall j | x <= j < x + |needle|
          ensures hay[j] == needle[j - x]
        {
          if j < e {
            assert hay[x + (j - x)] == needle[j - x];
          }
        }
      }
    }
  }

  /** The window ends a routine reports: its loop's, then the trailing
      check's. findALL and count report these (bcjsearch/search.go:146,
      171, 215, 240), and so does findALL_CC, moved by the chunk's start
      (bcjsearch/search.go:399, 411, 431, 457). */
  function Ends(v: Routine, hay: seq<byte>, needle: seq<byte>): seq<int>
    requires 1 <= |needle|
  {
    var e := ScanEnd(v, hay, needle, |needle| - 1);
    ScanAll(v, hay, needle, |needle| - 1) + if Tail(v, hay, needle, e) then [e] else []
  }

  /** The start of the first window a routine reports, the loop stopping
      at its first report: findFI (bcjsearch/search.go:77, 102) and
      findFI_CC before the chunk's start is added. */
  function First(v: Routine, hay: seq<byte>, needle: seq<byte>): int
    requires 1 <= |needle|
  {
    var r := ScanFirst(v, hay, needle, |needle| - 1);
    var e := ScanEnd(v, hay, needle, |needle| - 1);
    if r != -1 then r
    else if Tail(v, hay, needle, e) then e - (|needle| - 1)
    else -1
  }

  // ---------------------------------------------------------------------
  // What the loops report

  lemma ScanUnfold(v: Routine, hay: seq<byte>, needle: seq<byte>, i: nat, r: Move)
    requires 1 <= |needle| <= i + 1 < |hay|
    requires r == Step(v, hay, needle, i)
    ensures r.hit ==> ScanAll(v, hay, needle, i) == [i] + ScanAll(v, hay, needle, r.next)
    ensures !r.hit ==> ScanAll(v, hay, needle, i) == ScanAll(v, hay, needle, r.next)
    ensures r.hit ==> ScanFirst(v, hay, needle, i) == i - (|needle| - 1)
    ensures !r.hit ==> ScanFirst(v, hay, needle, i) == ScanFirst(v, hay, needle, r.next)
    ensures ScanEnd(v, hay, needle, i) == ScanEnd(v, hay, needle, r.next)
  {
  }

  /** A list of certified window ends below n, ascending, behind a
      reported window end i, or behind nothing, is such a list again. */
  lemma CertifiedJoin(v: Routine, hay: seq<byte>, needle: seq<byte>, i: nat, hit: bool, rest: seq<int>, xs: seq<int>)
    requires 1 <= |needle| <= i + 1 < |hay|
    requires hit ==> xs == [i] + rest && Certified(v, hay, needle, i)
    requires !hit ==> xs == rest
    requires StrictlyIncreasing(rest)
    requires forall t :: 0 <= t < |rest| ==> i < rest[t] && rest[t] + 1 < |hay| && Certified(v, hay, needle, rest[t])
    ensures StrictlyIncreasing(xs)
    ensures forall t :: 0 <= t < |xs| ==> i <= xs[t] && xs[t] + 1 < |hay| && Certified(v, hay, needle, xs[t])
  {
    if hit {
      assert forall t :: 1 <= t < |xs| ==> xs[t] == rest[t - 1];
    }
  }

  /** A loop reports certified window ends, in ascending order, all at or
      after its start and below n. */
  lemma {:induction false} ScanAllCertified(v: Routine, hay: seq<byte>, needle: seq<byte>, i: nat)
    requires 1 <= |needle| <= i + 1
    ensures var xs := ScanAll(v, hay, needle, i);
      StrictlyIncreasing(xs) &&
      forall t :: 0 <= t < |xs| ==> i <= xs[t] && xs[t] + 1 < |hay| && Certified(v, hay, needle, xs[t])
    decreases |hay| - i
  {
    if i + 1 < |hay| {
      var r := Step(v, hay, needle, i);
      StepHit(v, hay, needle, i);
      ScanAllCertified(v, hay, needle, r.next);
      ScanUnfold(v, hay, needle, i, r);
      CertifiedJoin(v, hay, needle, i, r.hit, ScanAll(v, hay, needle, r.next), ScanAll(v, hay, needle, i));
    }
  }

  /** findFI's loop and findALL_CC's loop report every window end below n,
      at or after their start, that an occurrence ends at. */
  lemma {:induction false} ScanAllComplete(v: Routine, hay: seq<byte>, needle: seq<byte>, i: nat)
    requires 1 <= |needle| <= i + 1 && v != FirstChunk
    ensures forall x :: Occurs(hay, needle, x) && i <= x + (|needle| - 1) && x + |needle| < |hay| ==>
      x + (|needle| - 1) in ScanAll(v, hay, needle, i)
    decreases |hay| - i
  {
    if i + 1 < |hay| {
      var r := Step(v, hay, needle, i);
      StepHit(v, hay, needle, i);
      StepSafe(v, hay, needle, i);
      ScanAllComplete(v, hay, needle, r.next);
      ScanUnfold(v, hay, needle, i, r);
    }
  }

  /** When an occurrence ends on the last byte, findFI's loop and
      findALL_CC's loop stop exactly on it. */
  lemma {:induction false} ScanEndComplete(v: Routine, hay: seq<byte>, needle: seq<byte>, i: nat)
    requires 1 <= |needle| <= i + 1 <= |hay| && v != FirstChunk
    requires Occurs(hay, needle, |hay| - |needle|)
    ensures ScanEnd(v, hay, needle, i) + 1 == |hay|
    decreases |hay| - i
  {
    if i + 1 < |hay| {
      var r := Step(v, hay, needle, i);
      StepSafe(v, hay, needle, i);
      ScanEndComplete(v, hay, needle, r.next);
    }
  }

  /** A loop that stops at its first report returns the start of the
      first window the collecting loop reports. */
  lemma {:induction false} ScanFirstIsHead(v: Routine, hay: seq<byte>, needle: seq<byte>, i: nat)
    requires 1 <= |needle| <= i + 1
    ensures var xs := ScanAll(v, hay, needle, i);
      ScanFirst(v, hay, needle, i) == if xs == [] then -1 else xs[0] - (|needle| - 1)
    decreases |hay| - i
  {
    if i + 1 < |hay| {
      var r := Step(v, hay, needle, i);
      ScanUnfold(v, hay, needle, i, r);
      if !r.hit {
        ScanFirstIsHead(v, hay, needle, r.next);
      }
    }
  }

  /** The trailing report, on the last byte, comes after every report of
      the loop. */
  lemma EndsJoin(v: Routine, hay: seq<byte>, needle: seq<byte>, loop: seq<int>, e: int, xs: seq<int>)
    requires 1 <= |needle| <= e + 1
    requires xs == loop + if Tail(v, hay, needle, e) then [e] else []
    requires StrictlyIncreasing(loop)
    requires forall t :: 0 <= t < |loop| ==> |needle| - 1 <= loop[t] && loop[t] + 1 < |hay| && Certified(v, hay, needle, loop[t])
    ensures StrictlyIncreasing(xs)
    ensures forall t :: 0 <= t < |xs| ==> |needle| - 1 <= xs[t] < |hay| && Certified(v, hay, needle, xs[t])
  {
    if Tail(v, hay, needle, e) {
      TailExact(v, hay, needle, e);
      OccursCertified(v, hay, needle, e);
      assert forall t :: 0 <= t < |loop| ==> xs[t] == loop[t];
    } else {
      assert xs == loop;
    }
  }

  /** Every routine reports certified window ends in ascending order. */
  lemma EndsCertified(v: Routine, hay: seq<byte>, needle: seq<byte>)
    requires 1 <= |needle|
    ensures var xs := Ends(v, hay, needle);
      StrictlyIncreasing(xs) &&
      forall t :: 0 <= t < |xs| ==> |needle| - 1 <= xs[t] < |hay| && Certified(v, hay, needle, xs[t])
  {
    ScanAllCertified(v, hay, needle, |needle| - 1);
    EndsJoin(v, hay, needle, ScanAll(v, hay, needle, |needle| - 1), ScanEnd(v, hay, needle, |needle| - 1),
      Ends(v, hay, needle));
  }

  /** findALL and count report the end of every occurrence, except, for a
      one-byte needle, one on the last byte; findALL_CC reports the end of
      every occurrence. */
  lemma EndsComplete(v: Routine, hay: seq<byte>, needle: seq<byte>)
    requires 1 <= |needle| && v != FirstChunk
    ensures forall x :: Occurs(hay, needle, x) && (v == AllChunk || 2 <= |needle| || x + |needle| < |hay|) ==>
      x + (|needle| - 1) in Ends(v, hay, needle)
  {
    var loop := ScanAll(v, hay, needle, |needle| - 1);
    var e := ScanEnd(v, hay, needle, |needle| - 1);
    var xs := Ends(v, hay, needle);
    ScanAllComplete(v, hay, needle, |needle| - 1);
    assert xs == loop + if Tail(v, hay, needle, e) then [e] else [];
    forall x | Occurs(hay, needle, x) && (v == AllChunk || 2 <= |needle| || x + |needle| < |hay|)
      ensures x + (|needle| - 1) in xs
    {
      if x + |needle| < |hay| {
        assert x + (|needle| - 1) in loop;
      } else {
        assert x == |hay| - |needle|;
        LastReported(v, hay, needle);
      }
    }
  }

  /** An occurrence ending on the last byte is reported by the trailing
      check, unless the needle is one byte long and the routine is not
      findALL_CC. */
  lemma LastReported(v: Routine, hay: seq<byte>, needle: seq<byte>)
    requires 1 <= |needle| <= |hay| && v != FirstChunk
    requires Occurs(hay, needle, |hay| - |needle|) && (v == AllChunk || 2 <= |needle|)
    ensures |hay| - 1 in Ends(v, hay, needle)
  {
    var loop := ScanAll(v, hay, needle, |needle| - 1);
    var e := ScanEnd(v, hay, needle, |needle| - 1);
    ScanEndComplete(v, hay, needle, |needle| - 1);
    TailExact(v, hay, needle, e);
    assert Ends(v, hay, needle) == loop + [e];
  }

  /** A routine that stops at its first report returns the start of the
      first window end the collecting routine reports. */
  lemma FirstIsHead(v: Routine, hay: seq<byte>, needle: seq<byte>)
    requires 1 <= |needle|
    ensures var xs := Ends(v, hay, needle);
      First(v, hay, needle) == if xs == [] then -1 else xs[0] - (|needle| - 1)
  {
    var loop := ScanAll(v, hay, needle, |needle| - 1);
    var e := ScanEnd(v, hay, needle, |needle| - 1);
    ScanFirstIsHead(v, hay, needle, |needle| - 1);
    ScanAllCertified(v, hay, needle, |needle| - 1);
    assert Ends(v, hay, needle) == loop + if Tail(v, hay, needle, e) then [e] else [];
    if loop != [] {
      assert Ends(v, hay, needle)[0] == loop[0];
    }
  }

  // ---------------------------------------------------------------------
  // The five routines as written

  /** findFI (bcjsearch/search.go:40-107). */
  function FindFirstAsWritten(hay: seq<byte>, needle: seq<byte>): int
    requires 1 <= |needle|
  {
    First(Plain, hay, needle)
  }

  /** findALL (bcjsearch/search.go:109-176), which reports window ends;
      count (bcjsearch/search.go:178-245) counts the same reports. */
  function FindAllAsWritten(hay: seq<byte>, needle: seq<byte>): seq<int>
    requires 1 <= |needle|
  {
    Ends(Plain, hay, needle)
  }

  /** findFI_CC on the chunk hay[si:startIdx+partLen], si =
      max(0, startIdx-(m-1)), with the breaker never firing
      (bcjsearch/search.go:247-351). */
  function FindFirstChunkAsWritten(haystack: seq<byte>, needle: seq<byte>, startIdx: nat, partLen: nat): int
    requires 1 <= |needle| && startIdx + partLen <= |haystack|
  {
    var r := First(FirstChunk, Chunk(haystack, |needle|, startIdx, partLen), needle);
    if r == -1 then -1 else ChunkStart(startIdx, |needle|) + r
  }

  /** findALL_CC (bcjsearch/search.go:353-462): window ends, moved by the
      chunk's start. */
  function FindAllChunkAsWritten(haystack: seq<byte>, needle: seq<byte>, startIdx: nat, partLen: nat): seq<int>
    requires 1 <= |needle| && startIdx + partLen <= |haystack|
  {
    Shifted(Ends(AllChunk, Chunk(haystack, |needle|, startIdx, partLen), needle), ChunkStart(startIdx, |needle|))
  }

  /** findALL reports, in ascending order, window ends whose first and
      last bytes agree with the needle's; it reports the end of every
      occurrence, except, for a one-byte needle, one ending on the last
      byte; and findFI returns the start of the first window findALL
      reports. */
  lemma FindAllAsWrittenSpec(hay: seq<byte>, needle: seq<byte>)
    requires 1 <= |needle|
    ensures var xs := FindAllAsWritten(hay, needle);
      StrictlyIncreasing(xs) &&
      (forall t :: 0 <= t < |xs| ==> |needle| - 1 <= xs[t] < |hay| && FirstLast(hay, needle, xs[t])) &&
      (forall x :: Occurs(hay, needle, x) && (2 <= |needle| || x + |needle| < |hay|) ==>
         x + (|needle| - 1) in xs) &&
      FindFirstAsWritten(hay, needle) == if xs == [] then -1 else xs[0] - (|needle| - 1)
  {
    EndsCertified(Plain, hay, needle);
    EndsComplete(Plain, hay, needle);
    FirstIsHead(Plain, hay, needle);
  }

  /** What findFI_CC returns is -1 or an occurrence inside the chunk. */
  lemma FindFirstChunkAsWrittenSound(haystack: seq<byte>, needle: seq<byte>, startIdx: nat, partLen: nat)
    requires 1 <= |needle| && startIdx + partLen <= |haystack|
    ensures var r := FindFirstChunkAsWritten(haystack, needle, startIdx, partLen);
      r == -1 ||
      (ChunkStart(startIdx, |needle|) <= r && r + |needle| <= startIdx + partLen && Occurs(haystack, needle, r))
  {
    var hay := Chunk(haystack, |needle|, startIdx, partLen);
    var xs := Ends(FirstChunk, hay, needle);
    EndsCertified(FirstChunk, hay, needle);
    FirstIsHead(FirstChunk, hay, needle);
    if xs != [] {
      OccursInChunk(haystack, needle, startIdx, partLen, xs[0] - (|needle| - 1));
    }
  }

  // ---------------------------------------------------------------------
  // The routines as evidently intended

  /** findALL and count as evidently intended: findALL_CC's loop and
      trailing check, which compare every byte and skip only windows the
      table rules out, with each window's start reported. */
  function FindAllResult(hay: seq<byte>, needle: seq<byte>): seq<int>
    requires 1 <= |needle|
  {
    Shifted(Ends(AllChunk, hay, needle), -(|needle| - 1))
  }

  /** The corrected findALL lists every occurrence, overlapping ones
      included, in ascending order. */
  lemma FindAllResultExact(hay: seq<byte>, needle: seq<byte>)
    requires 1 <= |needle|
    ensures FindAllResult(hay, needle) == Occurrences(hay, needle)
  {
    var ys := FindAllResult(hay, needle);
    var occ := Occurrences(hay, needle);
    FindAllResultSound(hay, needle);
    FindAllResultComplete(hay, needle);
    OccurrencesFromSpec(hay, needle, 0);
    assert forall x :: x in ys <==> x in occ;
    IncreasingUnique(ys, occ);
  }

  lemma FindAllResultSound(hay: seq<byte>, needle: seq<byte>)
    requires 1 <= |needle|
    ensures StrictlyIncreasing(FindAllResult(hay, needle))
    ensures forall x :: x in FindAllResult(hay, needle) ==> Occurs(hay, needle, x)
  {
    var xs := Ends(AllChunk, hay, needle);
    var ys := FindAllResult(hay, needle);
    EndsCertified(AllChunk, hay, needle);
    ShiftedIncreasing(xs, -(|needle| - 1));
    forall x | x in ys
      ensures Occurs(hay, needle, x)
    {
      var t :| 0 <= t < |ys| && ys[t] == x;
      assert Certified(AllChunk, hay, needle, xs[t]);
    }
  }

  lemma FindAllResultComplete(hay: seq<byte>, needle: seq<byte>)
    requires 1 <= |needle|
    ensures forall x :: Occurs(hay, needle, x) ==> x in FindAllResult(hay, needle)
  {
    var xs := Ends(AllChunk, hay, needle);
    EndsComplete(AllChunk, hay, needle);
    ShiftedMembers(xs, -(|needle| - 1));
  }

  /** findALL_CC reports the end of every occurrence inside the chunk,
      moved by the chunk's start, and nothing else. */
  lemma FindAllChunkAsWrittenSpec(haystack: seq<byte>, needle: seq<byte>, startIdx: nat, partLen: nat)
    requires 1 <= |needle| && startIdx + partLen <= |haystack|
    ensures var hay := Chunk(haystack, |needle|, startIdx, partLen);
      FindAllChunkAsWritten(haystack, needle, startIdx, partLen) ==
      Shifted(Occurrences(hay, needle), ChunkStart(startIdx, |needle|) + (|needle| - 1))
  {
    EndsMoved(Chunk(haystack, |needle|, startIdx, partLen), needle, ChunkStart(startIdx, |needle|));
  }

  /** The window ends findALL_CC reports, moved by `d`, are the
      occurrences moved by `d` plus the needle's length less one. */
  lemma EndsMoved(hay: seq<byte>, needle: seq<byte>, d: int)
    requires 1 <= |needle|
    ensures Shifted(Ends(AllChunk, hay, needle), d) == Shifted(Occurrences(hay, needle), d + (|needle| - 1))
  {
    var xs := Ends(AllChunk, hay, needle);
    FindAllResultExact(hay, needle);
    ShiftedAgain(xs, Occurrences(hay, needle), -(|needle| - 1), d + (|needle| - 1), d);
  }

  /** findFI as evidently intended: the corrected loop, stopping at its
      first report. */
  function FindFirstResult(hay: seq<byte>, needle: seq<byte>): int
    requires 1 <= |needle|
  {
    First(AllChunk, hay, needle)
  }

  /** The corrected findFI is bytes.Index. */
  lemma FindFirstResultExact(hay: seq<byte>, needle: seq<byte>)
    requires 1 <= |needle|
    ensures FindFirstResult(hay, needle) == Index(hay, needle)
  {
    FirstIsHead(AllChunk, hay, needle);
    FindAllResultExact(hay, needle);
    OccurrencesFromHead(hay, needle, 0);
  }

  /** findFI_CC as evidently intended: the corrected search on the chunk,
      moved by the chunk's start. */
  function FindFirstChunkResult(haystack: seq<byte>, needle: seq<byte>, startIdx: nat, partLen: nat): int
    requires 1 <= |needle| && startIdx + partLen <= |haystack|
  {
    var r := FindFirstResult(Chunk(haystack, |needle|, startIdx, partLen), needle);
    if r == -1 then -1 else ChunkStart(startIdx, |needle|) + r
  }

  /** The corrected findFI_CC returns the first occurrence in the chunk,
      as an offset into the whole haystack. */
  lemma FindFirstChunkResultExact(haystack: seq<byte>, needle: seq<byte>, startIdx: nat, partLen: nat)
    requires 1 <= |needle| && startIdx + partLen <= |haystack|
    ensures var r := Index(Chunk(haystack, |needle|, startIdx, partLen), needle);
      FindFirstChunkResult(haystack, needle, startIdx, partLen) ==
      if r == -1 then -1 else ChunkStart(startIdx, |needle|) + r
  {
    FindFirstResultExact(Chunk(haystack, |needle|, startIdx, partLen), needle);
  }

  /** findALL_CC as evidently intended: window starts. */
  function FindAllChunkResult(haystack: seq<byte>, needle: seq<byte>, startIdx: nat, partLen: nat): seq<int>
    requires 1 <= |needle| && startIdx + partLen <= |haystack|
  {
    Shifted(FindAllResult(Chunk(haystack, |needle|, startIdx, partLen), needle), ChunkStart(startIdx, |needle|))
  }

  /** The corrected list moved by `d` is the window ends moved by `d`
      less the needle's length plus one. */
  lemma ResultMoved(hay: seq<byte>, needle: seq<byte>, d: int)
    requires 1 <= |needle|
    ensures Shifted(Ends(AllChunk, hay, needle), d - (|needle| - 1)) == Shifted(FindAllResult(hay, needle), d)
  {
    var xs := Ends(AllChunk, hay, needle);
    assert FindAllResult(hay, needle) == Shifted(xs, -(|needle| - 1));
    ShiftedAgain(xs, FindAllResult(hay, needle), -(|needle| - 1), d, d - (|needle| - 1));
  }

  /** The corrected findALL_CC lists, in ascending order, exactly the
      occurrences in the whole haystack that lie inside the chunk
      haystack[si:startIdx+partLen]. */
  lemma FindAllChunkResultExact(haystack: seq<byte>, needle: seq<byte>, startIdx: nat, partLen: nat)
    requires 1 <= |needle| && startIdx + partLen <= |haystack|
    ensures var xs := FindAllChunkResult(haystack, needle, startIdx, partLen);
      AllOccur(haystack, needle, xs) && StrictlyIncreasing(xs) &&
      forall x :: ChunkStart(startIdx, |needle|) <= x && x + |needle| <= startIdx + partLen && Occurs(haystack, needle, x) ==>
        x in xs
  {
    FindAllResultExact(Chunk(haystack, |needle|, startIdx, partLen), needle);
    ChunkOccurrences(haystack, needle, startIdx, partLen);
  }

  // ---------------------------------------------------------------------
  // Inputs on which the routines as written go wrong

  /** findFI and findALL report a window whose first and last bytes agree
      although the middle byte does not: needle "\x01\x02\x01" is
      reported at 0 in "\x01\x03\x01\x04", where it does not occur. */
  lemma CertifiesOnlyEnds()
    ensures FindFirstAsWritten([1, 3, 1, 4], [1, 2, 1]) == 0
    ensures FindAllAsWritten([1, 3, 1, 4], [1, 2, 1]) == [2]
    ensures Occurrences([1, 3, 1, 4], [1, 2, 1]) == []
  {
    var hay: seq<byte>, needle: seq<byte> := [1, 3, 1, 4], [1, 2, 1];
    assert Shift(needle, 4) == 3;
    assert Step(Plain, hay, needle, 2) == Move(6, true);
    assert ScanAll(Plain, hay, needle, 2) == [2];
    assert !Occurs(hay, needle, 0) by {
      assert hay[0..3][1] != needle[1];
    }
    assert !Occurs(hay, needle, 1) by {
      assert hay[1..4][0] != needle[0];
    }
    assert OccurrencesFrom(hay, needle, 1) == [];
  }

  /** With a one-byte needle the trailing check never reports, so an
      occurrence on the last byte is missed: "\x01" in "\x00\x01". */
  lemma OneByteTailMissed()
    ensures FindAllAsWritten([0, 1], [1]) == [] && FindFirstAsWritten([0, 1], [1]) == -1
    ensures Occurrences([0, 1], [1]) == [1]
  {
    var hay: seq<byte>, needle: seq<byte> := [0, 1], [1];
    assert Shift(needle, 1) == 0;
    assert Step(Plain, hay, needle, 0) == Move(1, false);
    assert Occurs(hay, needle, 1) && !Occurs(hay, needle, 0);
    assert OccurrencesFrom(hay, needle, 1) == [1];
  }

  /** findALL reports where an occurrence ends, not where it starts:
      "\x01\x02" in "\x01\x02\x00" is listed at 1, not 0. */
  lemma EndsNotStarts()
    ensures FindAllAsWritten([1, 2, 0], [1, 2]) == [1]
    ensures Occurrences([1, 2, 0], [1, 2]) == [0]
  {
    var hay: seq<byte>, needle: seq<byte> := [1, 2, 0], [1, 2];
    assert Shift(needle, 0) == 2;
    assert Step(Plain, hay, needle, 1) == Move(4, true);
    assert Occurs(hay, needle, 0);
    assert !Occurs(hay, needle, 1);
    assert OccurrencesFrom(hay, needle, 1) == [];
  }

  /** After a front-side mismatch at j findFI_CC advances from i+j, past
      windows the table does not rule out: in "\x01\x01\x01\x02\x02\x02\x02"
      the needle "\x01\x01\x02\x02\x02\x02" occurs at 1, and
      findFI_CC finds nothing. */
  lemma FrontMismatchSkips()
    ensures FindFirstChunkAsWritten([1, 1, 1, 2, 2, 2, 2], [1, 1, 2, 2, 2, 2], 0, 7) == -1
    ensures Occurs([1, 1, 1, 2, 2, 2, 2], [1, 1, 2, 2, 2, 2], 1)
  {
    var hay: seq<byte>, needle: seq<byte> := [1, 1, 1, 2, 2, 2, 2], [1, 1, 2, 2, 2, 2];
    assert Chunk(hay, 6, 0, 7) == hay;
    assert Shift(needle, 2) == 0;
    assert Lim(6) == 3;
    assert Zig(hay, needle, 5, 1) == 2;
    assert Step(FirstChunk, hay, needle, 5) == Move(7, false);
    assert hay[1..7] == needle;
  }

  // ---------------------------------------------------------------------
  // The routines

  /** The preprocessing of every routine (bcjsearch/search.go:57-63): all
      entries m, then jmpMap[needle[i]] = m-1-i, later positions
      overwriting earlier ones. */
  method BuildShiftTable(needle: seq<byte>) returns (jmpMap: array<int>)
    ensures fresh(jmpMap) && IsShiftTable(needle, jmpMap[..])
  {
    var m := |needle|;
    jmpMap := new int[Alphabet];
    var i := 0;
    while i < Alphabet
      invariant 0 <= i <= Alphabet
      invariant forall c :: 0 <= c < i ==> jmpMap[c] == m
    {
      jmpMap[i] := m;
      i := i + 1;
    }
    assert jmpMap[..] == TableUpTo(needle, 0);
    i := 0;
    while i < m
      invariant 0 <= i <= m
      invariant jmpMap[..] == TableUpTo(needle, i)
    {
      jmpMap[needle[i] as int] := m - 1 - i;
      i := i + 1;
    }
    TableUpToFull(needle);
  }

  /** The advance loop of findFI, findALL, count and findFI_CC
      (bcjsearch/search.go:80-88). */
  method AdvanceLoop(hay: seq<byte>, needle: seq<byte>, jmpMap: array<int>, p: nat) returns (q: nat)
    requires IsShiftTable(needle, jmpMap[..])
    ensures q == Advance(hay, needle, p)
  {
    var jmp: nat := p;
    while jmp + 1 < |hay|
      invariant Advance(hay, needle, jmp) == Advance(hay, needle, p)
      decreases |hay| - jmp
    {
      var i := jmp;
      assert jmpMap[hay[i] as int] == Shift(needle, hay[i]);
      jmp := jmp + jmpMap[hay[i] as int];
      if jmp > i {
        continue;
      }
      break;
    }
    return jmp;
  }

  /** The advance loop of findALL_CC (bcjsearch/search.go:434-442), which
      returns the last position it moved from, not the jump beyond it. */
  method AdvanceLoopCC(hay: seq<byte>, needle: seq<byte>, jmpMap: array<int>, p: nat) returns (i: nat)
    requires IsShiftTable(needle, jmpMap[..])
    ensures i == AdvanceCC(hay, needle, p)
  {
    i := p;
    var jmp: nat := p;
    while jmp + 1 < |hay|
      invariant i <= jmp && AdvanceCC(hay, needle, i) == AdvanceCC(hay, needle, p)
      invariant i < jmp ==> i + 1 < |hay| && Shift(needle, hay[i]) != 0 && jmp == i + Shift(needle, hay[i])
      decreases |hay| - jmp
    {
      i := jmp;
      assert jmpMap[hay[i] as int] == Shift(needle, hay[i]);
      jmp := jmp + jmpMap[hay[i] as int];
      if jmp > i {
        continue;
      }
      break;
    }
  }

  /** One iteration of the loop of findFI, findALL and count
      (bcjsearch/search.go:67-93). */
  method PlainStep(hay: seq<byte>, needle: seq<byte>, jmpMap: array<int>, i: nat) returns (next: nat, hit: bool)
    requires 1 <= |needle| <= i + 1 < |hay|
    requires IsShiftTable(needle, jmpMap[..])
    ensures Move(next, hit) == Step(Plain, hay, needle, i)
  {
    var lim := Lim(|needle|);
    assert jmpMap[hay[i + 1] as int] == Shift(needle, hay[i + 1]);
    var jmp := i + 1 + jmpMap[hay[i + 1] as int];
    hit := false;
    if BothEqual(hay[i], needle[|needle| - 1], hay[i - (|needle| - 1)], needle[0]) {
      var j := 1;
      while j < lim
        invariant 1 <= j <= lim
      {
        // The pair comparison here continues the loop whatever its outcome.
        j := j + 1;
      }
      hit := j == lim;
    }
    next := AdvanceLoop(hay, needle, jmpMap, jmp);
  }

  /** One iteration of the loop of findFI_CC (bcjsearch/search.go:288-337),
      the breaker never firing. */
  method FirstChunkStep(hay: seq<byte>, needle: seq<byte>, jmpMap: array<int>, i: nat) returns (next: nat, hit: bool)
    requires 1 <= |needle| <= i + 1 < |hay|
    requires IsShiftTable(needle, jmpMap[..])
    ensures Move(next, hit) == Step(FirstChunk, hay, needle, i)
  {
    var lim := Lim(|needle|);
    assert jmpMap[hay[i + 1] as int] == Shift(needle, hay[i + 1]);
    var jmp := i + 1 + jmpMap[hay[i + 1] as int];
    hit := false;
    next := jmp;
    if BothEqual(hay[i], needle[|needle| - 1], hay[i - (|needle| - 1)], needle[0]) {
      var j := 1;
      while j < lim
        invariant 1 <= j <= lim && next == jmp
        invariant Zig(hay, needle, i, j) == Zig(hay, needle, i, 1)
      {
        if BothEqual(hay[i - (|needle| - 1) + j], needle[j], hay[i - j], needle[|needle| - 1 - j]) {
          j := j + 1;
          continue;
        }
        if hay[i - j] != needle[|needle| - 1 - j] {
          next := AdvanceLoop(hay, needle, jmpMap, jmp);
        } else {
          // The back bytes agree, so the front bytes differ.
          next := AdvanceLoop(hay, needle, jmpMap, i + j);
        }
        break;
      }
      hit := j == lim;
    }
  }

  /** One iteration of the loop of findALL_CC, in its m = 2, m = 3 or
      default form (bcjsearch/search.go:394-448). */
  method AllChunkStep(hay: seq<byte>, needle: seq<byte>, jmpMap: array<int>, i: nat) returns (next: nat, hit: bool)
    requires 1 <= |needle| <= i + 1 < |hay|
    requires IsShiftTable(needle, jmpMap[..])
    ensures Move(next, hit) == Step(AllChunk, hay, needle, i)
  {
    var m, mm1 := |needle|, |needle| - 1;
    assert jmpMap[hay[i + 1] as int] == Shift(needle, hay[i + 1]);
    var jmp := i + 1 + jmpMap[hay[i + 1] as int];
    if m == 2 {
      hit := BothEqual(hay[i], needle[mm1], hay[i - mm1], needle[0]);
      next := jmp;
    } else if m == 3 {
      hit := AllEqual3(hay[i], needle[mm1], hay[i - mm1], needle[0], hay[i - 1], needle[1]);
      next := jmp;
    } else {
      hit := CandidateCheck(hay, needle, i);
      next := AdvanceLoopCC(hay, needle, jmpMap, jmp);
    }
  }

  /** The candidate test of findALL_CC's default form: the end bytes, then
      the zigzag up to lim (bcjsearch/search.go:422-433). */
  method CandidateCheck(hay: seq<byte>, needle: seq<byte>, i: nat) returns (hit: bool)
    requires 1 <= |needle| <= i + 1 <= |hay|
    ensures hit == Candidate(hay, needle, i)
  {
    var mm1 := |needle| - 1;
    var lim := Lim(|needle|);
    hit := false;
    if BothEqual(hay[i], needle[mm1], hay[i - mm1], needle[0]) {
      var j := 1;
      while j < lim
        invariant 1 <= j <= lim
        invariant Zig(hay, needle, i, j) == Zig(hay, needle, i, 1)
      {
        if BothEqual(hay[i - mm1 + j], needle[j], hay[i - j], needle[mm1 - j]) {
          j := j + 1;
          continue;
        }
        break;
      }
      hit := j == lim;
    }
  }

  method OuterStep(v: Routine, hay: seq<byte>, needle: seq<byte>, jmpMap: array<int>, i: nat) returns (next: nat, hit: bool)
    requires 1 <= |needle| <= i + 1 < |hay|
    requires IsShiftTable(needle, jmpMap[..])
    ensures Move(next, hit) == Step(v, hay, needle, i)
  {
    match v
    case Plain =>
      next, hit := PlainStep(hay, needle, jmpMap, i);
    case FirstChunk =>
      next, hit := FirstChunkStep(hay, needle, jmpMap, i);
    case AllChunk =>
      next, hit := AllChunkStep(hay, needle, jmpMap, i);
  }

  /** The trailing check of findFI, findALL, count and findFI_CC
      (bcjsearch/search.go:95-104). */
  method TailCheck(hay: seq<byte>, needle: seq<byte>, i: int) returns (hit: bool)
    requires 1 <= |needle| <= i + 1
    ensures hit == TailHit(hay, needle, i)
  {
    hit := false;
    if i == |hay| - 1 && BothEqual(hay[i], needle[|needle| - 1], hay[i - (|needle| - 1)], needle[0]) {
      var j := 1;
      while j < |needle| - 1
        invariant 1 <= j && (j <= |needle| - 1 || j == 1)
        invariant forall t :: 1 <= t < j ==> hay[i - (|needle| - 1) + t] == needle[t]
      {
        if hay[i - (|needle| - 1) + j] != needle[j] {
          break;
        }
        j := j + 1;
      }
      hit := j == |needle| - 1;
    }
  }

  /** The trailing check of findALL_CC (bcjsearch/search.go:450-459). */
  method TailCheckCC(hay: seq<byte>, needle: seq<byte>, i: int) returns (hit: bool)
    requires 1 <= |needle| <= i + 1
    ensures hit == TailHitCC(hay, needle, i)
  {
    hit := false;
    if i == |hay| - 1 && hay[i] == needle[|needle| - 1] {
      var j := 0;
      while j < |needle| - 1
        invariant 0 <= j <= |needle| - 1
        invariant forall t :: 0 <= t < j ==> hay[i - (|needle| - 1) + t] == needle[t]
      {
        if hay[i - (|needle| - 1) + j] != needle[j] {
          break;
        }
        j := j + 1;
      }
      hit := j == |needle| - 1;
    }
  }

  method TailCheckOf(v: Routine, hay: seq<byte>, needle: seq<byte>, i: int) returns (hit: bool)
    requires 1 <= |needle| <= i + 1
    ensures hit == Tail(v, hay, needle, i)
  {
    if v == AllChunk {
      hit := TailCheckCC(hay, needle, i);
    } else {
      hit := TailCheck(hay, needle, i);
    }
  }

  /** One collecting iteration moves a report from the rest of the list
      onto the list gathered so far. */
  lemma ScanStep(v: Routine, hay: seq<byte>, needle: seq<byte>, i: nat, r: Move, acc: seq<int>)
    requires 1 <= |needle| <= i + 1 < |hay|
    requires r == Step(v, hay, needle, i)
    requires acc + ScanAll(v, hay, needle, i) == ScanAll(v, hay, needle, |needle| - 1)
    ensures r.hit ==> (acc + [i]) + ScanAll(v, hay, needle, r.next) == ScanAll(v, hay, needle, |needle| - 1)
    ensures !r.hit ==> acc + ScanAll(v, hay, needle, r.next) == ScanAll(v, hay, needle, |needle| - 1)
    ensures ScanEnd(v, hay, needle, i) == ScanEnd(v, hay, needle, r.next)
  {
    ScanUnfold(v, hay, needle, i, r);
    AccStep(acc, i, r.hit, ScanAll(v, hay, needle, i), ScanAll(v, hay, needle, r.next),
      ScanAll(v, hay, needle, |needle| - 1));
  }

  /** The same iteration, with the reported list moved by `base`. */
  lemma FoundStep(v: Routine, hay: seq<byte>, needle: seq<byte>, i: nat, r: Move, acc: seq<int>, found: seq<int>, base: int)
    requires 1 <= |needle| <= i + 1 < |hay|
    requires r == Step(v, hay, needle, i)
    requires acc + ScanAll(v, hay, needle, i) == ScanAll(v, hay, needle, |needle| - 1)
    requires found == Shifted(acc, base)
    ensures r.hit ==>
      (acc + [i]) + ScanAll(v, hay, needle, r.next) == ScanAll(v, hay, needle, |needle| - 1) &&
      found + [base + i] == Shifted(acc + [i], base)
    ensures !r.hit ==> acc + ScanAll(v, hay, needle, r.next) == ScanAll(v, hay, needle, |needle| - 1)
    ensures ScanEnd(v, hay, needle, i) == ScanEnd(v, hay, needle, r.next)
  {
    ScanStep(v, hay, needle, i, r, acc);
    ShiftedSnoc(acc, i, base);
  }

  /** What a collecting loop has gathered once its cursor reaches n,
      followed by the trailing check, is the routine's whole report. */
  lemma EndsOf(v: Routine, hay: seq<byte>, needle: seq<byte>, i: nat, acc: seq<int>)
    requires 1 <= |needle| <= i + 1 && |hay| <= i + 1
    requires acc + ScanAll(v, hay, needle, i) == ScanAll(v, hay, needle, |needle| - 1)
    requires ScanEnd(v, hay, needle, i) == ScanEnd(v, hay, needle, |needle| - 1)
    ensures Ends(v, hay, needle) == acc + if Tail(v, hay, needle, i) then [i] else []
  {
    assert acc + [] == acc;
  }

  /** A routine's loop from cursor m-1, returning at its first report, then
      the trailing check. */
  method SearchFirst(v: Routine, hay: seq<byte>, needle: seq<byte>, jmpMap: array<int>) returns (r: int)
    requires 1 <= |needle| < |hay|
    requires IsShiftTable(needle, jmpMap[..])
    ensures r == First(v, hay, needle)
  {
    var i: nat := |needle| - 1;
    while i + 1 < |hay|
      invariant |needle| - 1 <= i
      invariant ScanFirst(v, hay, needle, i) == ScanFirst(v, hay, needle, |needle| - 1)
      invariant ScanEnd(v, hay, needle, i) == ScanEnd(v, hay, needle, |needle| - 1)
      decreases |hay| - i
    {
      var next, hit := OuterStep(v, hay, needle, jmpMap, i);
      ScanUnfold(v, hay, needle, i, Move(next, hit));
      if hit {
        return i - (|needle| - 1);
      }
      i := next;
    }
    var tail := TailCheckOf(v, hay, needle, i);
    if tail {
      return i - (|needle| - 1);
    }
    return -1;
  }

  /** A routine's loop from cursor m-1 collecting every report, each added
      to `base`, then the trailing check. */
  method SearchAll(v: Routine, hay: seq<byte>, needle: seq<byte>, jmpMap: array<int>, base: int)
    returns (found: seq<int>)
    requires 1 <= |needle| < |hay|
    requires IsShiftTable(needle, jmpMap[..])
    ensures found == Shifted(Ends(v, hay, needle), base)
  {
    found := [];
    ghost var acc: seq<int> := [];
    var i: nat := |needle| - 1;
    while i + 1 < |hay|
      invariant |needle| - 1 <= i
      invariant found == Shifted(acc, base)
      invariant acc + ScanAll(v, hay, needle, i) == ScanAll(v, hay, needle, |needle| - 1)
      invariant ScanEnd(v, hay, needle, i) == ScanEnd(v, hay, needle, |needle| - 1)
      decreases |hay| - i
    {
      var next, hit := OuterStep(v, hay, needle, jmpMap, i);
      FoundStep(v, hay, needle, i, Move(next, hit), acc, found, base);
      if hit {
        found := found + [base + i];
        acc := acc + [i];
      }
      i := next;
    }
    EndsOf(v, hay, needle, i, acc);
    var tail := TailCheckOf(v, hay, needle, i);
    if tail {
      ShiftedSnoc(acc, i, base);
      found := found + [base + i];
    } else {
      assert acc + [] == acc;
    }
  }

  /** A routine's loop from cursor m-1 counting its reports, then the
      trailing check. */
  method SearchCount(v: Routine, hay: seq<byte>, needle: seq<byte>, jmpMap: array<int>) returns (count: nat)
    requires 1 <= |needle| < |hay|
    requires IsShiftTable(needle, jmpMap[..])
    ensures count == |Ends(v, hay, needle)|
  {
    count := 0;
    ghost var acc: seq<int> := [];
    var i: nat := |needle| - 1;
    while i + 1 < |hay|
      invariant |needle| - 1 <= i
      invariant count == |acc|
      invariant acc + ScanAll(v, hay, needle, i) == ScanAll(v, hay, needle, |needle| - 1)
      invariant ScanEnd(v, hay, needle, i) == ScanEnd(v, hay, needle, |needle| - 1)
      decreases |hay| - i
    {
      var next, hit := OuterStep(v, hay, needle, jmpMap, i);
      ScanStep(v, hay, needle, i, Move(next, hit), acc);
      if hit {
        count := count + 1;
        acc := acc + [i];
      }
      i := next;
    }
    EndsOf(v, hay, needle, i, acc);
    var tail := TailCheckOf(v, hay, needle, i);
    if tail {
      count := count + 1;
    }
  }

  /** findFI (bcjsearch/search.go:40-107). Its first iteration reads
      hay[m], so the haystack must be longer than the needle. */
  method FindFirst(hay: seq<byte>, needle: seq<byte>) returns (r: int)
    requires 1 <= |needle| < |hay|
    ensures r == FindFirstAsWritten(hay, needle)
  {
    var jmpMap := BuildShiftTable(needle);
    r := SearchFirst(Plain, hay, needle, jmpMap);
  }

  /** findALL (bcjsearch/search.go:109-176). */
  method FindAll(hay: seq<byte>, needle: seq<byte>) returns (found: seq<int>)
    requires 1 <= |needle| < |hay|
    ensures found == FindAllAsWritten(hay, needle)
  {
    var jmpMap := BuildShiftTable(needle);
    found := SearchAll(Plain, hay, needle, jmpMap, 0);
    ShiftedZero(Ends(Plain, hay, needle));
  }

  /** count (bcjsearch/search.go:178-245). */
  method Count(hay: seq<byte>, needle: seq<byte>) returns (count: nat)
    requires 1 <= |needle| < |hay|
    ensures count == |FindAllAsWritten(hay, needle)|
  {
    var jmpMap := BuildShiftTable(needle);
    count := SearchCount(Plain, hay, needle, jmpMap);
  }

  /** findFI_CC with a breaker that never fires
      (bcjsearch/search.go:247-351). */
  method FindFirstChunk(haystack: seq<byte>, needle: seq<byte>, startIdx: nat, partLen: nat) returns (r: int)
    requires 1 <= |needle| && startIdx + partLen <= |haystack|
    requires |needle| < startIdx + partLen - ChunkStart(startIdx, |needle|)
    ensures r == FindFirstChunkAsWritten(haystack, needle, startIdx, partLen)
  {
    var si := ChunkStart(startIdx, |needle|);
    var hay := haystack[si..startIdx + partLen];
    assert hay == Chunk(haystack, |needle|, startIdx, partLen);
    var jmpMap := BuildShiftTable(needle);
    r := SearchFirst(FirstChunk, hay, needle, jmpMap);
    if r != -1 {
      r := si + r;
    }
  }

  /** findALL_CC (bcjsearch/search.go:353-462). */
  method FindAllChunk(haystack: seq<byte>, needle: seq<byte>, startIdx: nat, partLen: nat) returns (found: seq<int>)
    requires 1 <= |needle| && startIdx + partLen <= |haystack|
    requires |needle| < startIdx + partLen - ChunkStart(startIdx, |needle|)
    ensures found == FindAllChunkAsWritten(haystack, needle, startIdx, partLen)
  {
    var si := ChunkStart(startIdx, |needle|);
    var hay := haystack[si..startIdx + partLen];
    assert hay == Chunk(haystack, |needle|, startIdx, partLen);
    var jmpMap := BuildShiftTable(needle);
    found := SearchAll(AllChunk, hay, needle, jmpMap, si);
  }

  /** findFI corrected: exactly bytes.Index. */
  method FindFirstFixed(hay: seq<byte>, needle: seq<byte>) returns (r: int)
    requires 1 <= |needle| < |hay|
    ensures r == Index(hay, needle)
  {
    var jmpMap := BuildShiftTable(needle);
    r := SearchFirst(AllChunk, hay, needle, jmpMap);
    FindFirstResultExact(hay, needle);
  }

  /** findALL corrected: every occurrence, in ascending order. */
  method FindAllFixed(hay: seq<byte>, needle: seq<byte>) returns (found: seq<int>)
    requires 1 <= |needle| < |hay|
    ensures found == Occurrences(hay, needle)
  {
    var jmpMap := BuildShiftTable(needle);
    found := SearchAll(AllChunk, hay, needle, jmpMap, -(|needle| - 1));
    FindAllResultExact(hay, needle);
  }

  /** count corrected: the number of occurrences. */
  method CountFixed(hay: seq<byte>, needle: seq<byte>) returns (count: nat)
    requires 1 <= |needle| < |hay|
    ensures count == |Occurrences(hay, needle)|
  {
    var jmpMap := BuildShiftTable(needle);
    count := SearchCount(AllChunk, hay, needle, jmpMap);
    FindAllResultExact(hay, needle);
  }

  /** findFI_CC corrected: the first occurrence inside the chunk. */
  method FindFirstChunkFixed(haystack: seq<byte>, needle: seq<byte>, startIdx: nat, partLen: nat) returns (r: int)
    requires 1 <= |needle| && startIdx + partLen <= |haystack|
    requires |needle| < startIdx + partLen - ChunkStart(startIdx, |needle|)
    ensures r == FindFirstChunkResult(haystack, needle, startIdx, partLen)
  {
    var si := ChunkStart(startIdx, |needle|);
    var hay := haystack[si..startIdx + partLen];
    assert hay == Chunk(haystack, |needle|, startIdx, partLen);
    var jmpMap := BuildShiftTable(needle);
    r := SearchFirst(AllChunk, hay, needle, jmpMap);
    if r != -1 {
      r := si + r;
    }
  }

  /** findALL_CC corrected: every occurrence inside the chunk, by its
      start. */
  method FindAllChunkFixed(haystack: seq<byte>, needle: seq<byte>, startIdx: nat, partLen: nat) returns (found: seq<int>)
    requires 1 <= |needle| && startIdx + partLen <= |haystack|
    requires |needle| < startIdx + partLen - ChunkStart(startIdx, |needle|)
    ensures found == FindAllChunkResult(haystack, needle, startIdx, partLen)
  {
    var si := ChunkStart(startIdx, |needle|);
    var hay := haystack[si..startIdx + partLen];
    assert hay == Chunk(haystack, |needle|, startIdx, partLen);
    var jmpMap := BuildShiftTable(needle);
    found := SearchAll(AllChunk, hay, needle, jmpMap, si - (|needle| - 1));
    ResultMoved(hay, needle, si);
  }
}
