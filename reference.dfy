// The reference scanners of bmatch_test.go: a Boyer–Moore string finder
// (a bad-character table and a good-suffix table, consulted on every
// mismatch of a right-to-left comparison) and the count and find-all
// loops the package's engines are measured against, built on that finder
// or on bytes.Index.

module Reference {
  import opened Bytes

  /** max (bmatch_test.go:531-536). */
  function Max(a: int, b: int): (r: int)
    ensures a <= r && b <= r
    ensures r == a || r == b
  {
    if a > b then a else b
  }

  // ---------------------------------------------------------------------
  // The bad-character table

  /** badCharSkip[c] after the stores for positions 0..i-1 of the pattern
      (bmatch_test.go:466-478): its length, or last-k for the last such
      position k that holds c. */
  function BadCharUpTo(p: seq<byte>, c: byte, i: nat): (s: nat)
    requires i < |p|
    ensures |p| - i <= s <= |p|
  {
    if i == 0 then |p|
    else if p[i - 1] == c then |p| - i
    else BadCharUpTo(p, c, i - 1)
  }

  /** The finished entry badCharSkip[c]: the stores stop short of the last
      position, so the last byte has no zero distance to itself. */
  function BadChar(p: seq<byte>, c: byte): (s: nat)
  {
    if |p| == 0 then 0 else BadCharUpTo(p, c, |p| - 1)
  }

  lemma {:induction false} BadCharUpToSpec(p: seq<byte>, c: byte, i: nat)
    requires i < |p|
    ensures var s := BadCharUpTo(p, c, i);
      (s < |p| ==> p[|p| - 1 - s] == c) &&
      forall t :: |p| - 1 - s < t < i ==> p[t] != c
  {
    if i > 0 && p[i - 1] != c {
      BadCharUpToSpec(p, c, i - 1);
    }
  }

  /** badCharSkip[c] is the distance from the last position back to the
      rightmost position before it that holds c, and the pattern's length
      when no such position exists (bmatch_test.go:428-435). */
  lemma BadCharSpec(p: seq<byte>, c: byte)
    requires 1 <= |p|
    ensures 1 <= BadChar(p, c) <= |p|
    ensures BadChar(p, c) < |p| ==> p[|p| - 1 - BadChar(p, c)] == c
    ensures forall t :: 0 <= t < |p| - 1 && p[t] == c ==> BadChar(p, c) <= |p| - 1 - t
    ensures BadChar(p, c) == |p| <==> forall t :: 0 <= t < |p| - 1 ==> p[t] != c
  {
    BadCharUpToSpec(p, c, |p| - 1);
  }

  /** `tbl` holds badCharSkip for every byte. */
  ghost predicate IsBadCharTable(p: seq<byte>, tbl: seq<int>) {
    |tbl| == Alphabet && forall c: byte {:trigger BadChar(p, c)} :: tbl[c as int] == BadChar(p, c)
  }

  /** The table after the default fill and the stores for positions
      0..i-1, one array store at a time. */
  function BadCharTableUpTo(p: seq<byte>, i: nat): (t: seq<int>)
    requires i < |p|
    ensures |t| == Alphabet
  {
    if i == 0 then seq(Alphabet, _ => |p|)
    else BadCharTableUpTo(p, i - 1)[p[i - 1] as int := |p| - i]
  }

  lemma {:induction false} BadCharTableUpToEntry(p: seq<byte>, i: nat, c: byte)
    requires i < |p|
    ensures BadCharTableUpTo(p, i)[c as int] == BadCharUpTo(p, c, i)
  {
    if i == 0 {
      assert BadCharTableUpTo(p, 0) == seq(Alphabet, _ => |p|);
    } else {
      BadCharTableUpToEntry(p, i - 1, c);
      if p[i - 1] != c {
        ByteIndexDistinct(p[i - 1], c);
      }
    }
  }

  lemma BadCharTableFull(p: seq<byte>)
    requires 1 <= |p|
    ensures IsBadCharTable(p, BadCharTableUpTo(p, |p| - 1))
  {
    forall c: byte
      ensures BadCharTableUpTo(p, |p| - 1)[c as int] == BadChar(p, c)
    {
      BadCharTableUpToEntry(p, |p| - 1, c);
    }
  }

  // ---------------------------------------------------------------------
  // The good-suffix table

  /** strings.HasPrefix(s, prefix). */
  predicate HasPrefix(s: seq<byte>, prefix: seq<byte>) {
    |prefix| <= |s| && s[..|prefix|] == prefix
  }

  /** The byte t places before the end of s. */
  function FromEnd(s: seq<byte>, t: nat): byte
    requires t < |s|
  {
    s[|s| - 1 - t]
  }

  /** longestCommonSuffix(a, b) from position k on: the number of trailing
      bytes a and b share. */
  function LcsFrom(a: seq<byte>, b: seq<byte>, k: nat): (r: nat)
    requires k <= |a| && k <= |b|
    ensures k <= r <= |a| && r <= |b|
    ensures forall t :: k <= t < r ==> FromEnd(a, t) == FromEnd(b, t)
    ensures r < |a| && r < |b| ==> FromEnd(a, r) != FromEnd(b, r)
    decreases |a| - k
  {
    if k < |a| && k < |b| && FromEnd(a, k) == FromEnd(b, k) then LcsFrom(a, b, k + 1) else k
  }

  /** The longest common suffix of a and b: the last r bytes agree, and r
      stops at the shorter length or at the first disagreement. */
  function Lcs(a: seq<byte>, b: seq<byte>): (r: nat)
    ensures r <= |a| && r <= |b|
    ensures forall t :: 0 <= t < r ==> FromEnd(a, t) == FromEnd(b, t)
    ensures r < |a| && r < |b| ==> FromEnd(a, r) != FromEnd(b, r)
  {
    LcsFrom(a, b, 0)
  }

  /** lastPrefix once the first pass (bmatch_test.go:480-490) has visited
      positions last down to i: the least k > i whose suffix p[k..] is a
      prefix of p (the empty suffix always is). */
  function LastPrefix(p: seq<byte>, i: nat): (k: nat)
    requires i < |p|
    ensures i + 1 <= k <= |p|
    ensures HasPrefix(p, p[k..])
    decreases |p| - i
  {
    if HasPrefix(p, p[i + 1..]) then i + 1 else LastPrefix(p, i + 1)
  }

  lemma {:induction false} LastPrefixLeast(p: seq<byte>, i: nat, k: nat)
    requires i < |p| && i + 1 <= k <= |p| && HasPrefix(p, p[k..])
    ensures LastPrefix(p, i) <= k
    decreases |p| - i
  {
    if !HasPrefix(p, p[i + 1..]) {
      LastPrefixLeast(p, i + 1, k);
    }
  }

  /** The table after the first pass: shift to the next prefix, plus the
      length of the matched suffix. */
  function FirstPass(p: seq<byte>): (g: seq<int>)
    ensures |g| == |p|
  {
    seq(|p|, i requires 0 <= i < |p| => LastPrefix(p, i) + (|p| - 1) - i)
  }

  /** Iteration i of the second pass (bmatch_test.go:491-498): where the
      suffix shared by the pattern and p[1..i+1] is preceded by different
      bytes, the shift last-i is stored for the position before it. */
  function PassStep(p: seq<byte>, g: seq<int>, i: nat): (h: seq<int>)
    requires i + 1 < |p| && |g| == |p|
    ensures |h| == |p|
  {
    var l := Lcs(p, p[1..i + 1]);
    if p[i - l] != p[|p| - 1 - l] then g[|p| - 1 - l := l + (|p| - 1) - i] else g
  }

  /** The table after the first pass and n iterations of the second. */
  function SecondPass(p: seq<byte>, n: nat): (g: seq<int>)
    requires n < |p|
    ensures |g| == |p|
  {
    if n == 0 then FirstPass(p) else PassStep(p, SecondPass(p, n - 1), n - 1)
  }

  /** The finished goodSuffixSkip. */
  function GoodSuffix(p: seq<byte>): (g: seq<int>)
    ensures |g| == |p|
  {
    if |p| == 0 then [] else SecondPass(p, |p| - 1)
  }

  /** With the pattern's bytes after position j matched against the text
      and the byte at j not, the pattern itself does not rule out that it
      occurs d positions further on: the matched suffix agrees with the
      pattern shifted by d, and, where the shift keeps j inside the
      pattern, the byte arriving at j differs from p[j]. */
  ghost predicate Compatible(p: seq<byte>, j: nat, d: nat)
    requires j < |p|
  {
    (forall t :: j < t < |p| && d <= t ==> p[t - d] == p[t]) &&
    (d <= j ==> p[j - d] != p[j])
  }

  /** The table moves by at most the least compatible shift: after `n`
      iterations of the second pass, for every compatible shift beyond j
      or one the iterations have visited. */
  ghost predicate SafeUpTo(p: seq<byte>, g: seq<int>, n: nat)
    requires |g| == |p|
  {
    forall j :: 0 <= j < |p| ==>
      |p| - j <= g[j] &&
      forall d :: 1 <= d && Compatible(p, j, d) && (j < d || |p| - 1 - d < n) ==> g[j] - (|p| - 1 - j) <= d
  }

  lemma FirstPassSafe(p: seq<byte>, g: seq<int>)
    requires g == FirstPass(p)
    ensures SafeUpTo(p, g, 0)
  {
    forall j, d | 0 <= j < |p| && 1 <= d && Compatible(p, j, d) && j < d
      ensures g[j] - (|p| - 1 - j) <= d
    {
      if d < |p| {
        assert HasPrefix(p, p[d..]) by {
          forall u | 0 <= u < |p| - d
            ensures p[d..][u] == p[u]
          {
            assert p[d + u - d] == p[d + u];
          }
        }
        LastPrefixLeast(p, j, d);
      }
    }
  }

  /** A shift last-i compatible with position j is the one iteration i of
      the second pass finds and stores for j. */
  lemma CompatibleFound(p: seq<byte>, i: nat, j: nat)
    requires i + 1 < |p| && |p| - 1 - i <= j < |p|
    requires Compatible(p, j, |p| - 1 - i)
    ensures Lcs(p, p[1..i + 1]) == |p| - 1 - j
    ensures p[i - (|p| - 1 - j)] != p[j]
  {
    var a, b := p, p[1..i + 1];
    var k := |p| - 1 - j;
    forall t | 0 <= t < k
      ensures FromEnd(a, t) == FromEnd(b, t)
    {
      assert FromEnd(b, t) == p[i - t];
      assert p[(|p| - 1 - t) - (|p| - 1 - i)] == p[|p| - 1 - t];
    }
    if k < |b| {
      assert FromEnd(b, k) == p[j - (|p| - 1 - i)];
    }
  }

  lemma PassStepSafe(p: seq<byte>, g: seq<int>, i: nat, h: seq<int>, n: nat)
    requires n == i + 1 && n < |p| && |g| == |p| && SafeUpTo(p, g, i)
    requires h == PassStep(p, g, i)
    ensures SafeUpTo(p, h, n)
  {
    var l := Lcs(p, p[1..i + 1]);
    forall j, d | 0 <= j < |p| && 1 <= d && Compatible(p, j, d) && (j < d || |p| - 1 - d < i + 1)
      ensures h[j] - (|p| - 1 - j) <= d
    {
      if p[i - l] != p[|p| - 1 - l] && j == |p| - 1 - l {
        assert h[j] - (|p| - 1 - j) == |p| - 1 - i;
      } else if d <= j && d == |p| - 1 - i {
        CompatibleFound(p, i, j);
      }
    }
  }

  lemma {:induction false} SecondPassSafe(p: seq<byte>, n: nat)
    requires n < |p|
    ensures SafeUpTo(p, SecondPass(p, n), n)
  {
    if n == 0 {
      FirstPassSafe(p, SecondPass(p, 0));
    } else {
      SecondPassSafe(p, n - 1);
      PassStepSafe(p, SecondPass(p, n - 1), n - 1, SecondPass(p, n), n);
    }
  }

  /** Every goodSuffixSkip[j] is at least last-j+1, so a mismatch always
      moves the cursor forward (bmatch_test.go:483-498, 526), and it never
      moves the window past a shift the pattern leaves open. */
  lemma GoodSuffixSafe(p: seq<byte>)
    ensures forall j :: 0 <= j < |p| ==> |p| - j <= GoodSuffix(p)[j]
    ensures forall j, d :: 0 <= j < |p| && 1 <= d && Compatible(p, j, d) ==>
              GoodSuffix(p)[j] - (|p| - 1 - j) <= d
  {
    if 1 <= |p| {
      SecondPassSafe(p, |p| - 1);
    }
  }

  // ---------------------------------------------------------------------
  // The finder

  /** An occurrence at or after a window that failed at position j lies
      a compatible shift further on, and brings text[s+j] to a position of
      the pattern before j. */
  lemma OccursShift(text: seq<byte>, p: seq<byte>, s: nat, j: nat, x: int)
    requires j < |p| && s + |p| <= |text|
    requires forall t :: j < t < |p| ==> text[s + t] == p[t]
    requires text[s + j] != p[j]
    requires s <= x && Occurs(text, p, x)
    ensures s < x && Compatible(p, j, x - s)
    ensures x - s <= j ==> p[j - (x - s)] == text[s + j]
  {
    OccursBytes(text, p, x);
    var d := x - s;
    assert text[x + j] == p[x + j - x];
    forall t | j < t < |p| && d <= t
      ensures p[t - d] == p[t]
    {
      assert text[x + (t - d)] == p[x + (t - d) - x];
    }
    if d <= j {
      assert text[x + (j - d)] == p[x + (j - d) - x];
    }
  }

  /** A window at s whose bytes after position j match the pattern and
      whose byte at j does not: no occurrence starts before the window the
      finder moves to next, whichever of the two tables decides, and that
      window lies beyond this one. */
  lemma MismatchSafe(text: seq<byte>, p: seq<byte>, s: nat, j: nat)
    requires j < |p| && s + |p| <= |text|
    requires forall t :: j < t < |p| ==> text[s + t] == p[t]
    requires text[s + j] != p[j]
    requires forall x :: 0 <= x < s ==> !Occurs(text, p, x)
    ensures |p| <= j + Max(BadChar(p, text[s + j]), GoodSuffix(p)[j])
    ensures forall x :: 0 <= x < s + j + Max(BadChar(p, text[s + j]), GoodSuffix(p)[j]) - (|p| - 1) ==>
              !Occurs(text, p, x)
  {
    var c := text[s + j];
    var skip := Max(BadChar(p, c), GoodSuffix(p)[j]);
    GoodSuffixSafe(p);
    forall x | s <= x && Occurs(text, p, x)
      ensures s + j + skip - (|p| - 1) <= x
    {
      OccursShift(text, p, s, j, x);
      BadCharSpec(p, c);
      assert GoodSuffix(p)[j] - (|p| - 1 - j) <= x - s;
      assert x - s <= j ==> BadChar(p, c) <= |p| - 1 - (j - (x - s));
    }
  }

  /** badCharSkip as makeStringFinder fills it (bmatch_test.go:470-478). */
  method BuildBadCharSkip(pattern: seq<byte>) returns (bc: array<int>)
    ensures fresh(bc) && IsBadCharTable(pattern, bc[..])
  {
    var m := |pattern|;
    bc := new int[Alphabet];
    var i := 0;
    while i < Alphabet
      invariant 0 <= i <= Alphabet
      invariant forall c :: 0 <= c < i ==> bc[c] == m
    {
      bc[i] := m;
      i := i + 1;
    }
    assert 1 <= m ==> bc[..] == BadCharTableUpTo(pattern, 0);
    i := 0;
    while i < m - 1
      invariant 0 <= i
      invariant 1 <= m ==> i <= m - 1 && bc[..] == BadCharTableUpTo(pattern, i)
      invariant m == 0 ==> forall c :: 0 <= c < Alphabet ==> bc[c] == 0
    {
      bc[pattern[i] as int] := m - 1 - i;
      i := i + 1;
    }
    if 1 <= m {
      BadCharTableFull(pattern);
    } else {
      forall c: byte
        ensures bc[..][c as int] == BadChar(pattern, c)
      {
        assert bc[c as int] == 0;
      }
    }
  }

  /** longestCommonSuffix (bmatch_test.go:503-510). */
  method LongestCommonSuffix(a: seq<byte>, b: seq<byte>) returns (i: nat)
    ensures i == Lcs(a, b)
  {
    i := 0;
    while i < |a| && i < |b|
      invariant i <= |a| && i <= |b| && LcsFrom(a, b, i) == Lcs(a, b)
    {
      if a[|a| - 1 - i] != b[|b| - 1 - i] {
        break;
      }
      i := i + 1;
    }
  }

  /** The first pass over goodSuffixSkip (bmatch_test.go:480-490): from
      the last position down, the shift to the nearest later start of a
      prefix plus the length of the suffix. */
  method FillFirstPass(pattern: seq<byte>, gs: array<int>)
    requires gs.Length == |pattern|
    modifies gs
    ensures gs[..] == FirstPass(pattern)
  {
    var last := |pattern| - 1;
    var lastPrefix := last;
    var i := last;
    while i >= 0
      invariant -1 <= i <= last
      invariant lastPrefix == if i == last then last else LastPrefix(pattern, i + 1)
      invariant forall t :: i < t < |pattern| ==> gs[t] == FirstPass(pattern)[t]
    {
      if HasPrefix(pattern, pattern[i + 1..]) {
        lastPrefix := i + 1;
      }
      gs[i] := lastPrefix + last - i;
      i := i - 1;
    }
  }

  /** Iteration i of the second pass: the suffix the pattern shares with
      p[1..i+1], and a store where the bytes before it differ. */
  method PassStore(pattern: seq<byte>, gs: array<int>, i: nat)
    requires i + 1 < |pattern| && gs.Length == |pattern|
    modifies gs
    ensures gs[..] == PassStep(pattern, old(gs[..]), i)
  {
    var last := |pattern| - 1;
    var lenSuffix := LongestCommonSuffix(pattern, pattern[1..i + 1]);
    if pattern[i - lenSuffix] != pattern[last - lenSuffix] {
      gs[last - lenSuffix] := lenSuffix + last - i;
    }
  }

  /** The second pass over goodSuffixSkip (bmatch_test.go:491-498). */
  method FillSecondPass(pattern: seq<byte>, gs: array<int>)
    requires gs[..] == FirstPass(pattern)
    modifies gs
    ensures gs[..] == GoodSuffix(pattern)
  {
    var last := |pattern| - 1;
    var i := 0;
    while i < last
      invariant 0 <= i
      invariant 1 <= |pattern| ==> i <= last && gs[..] == SecondPass(pattern, i)
    {
      PassStore(pattern, gs, i);
      i := i + 1;
    }
  }

  /** goodSuffixSkip as makeStringFinder fills it. */
  method BuildGoodSuffixSkip(pattern: seq<byte>) returns (gs: array<int>)
    ensures fresh(gs) && gs[..] == GoodSuffix(pattern)
  {
    gs := new int[|pattern|];
    FillFirstPass(pattern, gs);
    FillSecondPass(pattern, gs);
  }

  /** stringFinder (bmatch_test.go:418-459): the pattern and its two skip
      tables, filled once by makeStringFinder and only read afterwards. */
  class StringFinder {
    const pattern: seq<byte>
    const badCharSkip: array<int>
    const goodSuffixSkip: array<int>

    ghost predicate Valid()
      reads badCharSkip, goodSuffixSkip
    {
      IsBadCharTable(pattern, badCharSkip[..]) && goodSuffixSkip[..] == GoodSuffix(pattern)
    }

    /** makeStringFinder (bmatch_test.go:461-501). */
    constructor (pattern: seq<byte>)
      ensures this.pattern == pattern && Valid()
    {
      this.pattern := pattern;
      var bc := BuildBadCharSkip(pattern);
      var gs := BuildGoodSuffixSkip(pattern);
      badCharSkip := bc;
      goodSuffixSkip := gs;
    }

    /** next (bmatch_test.go:512-529): compare each window from its last
        byte backwards, and on a mismatch move by the larger of the two
        tables' skips. The result is the first occurrence, or -1, as its
        doc comment promises. */
    method Next(text: seq<byte>) returns (r: int)
      requires Valid()
      ensures r == Index(text, pattern)
    {
      var m := |pattern|;
      var i: int := m - 1;
      while i < |text|
        invariant m - 1 <= i
        invariant forall x :: 0 <= x < i - (m - 1) ==> !Occurs(text, pattern, x)
        decreases |text| - i
      {
        ghost var s := i - (m - 1);
        var j := m - 1;
        while j >= 0 && text[i] == pattern[j]
          invariant -1 <= j <= m - 1 && i == s + j
          invariant forall t :: j < t < m ==> text[s + t] == pattern[t]
        {
          i := i - 1;
          j := j - 1;
        }
        if j < 0 {
          OccursBytes(text, pattern, s);
          return i + 1;
        }
        assert badCharSkip[..][text[i] as int] == BadChar(pattern, text[i]);
        assert goodSuffixSkip[..][j] == GoodSuffix(pattern)[j];
        MismatchSafe(text, pattern, s, j);
        i := i + Max(badCharSkip[text[i] as int], goodSuffixSkip[j]);
      }
      return -1;
    }
  }

  // ---------------------------------------------------------------------
  // The reference loops

  /** The occurrence strBMCount can miss once its cursor is at `off`: one
      that ends the haystack and is reached with exactly the needle's
      length of text left, its predecessor sitting one byte before it. */
  ghost predicate MissedFrom(hay: seq<byte>, needle: seq<byte>, off: nat) {
    var e := |hay| - |needle|;
    Occurs(hay, needle, e) && (e == off || (off < e && Occurs(hay, needle, e - 1)))
  }

  /** The occurrence strBMCount misses over the whole haystack. */
  ghost predicate MissedAtEnd(hay: seq<byte>, needle: seq<byte>) {
    MissedFrom(hay, needle, 0)
  }

  /** The occurrences strBMCount still counts once its cursor is at
      `off`. */
  ghost function BMLeft(hay: seq<byte>, needle: seq<byte>, off: nat): int {
    |OccurrencesFrom(hay, needle, off)| - if MissedFrom(hay, needle, off) then 1 else 0
  }

  /** Where strBMCount's guard stops the loop, nothing is left to count. */
  lemma CountGuardExit(hay: seq<byte>, needle: seq<byte>, off: nat)
    requires |hay| - off <= |needle|
    ensures BMLeft(hay, needle, off) == 0
  {
    if off + |needle| <= |hay| {
      OccurrencesFromCons(hay, needle, off);
    }
  }

  /** One iteration of strBMCount, on the search result `idx` for the
      rest `s` of the haystack from `off`. */
  lemma StrBMCountStep(hay: seq<byte>, needle: seq<byte>, off: nat, s: seq<byte>, idx: int)
    requires off + |needle| < |hay| && s == hay[off..]
    requires idx == Index(s, needle)
    ensures idx == -1 ==> BMLeft(hay, needle, off) == 0
    ensures idx != -1 ==>
      0 <= idx && off + idx + 1 <= |hay| && s[idx + 1..] == hay[off + idx + 1..] &&
      BMLeft(hay, needle, off) == 1 + BMLeft(hay, needle, off + idx + 1)
  {
    IndexOfSuffix(hay, needle, off);
    OccurrencesFromHead(hay, needle, off);
  }

  /** A Boyer-Moore search of the rest `s` of the haystack from `off`,
      with what it means for strBMCount's tally. */
  method NextCountedBM(strFind: StringFinder, hay: seq<byte>, ghost off: nat, s: seq<byte>) returns (idx: int)
    requires strFind.Valid() && off + |strFind.pattern| < |hay| && s == hay[off..]
    ensures idx == -1 ==> BMLeft(hay, strFind.pattern, off) == 0
    ensures idx != -1 ==>
      0 <= idx && off + idx + 1 <= |hay| && s[idx + 1..] == hay[off + idx + 1..] &&
      BMLeft(hay, strFind.pattern, off) == 1 + BMLeft(hay, strFind.pattern, off + idx + 1)
  {
    idx := strFind.Next(s);
    StrBMCountStep(hay, strFind.pattern, off, s, idx);
  }

  /** A Boyer-Moore search of the rest `s` of the haystack from `off`,
      with what it means for a count without a length guard. */
  method NextCounted(strFind: StringFinder, hay: seq<byte>, ghost off: nat, s: seq<byte>) returns (idx: int)
    requires strFind.Valid() && 1 <= |strFind.pattern| && off <= |hay| && s == hay[off..]
    ensures idx == -1 ==> Left(hay, strFind.pattern, off) == 0
    ensures idx != -1 ==>
      0 <= idx && off + idx + 1 <= |hay| && s[idx + 1..] == hay[off + idx + 1..] &&
      Left(hay, strFind.pattern, off) == 1 + Left(hay, strFind.pattern, off + idx + 1)
  {
    idx := strFind.Next(s);
    CountStepAll(hay, strFind.pattern, off, s, idx);
  }

  /** A Boyer-Moore search of the rest `s` of the haystack from `off`,
      with what it means for the list of offsets found so far. */
  method NextFound(strFind: StringFinder, hay: seq<byte>, off: nat, s: seq<byte>, ghost found: seq<int>, ghost total: seq<int>) returns (idx: int)
    requires strFind.Valid() && 1 <= |strFind.pattern| && off <= |hay| && s == hay[off..]
    requires found + OccurrencesFrom(hay, strFind.pattern, off) == total
    ensures idx == -1 ==> found == total
    ensures idx != -1 ==>
      0 <= idx && off + idx + 1 <= |hay| && s[idx + 1..] == hay[off + idx + 1..] &&
      (found + [off + idx]) + OccurrencesFrom(hay, strFind.pattern, off + idx + 1) == total
  {
    idx := strFind.Next(s);
    FindStep(hay, strFind.pattern, off, s, idx, found, total);
  }

  /** strBMFI (bmatch_test.go:557-566). */
  method StrBMFirst(haystack: seq<byte>, needle: seq<byte>) returns (found: int)
    ensures found == Index(haystack, needle)
  {
    var strFind := new StringFinder(needle);
    found := strFind.Next(haystack);
  }

  /** strBMCount (bmatch_test.go:538-555): the loop runs only while the
      rest of the text is longer than the needle, so it counts every
      occurrence but the one MissedAtEnd names. */
  method StrBMCount(haystack: seq<byte>, needle: seq<byte>) returns (found: int)
    ensures found == |Occurrences(haystack, needle)| - if MissedAtEnd(haystack, needle) then 1 else 0
  {
    var strFind := new StringFinder(needle);
    found := CountWith(strFind, haystack);
  }

  /** The loop of StrBMCount, on a finder built for its needle. */
  method CountWith(strFind: StringFinder, haystack: seq<byte>) returns (found: int)
    requires strFind.Valid()
    ensures found == BMLeft(haystack, strFind.pattern, 0)
  {
    var s := haystack;
    ghost var off: nat := 0;
    found := 0;
    while |s| > |strFind.pattern|
      invariant off <= |haystack| && s == haystack[off..]
      invariant found + BMLeft(haystack, strFind.pattern, off) == BMLeft(haystack, strFind.pattern, 0)
      decreases |s|
    {
      var idx := NextCountedBM(strFind, haystack, off, s);
      if idx == -1 {
        break;
      }
      found := found + 1;
      s := s[idx + 1..];
      off := off + idx + 1;
    }
    if |s| <= |strFind.pattern| {
      CountGuardExit(haystack, strFind.pattern, off);
    }
  }

  /** strBMCount with the guard |s| >= |needle|, which also counts a match
      filling the rest of the text. */
  method StrBMCountFixed(haystack: seq<byte>, needle: seq<byte>) returns (found: int)
    requires 1 <= |needle|
    ensures found == |Occurrences(haystack, needle)|
  {
    var strFind := new StringFinder(needle);
    found := CountFixedWith(strFind, haystack);
  }

  /** The loop of StrBMCountFixed, on a finder built for its needle. */
  method CountFixedWith(strFind: StringFinder, haystack: seq<byte>) returns (found: int)
    requires strFind.Valid() && 1 <= |strFind.pattern|
    ensures found == |Occurrences(haystack, strFind.pattern)|
  {
    var s := haystack;
    ghost var off: nat := 0;
    found := 0;
    while |s| >= |strFind.pattern|
      invariant off <= |haystack| && s == haystack[off..]
      invariant found + Left(haystack, strFind.pattern, off) == Left(haystack, strFind.pattern, 0)
      decreases |s|
    {
      var idx := NextCounted(strFind, haystack, off, s);
      if idx == -1 {
        break;
      }
      found := found + 1;
      s := s[idx + 1..];
      off := off + idx + 1;
    }
    if |s| < |strFind.pattern| {
      assert OccurrencesFrom(haystack, strFind.pattern, off) == [];
    }
  }

  /** strBMFindAll (bmatch_test.go:568-589): every occurrence, as absolute
      offsets in ascending order. An empty needle makes the loop slice
      past the end of the text, so the needle holds a byte. */
  method StrBMFindAll(haystack: seq<byte>, needle: seq<byte>) returns (found: seq<int>)
    requires 1 <= |needle|
    ensures found == Occurrences(haystack, needle)
  {
    var strFind := new StringFinder(needle);
    found := FindAllWith(strFind, haystack);
  }

  /** The loop of strBMFindAll, on a finder built for its needle. */
  method FindAllWith(strFind: StringFinder, haystack: seq<byte>) returns (found: seq<int>)
    requires strFind.Valid() && 1 <= |strFind.pattern|
    ensures found == Occurrences(haystack, strFind.pattern)
  {
    var s := haystack;
    var lastIdx := 0;
    found := [];
    ghost var total := Occurrences(haystack, strFind.pattern);
    while true
      invariant 0 <= lastIdx <= |haystack| && s == haystack[lastIdx..]
      invariant found + OccurrencesFrom(haystack, strFind.pattern, lastIdx) == total
      decreases |s|
    {
      var idx := NextFound(strFind, haystack, lastIdx, s, found, total);
      if idx == -1 {
        break;
      }
      found := found + [lastIdx + idx];
      lastIdx := lastIdx + idx + 1;
      s := s[idx + 1..];
    }
  }

  /** bytesIndexCount (bmatch_test.go:591-606): with no length guard it
      counts every occurrence, the length of bytesIndexFindAll's list. */
  method BytesIndexCount(haystack: seq<byte>, needle: seq<byte>) returns (found: int)
    requires 1 <= |needle|
    ensures found == |Occurrences(haystack, needle)|
  {
    var s := haystack;
    ghost var off: nat := 0;
    found := 0;
    while true
      invariant off <= |haystack| && s == haystack[off..]
      invariant found + Left(haystack, needle, off) == Left(haystack, needle, 0)
      decreases |s|
    {
      var idx := IndexCounted(haystack, needle, off, s);
      if idx == -1 {
        break;
      }
      found := found + 1;
      s := s[idx + 1..];
      off := off + idx + 1;
    }
  }

  /** bytesIndexFindAll (bmatch_test.go:615-634). */
  method BytesIndexFindAll(haystack: seq<byte>, needle: seq<byte>) returns (found: seq<int>)
    requires 1 <= |needle|
    ensures found == Occurrences(haystack, needle)
  {
    var s := haystack;
    var lastIdx := 0;
    found := [];
    ghost var total := Occurrences(haystack, needle);
    while true
      invariant 0 <= lastIdx <= |haystack| && s == haystack[lastIdx..]
      invariant found + OccurrencesFrom(haystack, needle, lastIdx) == total
      decreases |s|
    {
      var idx := IndexFound(haystack, needle, lastIdx, s, found, total);
      if idx == -1 {
        break;
      }
      found := found + [lastIdx + idx];
      lastIdx := lastIdx + idx + 1;
      s := s[idx + 1..];
    }
  }

  /** strBMCount and bytesIndexCount disagree: with haystack 11 and
      needle 1 the occurrence at 1 fills the text left after the one at
      0, and strBMCount stops before it. */
  lemma StrBMCountMissesEnd()
    ensures Occurrences([1, 1], [1]) == [0, 1]
    ensures MissedAtEnd([1, 1], [1])
  {
    assert Occurs([1, 1], [1], 0) && Occurs([1, 1], [1], 1);
    assert OccurrencesFrom([1, 1], [1], 2) == [];
    assert OccurrencesFrom([1, 1], [1], 1) == [1] + OccurrencesFrom([1, 1], [1], 2);
    assert OccurrencesFrom([1, 1], [1], 0) == [0] + OccurrencesFrom([1, 1], [1], 1);
  }
}
