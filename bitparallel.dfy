// The bit-parallel engine of bs_fsbndm/search.go, a variant of the Forward
// Simplified BNDM algorithm of Faro and Lecroq.
//
// Every byte value c owns a 64-bit mask: bit 0 is always set, and bit k
// (1 <= k <= p) is set when c is the needle's k-th byte counted from its end.
// The cursor i marks the last byte of a window; the engine ANDs the masks of
// hay[i+1] and hay[i] and then keeps shifting and ANDing the masks of
// hay[i-1], hay[i-2], ... until the word becomes zero. p is the whole needle
// length in short mode (m <= 63) and 62 in long mode, where only the
// needle's last 62 bytes drive the shifts and a candidate is confirmed by
// comparing the whole needle.

module BitParallel {
  import opened Bytes
  import opened Bits

  /** The window width p (bs_fsbndm/search.go:49, 57-59). */
  function Window(m: nat): (p: nat)
    ensures p <= 63 && p <= m
    ensures m <= 63 ==> p == m
    ensures m > 63 ==> p == 62
  {
    if m > 63 then 62 else m
  }

  // ---------------------------------------------------------------------
  // The mask table

  /** bitPat[c] after the first `i` window positions have been entered. */
  function MaskUpTo(needle: seq<byte>, c: byte, i: nat): bv64
    requires i <= Window(|needle|)
  {
    var p := Window(|needle|);
    if i == 0 then 1
    else if needle[|needle| - p + i - 1] == c then SetBit(MaskUpTo(needle, c, i - 1), p - i + 1)
    else MaskUpTo(needle, c, i - 1)
  }

  /** The finished mask of byte value `c`. */
  function Mask(needle: seq<byte>, c: byte): bv64 {
    MaskUpTo(needle, c, Window(|needle|))
  }

  lemma {:induction false} MaskUpToBits(needle: seq<byte>, c: byte, i: nat, k: Idx)
    requires i <= Window(|needle|)
    ensures Bit(MaskUpTo(needle, c, i), k) <==>
      k == 0 || (Window(|needle|) - i < k as int <= Window(|needle|) && needle[|needle| - k as int] == c)
  {
    var p := Window(|needle|);
    if i == 0 {
      OneBit(k);
    } else {
      if needle[|needle| - p + i - 1] == c {
        SetBitBits(MaskUpTo(needle, c, i - 1), p - i + 1, k);
      }
      MaskUpToBits(needle, c, i - 1, k);
    }
  }

  /** Every mask has bit 0 set, and bit k (1 <= k <= p) exactly when `c` is
      the needle's byte m-k (bs_fsbndm/search.go:61-71). */
  lemma MaskBits(needle: seq<byte>, c: byte, k: Idx)
    ensures Bit(Mask(needle, c), k) <==>
      k == 0 || (k as int <= Window(|needle|) && needle[|needle| - k as int] == c)
  {
    MaskUpToBits(needle, c, Window(|needle|), k);
  }

  /** `masks` is the table bitPat of the needle: entry c is the mask of c. */
  ghost predicate IsMaskTable(needle: seq<byte>, masks: seq<bv64>) {
    |masks| == Alphabet && forall c: byte {:trigger Mask(needle, c)} :: masks[c as int] == Mask(needle, c)
  }

  /** The table bitPat of the needle, indexed by byte value. */
  function MaskTable(needle: seq<byte>): (t: seq<bv64>)
    ensures IsMaskTable(needle, t)
  {
    var t := seq(Alphabet, j requires 0 <= j < Alphabet => Mask(needle, j as byte));
    assert forall c: byte {:trigger Mask(needle, c)} :: t[c as int] == Mask(needle, c) by {
      forall c: byte
        ensures t[c as int] == Mask(needle, c)
      {
        assert (c as int) as byte == c;
      }
    }
    t
  }

  /** There is only one such table. */
  lemma MaskTableUnique(needle: seq<byte>, masks: seq<bv64>)
    requires IsMaskTable(needle, masks)
    ensures masks == MaskTable(needle)
  {
    var t := MaskTable(needle);
    forall j | 0 <= j < Alphabet
      ensures masks[j] == t[j]
    {
      var c := ByteOf(j);
      assert masks[c as int] == Mask(needle, c) == t[c as int];
    }
  }

  /** The table after the loop of bs_fsbndm/search.go:68-71 has entered the
      first `i` bytes of the window, one array store at a time. */
  function TableUpTo(needle: seq<byte>, i: nat): (t: seq<bv64>)
    requires i <= Window(|needle|)
    ensures |t| == Alphabet
  {
    if i == 0 then seq(Alphabet, _ => 1)
    else
      var p := Window(|needle|);
      var t := TableUpTo(needle, i - 1);
      var b := needle[|needle| - p + i - 1] as int;
      t[b := SetBit(t[b], p - i + 1)]
  }

  /** Each entry of the partial table is the partial mask of its byte. */
  lemma {:induction false} TableUpToEntry(needle: seq<byte>, i: nat, c: byte)
    requires i <= Window(|needle|)
    ensures TableUpTo(needle, i)[c as int] == MaskUpTo(needle, c, i)
  {
    if i == 0 {
      TableUpToStart(needle, c);
    } else {
      TableUpToEntry(needle, i - 1, c);
      TableUpToStep(needle, i, c);
    }
  }

  lemma TableUpToStart(needle: seq<byte>, c: byte)
    ensures TableUpTo(needle, 0)[c as int] == MaskUpTo(needle, c, 0)
  {
    var t := TableUpTo(needle, 0);
    assert t == seq(Alphabet, _ => 1);
  }

  lemma TableUpToStep(needle: seq<byte>, i: nat, c: byte)
    requires 1 <= i <= Window(|needle|)
    requires TableUpTo(needle, i - 1)[c as int] == MaskUpTo(needle, c, i - 1)
    ensures TableUpTo(needle, i)[c as int] == MaskUpTo(needle, c, i)
  {
    var p := Window(|needle|);
    var prev := TableUpTo(needle, i - 1);
    var b := needle[|needle| - p + i - 1];
    TableStore(prev, b, c, MaskUpTo(needle, c, i - 1), p - i + 1, TableUpTo(needle, i), MaskUpTo(needle, c, i));
  }

  /** Storing a set bit into entry `b` of a byte-indexed table leaves the
      other entries alone. */
  lemma TableStore(prev: seq<bv64>, b: byte, c: byte, before: bv64, j: nat, t: seq<bv64>, after: bv64)
    requires |prev| == Alphabet && j < 64 && prev[c as int] == before
    requires t == prev[b as int := SetBit(prev[b as int], j)]
    requires after == if b == c then SetBit(before, j) else before
    ensures t[c as int] == after
  {
    if c != b {
      ByteIndexDistinct(c, b);
    }
  }

  /** Once the whole window is entered the partial table is the mask table. */
  lemma TableUpToFull(needle: seq<byte>)
    ensures TableUpTo(needle, Window(|needle|)) == MaskTable(needle)
  {
    var t := TableUpTo(needle, Window(|needle|));
    forall c: byte
      ensures t[c as int] == Mask(needle, c)
    {
      TableUpToEntry(needle, Window(|needle|), c);
    }
    assert IsMaskTable(needle, t);
    MaskTableUnique(needle, t);
  }

  // ---------------------------------------------------------------------
  // The backward walk

  /** The engine's step `(bits << 1) & bitPat[c]`. */
  function ShiftAnd(bits: bv64, mask: bv64): bv64 {
    (bits << 1) & mask
  }

  /** The word `bits` after `s` backward steps from cursor `i`. */
  function Walk(hay: seq<byte>, masks: seq<bv64>, i: nat, s: nat): bv64
    requires |masks| == Alphabet && s <= i < |hay| - 1
    decreases s
  {
    if s == 0 then ShiftAnd(masks[hay[i + 1] as int], masks[hay[i] as int])
    else ShiftAnd(Walk(hay, masks, i, s - 1), masks[hay[i - s] as int])
  }

  /** Where the needle starts when its byte m-k sits on hay[i-s]. */
  function Start(needle: seq<byte>, i: nat, s: nat, k: int): int {
    i - s - (|needle| - k)
  }

  /** Alignment k after s steps: the needle byte m-k sits on hay[i-s] and
      the needle agrees with the haystack from there up to hay[i], and on
      hay[i+1] too unless the needle ends at hay[i]. Defined step by step,
      the way the walk word extends it. */
  predicate Aligned(hay: seq<byte>, needle: seq<byte>, i: nat, s: nat, k: int)
    requires s <= i < |hay| - 1
    decreases s
  {
    var m := |needle|;
    if s == 0 then
      1 <= k <= Window(m) && hay[i] == needle[m - k] && (k == 1 || hay[i + 1] == needle[m - k + 1])
    else
      s + 1 <= k <= Window(m) && Aligned(hay, needle, i, s - 1, k - 1) && hay[i - s] == needle[m - k]
  }

  /** An alignment after s steps is one of s+1..p. */
  lemma AlignedBound(hay: seq<byte>, needle: seq<byte>, i: nat, s: nat, k: int)
    requires s <= i < |hay| - 1
    ensures Aligned(hay, needle, i, s, k) ==> s + 1 <= k <= Window(|needle|)
  {
  }

  /** The same alignment as agreement on a whole stretch of the haystack. */
  lemma {:induction false} AlignedAgrees(hay: seq<byte>, needle: seq<byte>, i: nat, s: nat, k: int)
    requires s <= i < |hay| - 1
    ensures var x := Start(needle, i, s, k);
      Aligned(hay, needle, i, s, k) <==>
        s + 1 <= k <= Window(|needle|)
        && (forall j :: i - s <= j <= i ==> hay[j] == needle[j - x])
        && (k == s + 1 || hay[i + 1] == needle[i + 1 - x])
    decreases s
  {
    if s > 0 {
      AlignedAgrees(hay, needle, i, s - 1, k - 1);
      assert Start(needle, i, s - 1, k - 1) == Start(needle, i, s, k);
    }
  }

  /** MaskBits, read through a mask table. */
  lemma TableBits(needle: seq<byte>, masks: seq<bv64>, c: byte, k: Idx)
    requires IsMaskTable(needle, masks)
    ensures Bit(masks[c as int], k) <==>
      k == 0 || (k as int <= Window(|needle|) && needle[|needle| - k as int] == c)
  {
    assert masks[c as int] == Mask(needle, c);
    MaskBits(needle, c, k);
  }

  /** The first walk word: bit k is set exactly for alignment k at hay[i]. */
  lemma WalkBitsFirst(hay: seq<byte>, needle: seq<byte>, masks: seq<bv64>, i: nat, k: Idx)
    requires IsMaskTable(needle, masks)
    requires i < |hay| - 1
    ensures Bit(Walk(hay, masks, i, 0), k) <==> Aligned(hay, needle, i, 0, k as int)
  {
    ShlAndBit(masks[hay[i + 1] as int], masks[hay[i] as int], Walk(hay, masks, i, 0), k);
    TableBits(needle, masks, hay[i], k);
    if k != 0 {
      PredIdx(k);
      TableBits(needle, masks, hay[i + 1], k - 1);
    }
  }

  /** Bit k of the walk word is set exactly for the alignments k that agree
      with the haystack so far. */
  lemma {:induction false} WalkBits(hay: seq<byte>, needle: seq<byte>, masks: seq<bv64>, i: nat, s: nat, k: Idx)
    requires IsMaskTable(needle, masks)
    requires s <= i < |hay| - 1
    ensures Bit(Walk(hay, masks, i, s), k) <==> Aligned(hay, needle, i, s, k as int)
    decreases s
  {
    if s == 0 {
      WalkBitsFirst(hay, needle, masks, i, k);
    } else {
      var w := Walk(hay, masks, i, s);
      var below := Walk(hay, masks, i, s - 1);
      var here := masks[hay[i - s] as int];
      ShlAndBit(below, here, w, k);
      TableBits(needle, masks, hay[i - s], k);
      if k == 0 {
        assert !Aligned(hay, needle, i, s, 0);
      } else {
        PredIdx(k);
        WalkBits(hay, needle, masks, i, s - 1, k - 1);
        AlignedBound(hay, needle, i, s - 1, k as int - 1);
      }
    }
  }

  /** After p backward steps the word is zero: the walk always stops. */
  lemma WalkVanishes(hay: seq<byte>, needle: seq<byte>, masks: seq<bv64>, i: nat, s: nat)
    requires IsMaskTable(needle, masks)
    requires s <= i < |hay| - 1
    requires Window(|needle|) <= s
    ensures Walk(hay, masks, i, s) == 0
  {
    var w := Walk(hay, masks, i, s);
    if w != 0 {
      var k := NonzeroBit(w);
      WalkBits(hay, needle, masks, i, s, k);
    }
  }

  /** An occurrence starting at x and ending at most p-s bytes right of the
      cursor `i` keeps the walk word nonzero for s steps. */
  lemma OccurrenceKeepsWalk(hay: seq<byte>, needle: seq<byte>, masks: seq<bv64>, i: nat, s: nat, x: int)
    requires IsMaskTable(needle, masks)
    requires s <= i < |hay| - 1
    requires Occurs(hay, needle, x)
    requires i <= x + |needle| - 1 && s + (x + |needle| - i) <= Window(|needle|)
    ensures Walk(hay, masks, i, s) != 0
  {
    var m := |needle|;
    OccursBytes(hay, needle, x);
    var k := IdxOf(s + x + m - i);
    assert Start(needle, i, s, k as int) == x;
    AlignedAgrees(hay, needle, i, s, k as int);
    WalkBits(hay, needle, masks, i, s, k);
    if Walk(hay, masks, i, s) == 0 {
      ZeroBit(k);
    }
  }

  /** In short mode a walk that survives m-1 steps has found the needle
      ending at hay[i] (bs_fsbndm/search.go:106-122). */
  lemma ShortWalkFindsNeedle(hay: seq<byte>, needle: seq<byte>, masks: seq<bv64>, i: nat)
    requires IsMaskTable(needle, masks)
    requires 1 <= |needle| <= 63 && |needle| <= i < |hay| - 1
    ensures Walk(hay, masks, i, |needle| - 1) != 0 <==> Occurs(hay, needle, i - |needle| + 1)
  {
    var m := |needle|;
    var w := Walk(hay, masks, i, m - 1);
    OccursBytes(hay, needle, i - m + 1);
    if w != 0 {
      var k := NonzeroBit(w);
      WalkBits(hay, needle, masks, i, m - 1, k);
      AlignedAgrees(hay, needle, i, m - 1, k as int);
    }
    if Occurs(hay, needle, i - m + 1) {
      OccurrenceKeepsWalk(hay, needle, masks, i, m - 1, i - m + 1);
    }
  }

  /** The final value of backstp: the number of backward steps, starting at
      step `s`, after which the walk word is zero. */
  function Backstop(hay: seq<byte>, needle: seq<byte>, masks: seq<bv64>, i: nat, s: nat): (b: nat)
    requires IsMaskTable(needle, masks)
    requires 1 <= s <= Window(|needle|) <= i < |hay| - 1
    requires Walk(hay, masks, i, s - 1) != 0
    ensures s <= b <= Window(|needle|)
    ensures Walk(hay, masks, i, b) == 0
    ensures forall r :: s - 1 <= r < b ==> Walk(hay, masks, i, r) != 0
    decreases Window(|needle|) - s
  {
    if Walk(hay, masks, i, s) == 0 then s
    else
      assert s < Window(|needle|) by {
        if s >= Window(|needle|) {
          WalkVanishes(hay, needle, masks, i, s);
        }
      }
      Backstop(hay, needle, masks, i, s + 1)
  }

  // ---------------------------------------------------------------------
  // One outer iteration and the scans built from it

  /** The outcome of one probe: the next cursor and whether an occurrence
      ending at the current cursor is reported. */
  datatype Move = Move(next: int, hit: bool)

  /** One iteration of the outer search loop at cursor `i`, as in findALL
      and count; findFI returns at a hit instead of moving on. */
  function Step(hay: seq<byte>, needle: seq<byte>, masks: seq<bv64>, i: nat): (r: Move)
    requires IsMaskTable(needle, masks)
    requires 1 <= |needle| <= i < |hay| - 1
    ensures i < r.next
  {
    var m := |needle|;
    var p := Window(m);
    if Walk(hay, masks, i, 0) == 0 then Move(i + p, false)
    else
      var b := Backstop(hay, needle, masks, i, 1);
      if m > 63 then
        if i + p - b == i then
          if needle == hay[i - m + 1..i + 1] then Move(i + 2, true) else Move(i + 1, false)
        else Move(i + p - b, false)
      else if b == m then Move(i + 1, true)
      else Move(i + m - b, false)
  }

  /** A probe reports only true occurrences, and no occurrence ends between
      the cursor and the next cursor, except the reported one and, in long
      mode right after a report, the one ending one byte later. */
  lemma StepSafe(hay: seq<byte>, needle: seq<byte>, masks: seq<bv64>, i: nat)
    requires IsMaskTable(needle, masks)
    requires 1 <= |needle| <= i < |hay| - 1
    ensures Step(hay, needle, masks, i).hit ==> Occurs(hay, needle, i - |needle| + 1)
    ensures Step(hay, needle, masks, i).hit && |needle| <= 63 ==> Step(hay, needle, masks, i).next == i + 1
    ensures forall x :: i - |needle| + 1 <= x < Step(hay, needle, masks, i).next - |needle| + 1 && Occurs(hay, needle, x) ==>
      Step(hay, needle, masks, i).hit && (x == i - |needle| + 1 || (|needle| > 63 && x == i - |needle| + 2))
  {
    var m := |needle|;
    var p := Window(m);
    var r := Step(hay, needle, masks, i);
    if Walk(hay, masks, i, 0) == 0 {
      forall x | i - m + 1 <= x < r.next - m + 1
        ensures !Occurs(hay, needle, x)
      {
        if Occurs(hay, needle, x) {
          OccurrenceKeepsWalk(hay, needle, masks, i, 0, x);
        }
      }
    } else {
      var b := Backstop(hay, needle, masks, i, 1);
      forall x | i - m + 1 <= x < i + p - b - m + 1
        ensures !Occurs(hay, needle, x)
      {
        if Occurs(hay, needle, x) {
          OccurrenceKeepsWalk(hay, needle, masks, i, b, x);
        }
      }
      if m <= 63 {
        ShortWalkFindsNeedle(hay, needle, masks, i);
      }
    }
  }

  /** The value findFI's search loop returns when started at cursor `i`. */
  function ScanFirst(hay: seq<byte>, needle: seq<byte>, masks: seq<bv64>, i: nat): int
    requires IsMaskTable(needle, masks)
    requires 1 <= |needle| <= i
    decreases |hay| - i
  {
    if i >= |hay| - 1 then -1
    else
      var r := Step(hay, needle, masks, i);
      if r.hit then i - |needle| + 1 else ScanFirst(hay, needle, masks, r.next)
  }

  /** The offsets findALL's search loop appends when started at cursor `i`. */
  function ScanAll(hay: seq<byte>, needle: seq<byte>, masks: seq<bv64>, i: nat): seq<int>
    requires IsMaskTable(needle, masks)
    requires 1 <= |needle| <= i
    decreases |hay| - i
  {
    if i >= |hay| - 1 then []
    else
      var r := Step(hay, needle, masks, i);
      (if r.hit then [i - |needle| + 1] else []) + ScanAll(hay, needle, masks, r.next)
  }

  lemma ScanAllUnfold(hay: seq<byte>, needle: seq<byte>, masks: seq<bv64>, i: nat)
    requires IsMaskTable(needle, masks)
    requires 1 <= |needle| <= i < |hay| - 1
    ensures ScanAll(hay, needle, masks, i) ==
      (if Step(hay, needle, masks, i).hit then [i - |needle| + 1] else []) + ScanAll(hay, needle, masks, Step(hay, needle, masks, i).next)
  {
  }

  /** One outer iteration moves the head of the remaining scan into the
      reports gathered so far. */
  lemma ScanAllAfter(hay: seq<byte>, needle: seq<byte>, masks: seq<bv64>, i: nat, found: seq<int>)
    requires IsMaskTable(needle, masks)
    requires 1 <= |needle| <= i < |hay| - 1
    ensures var r := Step(hay, needle, masks, i);
      found + ScanAll(hay, needle, masks, i) ==
      (if r.hit then found + [i - |needle| + 1] else found) + ScanAll(hay, needle, masks, r.next)
  {
    var r := Step(hay, needle, masks, i);
    if r.hit {
      AppendAssoc(found, [i - |needle| + 1], ScanAll(hay, needle, masks, r.next));
    }
  }

  /** The same, for reports moved by a chunk offset `d`. */
  lemma ScanAllAfterShifted(hay: seq<byte>, needle: seq<byte>, masks: seq<bv64>, i: nat, found: seq<int>, d: int)
    requires IsMaskTable(needle, masks)
    requires 1 <= |needle| <= i < |hay| - 1
    ensures var r := Step(hay, needle, masks, i);
      found + Shifted(ScanAll(hay, needle, masks, i), d) ==
      (if r.hit then found + [d + i - |needle| + 1] else found) + Shifted(ScanAll(hay, needle, masks, r.next), d)
  {
    var r := Step(hay, needle, masks, i);
    ScanAllUnfold(hay, needle, masks, i);
    ShiftedAccStep(found, i - |needle| + 1, r.hit, ScanAll(hay, needle, masks, i), ScanAll(hay, needle, masks, r.next), d);
  }

  /** The search loop reports true occurrences, each starting in
      [i-m+1, n-m-1] (bs_fsbndm/search.go:79-81, 106, 204-221). */
  lemma {:induction false} ScanAllSound(hay: seq<byte>, needle: seq<byte>, masks: seq<bv64>, i: nat)
    requires IsMaskTable(needle, masks)
    requires 1 <= |needle| <= i
    ensures forall x :: x in ScanAll(hay, needle, masks, i) ==>
      Occurs(hay, needle, x) && i - |needle| + 1 <= x <= |hay| - |needle| - 1
    decreases |hay| - i
  {
    if i < |hay| - 1 {
      var r := Step(hay, needle, masks, i);
      StepSafe(hay, needle, masks, i);
      ScanAllSound(hay, needle, masks, r.next);
      var head := if r.hit then [i - |needle| + 1] else [];
      assert ScanAll(hay, needle, masks, i) == head + ScanAll(hay, needle, masks, r.next);
    }
  }

  /** The reported offsets are strictly ascending. */
  lemma {:induction false} ScanAllAscending(hay: seq<byte>, needle: seq<byte>, masks: seq<bv64>, i: nat)
    requires IsMaskTable(needle, masks)
    requires 1 <= |needle| <= i
    ensures StrictlyIncreasing(ScanAll(hay, needle, masks, i))
    decreases |hay| - i
  {
    if i < |hay| - 1 {
      var r := Step(hay, needle, masks, i);
      ScanAllAscending(hay, needle, masks, r.next);
      ScanAllSound(hay, needle, masks, r.next);
      var rest := ScanAll(hay, needle, masks, r.next);
      var head := if r.hit then [i - |needle| + 1] else [];
      assert ScanAll(hay, needle, masks, i) == head + rest;
      forall u | 0 <= u < |rest|
        ensures i - |needle| + 1 < rest[u]
      {
        assert rest[u] in rest;
      }
    }
  }

  /** In short mode the search loop misses no occurrence starting in
      [i-m+1, n-m-1]; in long mode it misses only occurrences that start
      one byte after a reported one, because a report moves the cursor on
      by two (bs_fsbndm/search.go:186-195). */
  lemma {:induction false} ScanAllComplete(hay: seq<byte>, needle: seq<byte>, masks: seq<bv64>, i: nat, x: int)
    requires IsMaskTable(needle, masks)
    requires 1 <= |needle| <= i
    requires i - |needle| + 1 <= x <= |hay| - |needle| - 1 && Occurs(hay, needle, x)
    ensures x in ScanAll(hay, needle, masks, i) || (|needle| > 63 && x - 1 in ScanAll(hay, needle, masks, i))
    decreases |hay| - i
  {
    var m := |needle|;
    var r := Step(hay, needle, masks, i);
    StepSafe(hay, needle, masks, i);
    if x >= r.next - m + 1 {
      ScanAllComplete(hay, needle, masks, r.next, x);
    }
  }

  /** In short mode the search loop lists exactly the occurrences starting in
      [1, n-m-1]. */
  lemma ShortScanAllExact(hay: seq<byte>, needle: seq<byte>, masks: seq<bv64>, x: int)
    requires IsMaskTable(needle, masks)
    requires 1 <= |needle| <= 63
    ensures x in ScanAll(hay, needle, masks, |needle|) <==> 1 <= x <= |hay| - |needle| - 1 && Occurs(hay, needle, x)
  {
    ScanAllSound(hay, needle, masks, |needle|);
    if 1 <= x <= |hay| - |needle| - 1 && Occurs(hay, needle, x) {
      ScanAllComplete(hay, needle, masks, |needle|, x);
    }
  }

  /** findFI's search loop finds the first occurrence starting in
      [i-m+1, n-m-1], or -1 when there is none. */
  lemma {:induction false} ScanFirstSpec(hay: seq<byte>, needle: seq<byte>, masks: seq<bv64>, i: nat)
    requires IsMaskTable(needle, masks)
    requires 1 <= |needle| <= i
    ensures var r := ScanFirst(hay, needle, masks, i);
      (r == -1 || (Occurs(hay, needle, r) && i - |needle| + 1 <= r <= |hay| - |needle| - 1))
      && forall x :: i - |needle| + 1 <= x <= |hay| - |needle| - 1 && (r == -1 || x < r) ==> !Occurs(hay, needle, x)
    decreases |hay| - i
  {
    if i < |hay| - 1 {
      var r := Step(hay, needle, masks, i);
      StepSafe(hay, needle, masks, i);
      if !r.hit {
        ScanFirstSpec(hay, needle, masks, r.next);
      }
    }
  }

  /** findFI's loop stops where findALL's loop makes its first report. */
  lemma {:induction false} ScanFirstIsHeadOfScanAll(hay: seq<byte>, needle: seq<byte>, masks: seq<bv64>, i: nat)
    requires IsMaskTable(needle, masks)
    requires 1 <= |needle| <= i
    ensures ScanFirst(hay, needle, masks, i) == if ScanAll(hay, needle, masks, i) == [] then -1 else ScanAll(hay, needle, masks, i)[0]
    decreases |hay| - i
  {
    if i < |hay| - 1 {
      var r := Step(hay, needle, masks, i);
      if !r.hit {
        ScanFirstIsHeadOfScanAll(hay, needle, masks, r.next);
      }
    }
  }

  // ---------------------------------------------------------------------
  // What the five search routines return

  /** findFI as written: 1 when the haystack equals the needle
      (bs_fsbndm/search.go:74-76), otherwise the search loop's answer. */
  function FindFirstAsWritten(hay: seq<byte>, needle: seq<byte>): int
    requires 1 <= |needle|
  {
    if hay == needle then 1 else ScanFirst(hay, needle, MaskTable(needle), |needle|)
  }

  /** findFI reporting a haystack equal to the needle at offset 0, as
      findFI_CC does for its chunk. */
  function FindFirstResult(hay: seq<byte>, needle: seq<byte>): int
    requires 1 <= |needle|
  {
    if hay == needle then 0 else ScanFirst(hay, needle, MaskTable(needle), |needle|)
  }

  /** findALL and count: the whole-haystack match, then the last-window
      match, then the loop's reports (bs_fsbndm/search.go:166-172). */
  function FindAllResult(hay: seq<byte>, needle: seq<byte>): seq<int>
    requires 1 <= |needle| <= |hay|
  {
    (if hay == needle then [0] else [])
    + (if hay[|hay| - |needle|..] == needle then [|hay| - |needle|] else [])
    + ScanAll(hay, needle, MaskTable(needle), |needle|)
  }

  /** findALL's answer is its two whole-window checks followed by the
      loop's reports. */
  lemma FindAllResultParts(hay: seq<byte>, needle: seq<byte>, heads: seq<int>, scan: seq<int>)
    requires 1 <= |needle| <= |hay|
    requires heads == (if hay == needle then [0] else []) + (if hay[|hay| - |needle|..] == needle then [|hay| - |needle|] else [])
    requires scan == ScanAll(hay, needle, MaskTable(needle), |needle|)
    ensures FindAllResult(hay, needle) == heads + scan
  {
  }

  /** findFI_CC: the chunk's own match at its start `si`, or the loop's
      answer moved by `si`. */
  function FindFirstChunkResult(haystack: seq<byte>, needle: seq<byte>, startIdx: nat, partLen: nat): int
    requires 1 <= |needle| && startIdx + partLen <= |haystack|
  {
    var si := ChunkStart(startIdx, |needle|);
    var hay := Chunk(haystack, |needle|, startIdx, partLen);
    if hay == needle then si
    else
      var r := ScanFirst(hay, needle, MaskTable(needle), |needle|);
      if r == -1 then -1 else si + r
  }

  /** findALL_CC as written: a chunk equal to the needle is reported at 0
      rather than at its start `si` (bs_fsbndm/search.go:495-497). */
  function FindAllChunkAsWritten(haystack: seq<byte>, needle: seq<byte>, startIdx: nat, partLen: nat): seq<int>
    requires 1 <= |needle| && startIdx + partLen <= |haystack|
  {
    var si := ChunkStart(startIdx, |needle|);
    var hay := Chunk(haystack, |needle|, startIdx, partLen);
    (if hay == needle then [0] else []) + Shifted(ScanAll(hay, needle, MaskTable(needle), |needle|), si)
  }

  /** findALL_CC reporting a chunk equal to the needle at the chunk's start. */
  function FindAllChunkResult(haystack: seq<byte>, needle: seq<byte>, startIdx: nat, partLen: nat): seq<int>
    requires 1 <= |needle| && startIdx + partLen <= |haystack|
  {
    var si := ChunkStart(startIdx, |needle|);
    var hay := Chunk(haystack, |needle|, startIdx, partLen);
    (if hay == needle then [si] else []) + Shifted(ScanAll(hay, needle, MaskTable(needle), |needle|), si)
  }

  // ---------------------------------------------------------------------
  // Properties of the results

  /** findFI reports a haystack equal to the needle at offset 1, where the
      needle does not occur; it does occur at offset 0. */
  lemma FindFirstOfNeedleItself(x: seq<byte>)
    requires 1 <= |x|
    ensures FindFirstAsWritten(x, x) == 1
    ensures !Occurs(x, x, 1) && Occurs(x, x, 0)
  {
  }

  /** The corrected findFI reports a true occurrence, or -1. Away from
      the whole-haystack match it reports the first occurrence starting in
      [1, n-m-1], and -1 only when there is none there. */
  lemma FindFirstResultSpec(hay: seq<byte>, needle: seq<byte>)
    requires 1 <= |needle|
    ensures var r := FindFirstResult(hay, needle);
      (r == -1 || Occurs(hay, needle, r))
      && (hay != needle ==> forall x :: 1 <= x <= |hay| - |needle| - 1 && (r == -1 || x < r) ==> !Occurs(hay, needle, x))
  {
    ScanFirstSpec(hay, needle, MaskTable(needle), |needle|);
  }

  /** Every offset findALL and count report is a true occurrence. */
  lemma FindAllSound(hay: seq<byte>, needle: seq<byte>)
    requires 1 <= |needle| <= |hay|
    ensures AllOccur(hay, needle, FindAllResult(hay, needle))
  {
    var r := FindAllResult(hay, needle);
    var loop := ScanAll(hay, needle, MaskTable(needle), |needle|);
    ScanAllSound(hay, needle, MaskTable(needle), |needle|);
    var front := (if hay == needle then [0] else []) + (if hay[|hay| - |needle|..] == needle then [|hay| - |needle|] else []);
    assert r == front + loop;
    forall t | 0 <= t < |r|
      ensures Occurs(hay, needle, r[t])
    {
      if t >= |front| {
        assert r[t] == loop[t - |front|];
        assert loop[t - |front|] in loop;
      }
    }
  }

  /** A haystack equal to the needle is reported twice, at 0 and 0. */
  lemma FindAllOfNeedleItself(x: seq<byte>)
    requires 1 <= |x|
    ensures FindAllResult(x, x) == [0, 0]
  {
    assert x[|x| - |x|..] == x;
  }

  /** When the last window matches and the haystack is longer than the
      needle, findALL lists that window's offset n-m first, ahead of every
      smaller offset the loop finds, so the list is not ascending. */
  lemma FindAllLastWindowFirst(hay: seq<byte>, needle: seq<byte>)
    requires 1 <= |needle| < |hay| && hay[|hay| - |needle|..] == needle
    ensures var r := FindAllResult(hay, needle);
      1 <= |r| && r[0] == |hay| - |needle| && forall t :: 1 <= t < |r| ==> r[t] < r[0]
  {
    var r := FindAllResult(hay, needle);
    var loop := ScanAll(hay, needle, MaskTable(needle), |needle|);
    ScanAllSound(hay, needle, MaskTable(needle), |needle|);
    assert r == [|hay| - |needle|] + loop;
    forall t | 1 <= t < |r|
      ensures r[t] < r[0]
    {
      assert r[t] == loop[t - 1];
      assert loop[t - 1] in loop;
    }
  }

  /** In short mode findALL finds every occurrence except one at offset 0
      in a haystack longer than the needle. */
  lemma ShortFindAllExact(hay: seq<byte>, needle: seq<byte>, x: int)
    requires 1 <= |needle| <= 63 && |needle| <= |hay|
    ensures x in FindAllResult(hay, needle) <==> Occurs(hay, needle, x) && (x != 0 || |hay| == |needle|)
  {
    var n, m := |hay|, |needle|;
    ShortScanAllExact(hay, needle, MaskTable(needle), x);
    var loop := ScanAll(hay, needle, MaskTable(needle), m);
    var front := (if hay == needle then [0] else []) + (if hay[n - m..] == needle then [n - m] else []);
    assert FindAllResult(hay, needle) == front + loop;
    assert x in front <==> (x == 0 && hay == needle) || (x == n - m && hay[n - m..] == needle);
    if Occurs(hay, needle, x) && n == m {
      assert hay[0..m] == hay;
    }
  }

  /** findFI_CC reports a true occurrence in the whole haystack, or -1.
      For a chunk other than the needle, with `si` the chunk's start and
      `e` the last offset at which a match ends before the chunk's last
      byte, it reports the first occurrence in [si+1, e], and -1 only when
      there is none there. */
  lemma FindFirstChunkSpec(haystack: seq<byte>, needle: seq<byte>, startIdx: nat, partLen: nat)
    requires 1 <= |needle| && startIdx + partLen <= |haystack|
    ensures var r := FindFirstChunkResult(haystack, needle, startIdx, partLen);
      var si, e := ChunkStart(startIdx, |needle|), startIdx + partLen - |needle| - 1;
      (r == -1 || Occurs(haystack, needle, r)) &&
      (Chunk(haystack, |needle|, startIdx, partLen) != needle ==>
         (r == -1 || si + 1 <= r <= e) &&
         forall x :: si + 1 <= x <= e && (r == -1 || x < r) ==> !Occurs(haystack, needle, x))
  {
    var si := ChunkStart(startIdx, |needle|);
    var hay := Chunk(haystack, |needle|, startIdx, partLen);
    if hay == needle {
      OccursInChunk(haystack, needle, startIdx, partLen, 0);
    } else {
      var r := ScanFirst(hay, needle, MaskTable(needle), |needle|);
      ScanFirstSpec(hay, needle, MaskTable(needle), |needle|);
      if r != -1 {
        OccursInChunk(haystack, needle, startIdx, partLen, r);
      }
      forall x | si + 1 <= x <= startIdx + partLen - |needle| - 1 && (r == -1 || x < si + r)
        ensures !Occurs(haystack, needle, x)
      {
        ChunkHasOccurrence(haystack, needle, startIdx, partLen, x);
      }
    }
  }

  /** findALL_CC as written reports offset 0 for a chunk equal to the
      needle: with haystack [0, 1, 2], needle [1, 2], startIdx 2 and
      partLen 1 the chunk is haystack[1..3], the answer is [0], and the
      needle does not occur at 0. */
  lemma FindAllChunkAsWrittenReportsZero()
    ensures var haystack: seq<byte>, needle: seq<byte> := [0, 1, 2], [1, 2];
      FindAllChunkAsWritten(haystack, needle, 2, 1) == [0] && !Occurs(haystack, needle, 0)
  {
    var haystack: seq<byte>, needle: seq<byte> := [0, 1, 2], [1, 2];
    assert ChunkStart(2, 2) == 1;
    assert Chunk(haystack, 2, 2, 1) == needle;
    assert ScanAll(needle, needle, MaskTable(needle), 2) == [];
    assert Shifted([], 1) == [];
    assert haystack[0..2][0] != needle[0];
  }

  /** The corrected findALL_CC reports only true occurrences in the whole
      haystack, in strictly ascending order. */
  lemma FindAllChunkSound(haystack: seq<byte>, needle: seq<byte>, startIdx: nat, partLen: nat)
    requires 1 <= |needle| && startIdx + partLen <= |haystack|
    ensures var r := FindAllChunkResult(haystack, needle, startIdx, partLen);
      AllOccur(haystack, needle, r) && StrictlyIncreasing(r)
  {
    var m := |needle|;
    var si := ChunkStart(startIdx, m);
    var hay := Chunk(haystack, m, startIdx, partLen);
    var loop := ScanAll(hay, needle, MaskTable(needle), m);
    ScanAllSound(hay, needle, MaskTable(needle), m);
    ScanAllAscending(hay, needle, MaskTable(needle), m);
    var r := FindAllChunkResult(haystack, needle, startIdx, partLen);
    var front: seq<int> := if hay == needle then [si] else [];
    var shifted := Shifted(loop, si);
    assert r == front + shifted;
    forall t | 0 <= t < |r|
      ensures Occurs(haystack, needle, r[t])
    {
      if t < |front| {
        OccursInChunk(haystack, needle, startIdx, partLen, 0);
      } else {
        assert r[t] == loop[t - |front|] + si;
        assert loop[t - |front|] in loop;
        OccursInChunk(haystack, needle, startIdx, partLen, loop[t - |front|]);
      }
    }
    if hay == needle {
      // A chunk equal to the needle leaves the loop nothing to report.
      assert loop == [];
    }
  }

  // ---------------------------------------------------------------------
  // The search routines

  /** Fills the 256 masks (bs_fsbndm/search.go:57-71). */
  method BuildMasks(needle: seq<byte>) returns (bitPat: array<bv64>)
    ensures fresh(bitPat) && bitPat[..] == MaskTable(needle)
  {
    var m := |needle|;
    var p := Window(m);
    bitPat := new bv64[Alphabet];
    var i := 0;
    while i < Alphabet
      invariant 0 <= i <= Alphabet
      invariant forall j :: 0 <= j < i ==> bitPat[j] == 1
    {
      bitPat[i] := 1;
      i := i + 1;
    }
    assert bitPat[..] == TableUpTo(needle, 0);
    var suffIdx := m - p;
    i := 0;
    while i < p
      invariant 0 <= i <= p
      invariant bitPat[..] == TableUpTo(needle, i)
    {
      bitPat[needle[suffIdx + i] as int] := SetBit(bitPat[needle[suffIdx + i] as int], p - i);
      i := i + 1;
    }
    TableUpToFull(needle);
  }

  /** The backward walk over a candidate window ending at `i`, entered
      when the pair probe left a nonzero word (bs_fsbndm/search.go:86-91). */
  method WalkBack(hay: seq<byte>, needle: seq<byte>, bitPat: array<bv64>, i: nat) returns (backstp: nat)
    requires 1 <= |needle| <= i < |hay| - 1
    requires IsMaskTable(needle, bitPat[..])
    requires Walk(hay, bitPat[..], i, 0) != 0
    ensures backstp == Backstop(hay, needle, bitPat[..], i, 1)
  {
    ghost var masks := bitPat[..];
    var p := Window(|needle|);
    var bits := ShiftAnd(bitPat[hay[i + 1] as int], bitPat[hay[i] as int]);
    backstp := 1;
    bits := ShiftAnd(bits, bitPat[hay[i - backstp] as int]);
    while bits != 0
      invariant 1 <= backstp <= p
      invariant bits == Walk(hay, masks, i, backstp)
      invariant Walk(hay, masks, i, backstp - 1) != 0
      invariant Backstop(hay, needle, masks, i, backstp) == Backstop(hay, needle, masks, i, 1)
      decreases p - backstp
    {
      backstp := backstp + 1;
      bits := ShiftAnd(bits, bitPat[hay[i - backstp] as int]);
    }
  }

  /** One iteration of the outer loop at cursor `i`: the pair probe, the
      backward walk and the shift (bs_fsbndm/search.go:79-102, 106-125). */
  method Probe(hay: seq<byte>, needle: seq<byte>, bitPat: array<bv64>, i: nat) returns (next: int, hit: bool)
    requires 1 <= |needle| <= i < |hay| - 1
    requires IsMaskTable(needle, bitPat[..])
    ensures Move(next, hit) == Step(hay, needle, bitPat[..], i)
  {
    var m := |needle|;
    var p := Window(m);
    var bits := ShiftAnd(bitPat[hay[i + 1] as int], bitPat[hay[i] as int]);
    if bits == 0 {
      return i + p, false;
    }
    var lastCharIdx := i;
    var backstp := WalkBack(hay, needle, bitPat, i);
    if m > 63 {
      var cursor := i + p - backstp;
      if cursor == lastCharIdx {
        if needle == hay[lastCharIdx - m + 1..lastCharIdx + 1] {
          return lastCharIdx + 2, true;
        }
        return cursor + 1, false;
      }
      return cursor, false;
    }
    if backstp == m {
      return lastCharIdx + 1, true;
    }
    return i + m - backstp, false;
  }

  /** findFI's search loop, the same in long and short mode once the
      probe is factored out (bs_fsbndm/search.go:79-127). */
  method SearchFirst(hay: seq<byte>, needle: seq<byte>, bitPat: array<bv64>) returns (r: int)
    requires 1 <= |needle|
    requires IsMaskTable(needle, bitPat[..])
    ensures r == ScanFirst(hay, needle, bitPat[..], |needle|)
  {
    ghost var masks := bitPat[..];
    var m := |needle|;
    var i := m;
    while i < |hay| - 1
      invariant m <= i
      invariant ScanFirst(hay, needle, masks, i) == ScanFirst(hay, needle, masks, m)
      decreases |hay| - i
    {
      var next, hit := Probe(hay, needle, bitPat, i);
      if hit {
        return i - m + 1;
      }
      i := next;
    }
    return -1;
  }

  /** findALL's search loop, appending each report moved by `base` to
      `found` (bs_fsbndm/search.go:174-226). */
  method SearchAll(hay: seq<byte>, needle: seq<byte>, bitPat: array<bv64>, found0: seq<int>, base: int)
    returns (found: seq<int>)
    requires 1 <= |needle|
    requires IsMaskTable(needle, bitPat[..])
    ensures found == found0 + Shifted(ScanAll(hay, needle, bitPat[..], |needle|), base)
  {
    ghost var masks := bitPat[..];
    var m := |needle|;
    found := found0;
    var i := m;
    while i < |hay| - 1
      invariant m <= i
      invariant found + Shifted(ScanAll(hay, needle, masks, i), base)
        == found0 + Shifted(ScanAll(hay, needle, masks, m), base)
      decreases |hay| - i
    {
      var next, hit := Probe(hay, needle, bitPat, i);
      ScanAllAfterShifted(hay, needle, masks, i, found, base);
      if hit {
        found := found + [base + i - m + 1];
      }
      i := next;
    }
  }

  /** count's search loop (bs_fsbndm/search.go:270-323). */
  method SearchCount(hay: seq<byte>, needle: seq<byte>, bitPat: array<bv64>, count0: nat) returns (count: nat)
    requires 1 <= |needle|
    requires IsMaskTable(needle, bitPat[..])
    ensures count == count0 + |ScanAll(hay, needle, bitPat[..], |needle|)|
  {
    ghost var masks := bitPat[..];
    var m := |needle|;
    count := count0;
    var i := m;
    while i < |hay| - 1
      invariant m <= i
      invariant count + |ScanAll(hay, needle, masks, i)| == count0 + |ScanAll(hay, needle, masks, m)|
      decreases |hay| - i
    {
      var next, hit := Probe(hay, needle, bitPat, i);
      ScanAllUnfold(hay, needle, masks, i);
      if hit {
        count := count + 1;
      }
      i := next;
    }
  }

  /** findFI (bs_fsbndm/search.go:41-128). */
  method FindFirst(hay: seq<byte>, needle: seq<byte>) returns (r: int)
    requires 1 <= |needle|
    ensures r == FindFirstAsWritten(hay, needle)
  {
    var bitPat := BuildMasks(needle);
    if hay == needle {
      return 1;
    }
    r := SearchFirst(hay, needle, bitPat);
  }

  /** findFI with the whole-haystack match reported at offset 0. */
  method FindFirstFixed(hay: seq<byte>, needle: seq<byte>) returns (r: int)
    requires 1 <= |needle|
    ensures r == FindFirstResult(hay, needle)
  {
    var bitPat := BuildMasks(needle);
    if hay == needle {
      return 0;
    }
    r := SearchFirst(hay, needle, bitPat);
  }

  /** findALL (bs_fsbndm/search.go:130-229). The haystack must be at least
      as long as the needle because of the last-window slice (line 170). */
  method FindAll(hay: seq<byte>, needle: seq<byte>) returns (found: seq<int>)
    requires 1 <= |needle| <= |hay|
    ensures found == FindAllResult(hay, needle)
  {
    var n, m := |hay|, |needle|;
    var bitPat := BuildMasks(needle);
    found := [];
    if hay == needle {
      found := found + [0];
    }
    assert found == if hay == needle then [0] else [];
    if hay[n - m..] == needle {
      found := found + [n - m];
    }
    ghost var heads := found;
    assert heads == (if hay == needle then [0] else []) + (if hay[n - m..] == needle then [n - m] else []);
    ghost var scan := ScanAll(hay, needle, bitPat[..], m);
    assert scan == ScanAll(hay, needle, MaskTable(needle), m);
    found := SearchAll(hay, needle, bitPat, found, 0);
    ShiftedZero(scan);
    FindAllResultParts(hay, needle, heads, scan);
  }

  /** count (bs_fsbndm/search.go:231-327): the same branches as findALL. */
  method Count(hay: seq<byte>, needle: seq<byte>) returns (count: nat)
    requires 1 <= |needle| <= |hay|
    ensures count == |FindAllResult(hay, needle)|
  {
    var n, m := |hay|, |needle|;
    var bitPat := BuildMasks(needle);
    count := 0;
    if hay == needle {
      count := count + 1;
    }
    if hay[n - m..] == needle {
      count := count + 1;
    }
    count := SearchCount(hay, needle, bitPat, count);
  }

  /** findFI_CC (bs_fsbndm/search.go:329-444), the chunk's search. */
  method FindFirstChunk(haystack: seq<byte>, needle: seq<byte>, startIdx: nat, partLen: nat) returns (r: int)
    requires 1 <= |needle| && startIdx + partLen <= |haystack|
    ensures r == FindFirstChunkResult(haystack, needle, startIdx, partLen)
  {
    var m := |needle|;
    var si := startIdx - (m - 1);
    if si < 0 {
      si := 0;
    }
    assert si == ChunkStart(startIdx, m);
    var hay := haystack[si..startIdx + partLen];
    assert hay == Chunk(haystack, |needle|, startIdx, partLen);
    var bitPat := BuildMasks(needle);
    if hay == needle {
      return si;
    }
    r := SearchFirst(hay, needle, bitPat);
    if r != -1 {
      r := si + r;
    }
  }

  /** findALL_CC (bs_fsbndm/search.go:446-554). */
  method FindAllChunk(haystack: seq<byte>, needle: seq<byte>, startIdx: nat, partLen: nat) returns (found: seq<int>)
    requires 1 <= |needle| && startIdx + partLen <= |haystack|
    ensures found == FindAllChunkAsWritten(haystack, needle, startIdx, partLen)
  {
    var m := |needle|;
    var si := startIdx - (m - 1);
    if si < 0 {
      si := 0;
    }
    assert si == ChunkStart(startIdx, m);
    var hay := haystack[si..startIdx + partLen];
    assert hay == Chunk(haystack, |needle|, startIdx, partLen);
    var bitPat := BuildMasks(needle);
    found := [];
    if hay == needle {
      found := found + [0];
    }
    found := SearchAll(hay, needle, bitPat, found, si);
  }

  /** findALL_CC with a chunk equal to the needle reported at `si`. */
  method FindAllChunkFixed(haystack: seq<byte>, needle: seq<byte>, startIdx: nat, partLen: nat) returns (found: seq<int>)
    requires 1 <= |needle| && startIdx + partLen <= |haystack|
    ensures found == FindAllChunkResult(haystack, needle, startIdx, partLen)
  {
    var m := |needle|;
    var si := startIdx - (m - 1);
    if si < 0 {
      si := 0;
    }
    assert si == ChunkStart(startIdx, m);
    var hay := haystack[si..startIdx + partLen];
    assert hay == Chunk(haystack, |needle|, startIdx, partLen);
    var bitPat := BuildMasks(needle);
    found := [];
    if hay == needle {
      found := found + [si];
    }
    found := SearchAll(hay, needle, bitPat, found, si);
  }
}
