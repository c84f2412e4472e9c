// The exported entry points of the pair-hash package (bh2search.go):
// length guards, then one call into the engine of pairhash.dfy as written.
// The same guards over the corrected engine follow, named ...Fixed.

module PairHashApi {
  import Bytes
  import PairHash

  /** The package's error values: nil, NEEDLESHORT and NEEDLELONG
      (bh2search/bh2search.go:39-44). */
  datatype Error = NoError | NeedleShort | NeedleLong

  /** Index (bh2search/bh2search.go:46-57): NEEDLELONG before NEEDLESHORT,
      a needle of fewer than three bytes is refused, and a valid pair goes
      to findFI. What comes back is -1 or a true occurrence that does not
      end on the haystack's last byte. */
  function Index(haystack: seq<Bytes.byte>, needle: seq<Bytes.byte>): (r: (int, Error))
    ensures r.1 == NeedleLong <==> |haystack| < |needle|
    ensures r.1 == NeedleShort <==> |needle| <= |haystack| && |needle| < 3
    ensures r.1 != NoError ==> r.0 == -1
    ensures r.1 == NoError ==>
              r.0 == -1 || (Bytes.Occurs(haystack, needle, r.0) && r.0 + |needle| < |haystack|)
  {
    if |haystack| < |needle| then (-1, NeedleLong)
    else if |needle| < 3 then (-1, NeedleShort)
    else
      PairHash.FindAllAsWrittenSpec(haystack, needle);
      (PairHash.FindFirstAsWritten(haystack, needle), NoError)
  }

  /** Count (bh2search/bh2search.go:59-70): -1 with an error, otherwise
      what count returns, the length of findALL's list: never more than
      the number of occurrences. */
  function Count(haystack: seq<Bytes.byte>, needle: seq<Bytes.byte>): (r: (int, Error))
    ensures r.1 == NeedleLong <==> |haystack| < |needle|
    ensures r.1 == NeedleShort <==> |needle| <= |haystack| && |needle| < 2
    ensures r.1 != NoError ==> r.0 == -1
    ensures r.1 == NoError ==> 0 <= r.0 <= |Bytes.Occurrences(haystack, needle)|
  {
    if |haystack| < |needle| then (-1, NeedleLong)
    else if |needle| < 2 then (-1, NeedleShort)
    else
      PairHash.FindAllAsWrittenSpec(haystack, needle);
      Bytes.SoundListShorter(haystack, needle, PairHash.FindAllAsWritten(haystack, needle), 0);
      (|PairHash.FindAllAsWritten(haystack, needle)|, NoError)
  }

  /** FindAll (bh2search/bh2search.go:72-83): an empty list with an
      error, otherwise findALL's list: true occurrences, strictly
      ascending, none ending on the haystack's last byte. */
  function FindAll(haystack: seq<Bytes.byte>, needle: seq<Bytes.byte>): (r: (seq<int>, Error))
    ensures r.1 == NeedleLong <==> |haystack| < |needle|
    ensures r.1 == NeedleShort <==> |needle| <= |haystack| && |needle| < 2
    ensures r.1 != NoError ==> r.0 == []
    ensures Bytes.AllOccur(haystack, needle, r.0) && Bytes.StrictlyIncreasing(r.0)
    ensures forall t :: 0 <= t < |r.0| ==> r.0[t] + |needle| < |haystack|
  {
    if |haystack| < |needle| then ([], NeedleLong)
    else if |needle| < 2 then ([], NeedleShort)
    else
      PairHash.FindAllAsWrittenSpec(haystack, needle);
      (PairHash.FindAllAsWritten(haystack, needle), NoError)
  }

  /** FindAllCC (bh2search/bh2search.go:85-98): an empty list for either
      bad length, otherwise findALL_CC's list: true occurrences in the
      whole haystack, strictly ascending, each inside the chunk widened
      to the left by m-1 bytes. The chunk must lie inside the haystack
      only when the guards let the call through. */
  function FindAllCC(haystack: seq<Bytes.byte>, needle: seq<Bytes.byte>, startIdx: nat, partLen: nat): (r: seq<int>)
    requires |needle| <= |haystack| && 2 <= |needle| ==> startIdx + partLen <= |haystack|
    ensures |haystack| < |needle| || |needle| < 2 ==> r == []
    ensures Bytes.AllOccur(haystack, needle, r) && Bytes.StrictlyIncreasing(r)
    ensures |needle| <= |haystack| && 2 <= |needle| ==>
              forall t :: 0 <= t < |r| ==>
                Bytes.ChunkStart(startIdx, |needle|) <= r[t] && r[t] + |needle| <= startIdx + partLen
  {
    if |haystack| < |needle| || |needle| < 2 then []
    else
      PairHash.FindAllChunkAsWrittenSpec(haystack, needle, startIdx, partLen);
      PairHash.FindAllChunkAsWritten(haystack, needle, startIdx, partLen)
  }

  /** FindIndexCC (bh2search/bh2search.go:100-111): -1 for either bad
      length, otherwise findFI_CC's answer: -1 or a true occurrence in the
      whole haystack, the first one findALL_CC reports on the same chunk. */
  function FindIndexCC(haystack: seq<Bytes.byte>, needle: seq<Bytes.byte>, startIdx: nat, partLen: nat): (r: int)
    requires |needle| <= |haystack| && 2 <= |needle| ==> startIdx + partLen <= |haystack|
    ensures |haystack| < |needle| || |needle| < 2 ==> r == -1
    ensures r == -1 || Bytes.Occurs(haystack, needle, r)
    ensures var xs := FindAllCC(haystack, needle, startIdx, partLen);
      r == if xs == [] then -1 else xs[0]
  {
    if |haystack| < |needle| || |needle| < 2 then -1
    else
      PairHash.FindFirstChunkAsWrittenSpec(haystack, needle, startIdx, partLen);
      PairHash.FindFirstChunkAsWritten(haystack, needle, startIdx, partLen)
  }

  /** Index with the corrected engine: the same guards, and a valid pair
      gets the first occurrence. */
  function IndexFixed(haystack: seq<Bytes.byte>, needle: seq<Bytes.byte>): (r: (int, Error))
    ensures r.1 == NeedleLong <==> |haystack| < |needle|
    ensures r.1 == NeedleShort <==> |needle| <= |haystack| && |needle| < 3
    ensures r.1 != NoError ==> r.0 == -1
    ensures r.1 == NoError ==> r.0 == Bytes.Index(haystack, needle)
  {
    if |haystack| < |needle| then (-1, NeedleLong)
    else if |needle| < 3 then (-1, NeedleShort)
    else
      PairHash.FindFirstResultExact(haystack, needle);
      (PairHash.FindFirstResult(haystack, needle), NoError)
  }

  /** Count with the corrected engine: the number of occurrences,
      overlapping ones included. */
  function CountFixed(haystack: seq<Bytes.byte>, needle: seq<Bytes.byte>): (r: (int, Error))
    ensures r.1 == NeedleLong <==> |haystack| < |needle|
    ensures r.1 == NeedleShort <==> |needle| <= |haystack| && |needle| < 2
    ensures r.1 != NoError ==> r.0 == -1
    ensures r.1 == NoError ==> r.0 == |Bytes.Occurrences(haystack, needle)|
  {
    if |haystack| < |needle| then (-1, NeedleLong)
    else if |needle| < 2 then (-1, NeedleShort)
    else
      PairHash.FindAllResultExact(haystack, needle);
      (|PairHash.FindAllResult(haystack, needle)|, NoError)
  }

  /** FindAll with the corrected engine: every occurrence in ascending
      order. */
  function FindAllFixed(haystack: seq<Bytes.byte>, needle: seq<Bytes.byte>): (r: (seq<int>, Error))
    ensures r.1 == NeedleLong <==> |haystack| < |needle|
    ensures r.1 == NeedleShort <==> |needle| <= |haystack| && |needle| < 2
    ensures r.1 != NoError ==> r.0 == []
    ensures r.1 == NoError ==> r.0 == Bytes.Occurrences(haystack, needle)
  {
    if |haystack| < |needle| then ([], NeedleLong)
    else if |needle| < 2 then ([], NeedleShort)
    else
      PairHash.FindAllResultExact(haystack, needle);
      (PairHash.FindAllResult(haystack, needle), NoError)
  }

  /** FindAllCC with the corrected engine: every occurrence inside the
      widened chunk. */
  function FindAllCCFixed(haystack: seq<Bytes.byte>, needle: seq<Bytes.byte>, startIdx: nat, partLen: nat): (r: seq<int>)
    requires |needle| <= |haystack| && 2 <= |needle| ==> startIdx + partLen <= |haystack|
    ensures |haystack| < |needle| || |needle| < 2 ==> r == []
    ensures Bytes.AllOccur(haystack, needle, r) && Bytes.StrictlyIncreasing(r)
    ensures |needle| <= |haystack| && 2 <= |needle| ==>
              forall x ::
                Bytes.ChunkStart(startIdx, |needle|) <= x && x + |needle| <= startIdx + partLen && Bytes.Occurs(haystack, needle, x) ==>
                  x in r
  {
    if |haystack| < |needle| || |needle| < 2 then []
    else
      PairHash.FindAllChunkResultExact(haystack, needle, startIdx, partLen);
      PairHash.FindAllChunkResult(haystack, needle, startIdx, partLen)
  }

  /** FindIndexCC with the corrected engine: the first occurrence inside
      the widened chunk, as an offset into the whole haystack. */
  function FindIndexCCFixed(haystack: seq<Bytes.byte>, needle: seq<Bytes.byte>, startIdx: nat, partLen: nat): (r: int)
    requires |needle| <= |haystack| && 2 <= |needle| ==> startIdx + partLen <= |haystack|
    ensures |haystack| < |needle| || |needle| < 2 ==> r == -1
    ensures |needle| <= |haystack| && 2 <= |needle| ==>
              var k := Bytes.Index(Bytes.Chunk(haystack, |needle|, startIdx, partLen), needle);
              r == if k == -1 then -1 else Bytes.ChunkStart(startIdx, |needle|) + k
  {
    if |haystack| < |needle| || |needle| < 2 then -1
    else
      PairHash.FindFirstChunkResultExact(haystack, needle, startIdx, partLen);
      PairHash.FindFirstChunkResult(haystack, needle, startIdx, partLen)
  }

  /** Count and FindAll fail together, and on success the count is the
      length of the list. */
  lemma CountIsLength(haystack: seq<Bytes.byte>, needle: seq<Bytes.byte>)
    ensures Count(haystack, needle).1 == FindAll(haystack, needle).1
    ensures FindAll(haystack, needle).1 == NoError ==>
              Count(haystack, needle).0 == |FindAll(haystack, needle).0|
  {
  }

  /** Where both succeed, Index returns the first element of FindAll's
      list, or -1 when the list is empty. */
  lemma IndexIsFirst(haystack: seq<Bytes.byte>, needle: seq<Bytes.byte>)
    requires Index(haystack, needle).1 == NoError
    ensures FindAll(haystack, needle).1 == NoError
    ensures var xs := FindAll(haystack, needle).0;
      Index(haystack, needle).0 == if xs == [] then -1 else xs[0]
  {
    PairHash.FindAllAsWrittenSpec(haystack, needle);
  }

  /** With the corrected engine, too, Index is the head of FindAll's list
      and Count its length; and the list is every occurrence. */
  lemma FixedAnswersAgree(haystack: seq<Bytes.byte>, needle: seq<Bytes.byte>)
    requires IndexFixed(haystack, needle).1 == NoError
    ensures FindAllFixed(haystack, needle).1 == NoError
    ensures var xs := FindAllFixed(haystack, needle).0;
      IndexFixed(haystack, needle).0 == (if xs == [] then -1 else xs[0]) &&
      CountFixed(haystack, needle).0 == |xs|
  {
    Bytes.OccurrencesFromHead(haystack, needle, 0);
  }

  /** The routines as written never report more than the corrected ones:
      FindAll's list holds only members of FindAllFixed's. */
  lemma AsWrittenWithinFixed(haystack: seq<Bytes.byte>, needle: seq<Bytes.byte>)
    ensures FindAll(haystack, needle).1 == FindAllFixed(haystack, needle).1
    ensures forall x :: x in FindAll(haystack, needle).0 ==> x in FindAllFixed(haystack, needle).0
  {
    var xs := FindAll(haystack, needle).0;
    if FindAll(haystack, needle).1 == NoError {
      Bytes.OccurrencesFromSpec(haystack, needle, 0);
      forall x | x in xs
        ensures x in FindAllFixed(haystack, needle).0
      {
        var t :| 0 <= t < |xs| && xs[t] == x;
        assert Bytes.Occurs(haystack, needle, xs[t]);
      }
    }
  }
}
