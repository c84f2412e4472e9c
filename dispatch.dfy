// The package's front door (bmatch.go): Index, FindAll and Count refuse an
// empty needle, answer a one-byte needle with the single-byte scanner, and
// otherwise pick an engine by the needle's length and return its answer.

module Dispatch {
  import Bytes
  import MemchrArm
  import PairHashApi

  /** The engine families a needle length can be routed to. */
  datatype Engine = SingleByte | BitParallel | Bh | PairHash

  /** The errors the front door returns: nil, its own empty-needle error,
      or the pair-hash package's errors passed through. */
  datatype Error = Nil | EmptyNeedle | Bh2(e: PairHashApi.Error)

  /** The switch of Index (bmatch.go:57-71). Both the `< 1<<22` arm and
      the default arm choose the bit-parallel engine. */
  function IndexEngine(m: nat): (e: Engine)
    requires 1 <= m
    ensures e == SingleByte <==> m == 1
    ensures e == BitParallel <==> 2 <= m < 50 || 350000 <= m
    ensures e == Bh <==> 50 <= m < 12000
    ensures e == PairHash <==> 12000 <= m < 350000
  {
    if m < 2 then SingleByte
    else if m < 50 then BitParallel
    else if m < 12000 then Bh
    else if m < 350000 then PairHash
    else if m < 0x40_0000 then BitParallel
    else BitParallel
  }

  /** The switch of FindAll (bmatch.go:82-96). The source writes out one
      switch per operation; each is kept here as its own function, and
      SameThresholds proves the three agree. */
  function FindAllEngine(m: nat): (e: Engine)
    requires 1 <= m
    ensures e == SingleByte <==> m == 1
    ensures e == BitParallel <==> 2 <= m < 50 || 350000 <= m
    ensures e == Bh <==> 50 <= m < 12000
    ensures e == PairHash <==> 12000 <= m < 350000
  {
    if m < 2 then SingleByte
    else if m < 50 then BitParallel
    else if m < 12000 then Bh
    else if m < 350000 then PairHash
    else if m < 0x40_0000 then BitParallel
    else BitParallel
  }

  /** The switch of Count (bmatch.go:108-126), the third of the source's
      separate switches. */
  function CountEngine(m: nat): (e: Engine)
    requires 1 <= m
    ensures e == SingleByte <==> m == 1
    ensures e == BitParallel <==> 2 <= m < 50 || 350000 <= m
    ensures e == Bh <==> 50 <= m < 12000
    ensures e == PairHash <==> 12000 <= m < 350000
  {
    if m < 2 then SingleByte
    else if m < 50 then BitParallel
    else if m < 12000 then Bh
    else if m < 350000 then PairHash
    else if m < 0x40_0000 then BitParallel
    else BitParallel
  }

  /** The three switches agree: a needle length picks the same engine
      whichever operation is asked for. */
  lemma SameThresholds(m: nat)
    requires 1 <= m
    ensures IndexEngine(m) == FindAllEngine(m) == CountEngine(m)
  {
  }

  /** The pair-hash engine's own errors, in the front door's terms. */
  function Lift(e: PairHashApi.Error): (r: Error)
    ensures r == Nil <==> e == PairHashApi.NoError
  {
    if e == PairHashApi.NoError then Nil else Bh2(e)
  }

  /** Index (bmatch.go:51-74). `bsf` and `bh` are the answers of the
      bit-parallel and Bh packages' Index wrappers for this input; those
      wrappers are not part of this model, and their answer is returned
      unchanged. The pair-hash package only sees needles of at least
      12000 bytes, so its short-needle error cannot come back; what it
      finds is -1 or a true occurrence that does not end on the
      haystack's last byte. */
  function Index(haystack: seq<Bytes.byte>, needle: seq<Bytes.byte>, bsf: (int, Error), bh: (int, Error)): (r: (int, Error))
    ensures |needle| == 0 ==> r == (-1, EmptyNeedle)
    ensures |needle| == 1 ==> r == (Bytes.Index(haystack, needle), Nil)
    ensures 1 <= |needle| && IndexEngine(|needle|) == BitParallel ==> r == bsf
    ensures 1 <= |needle| && IndexEngine(|needle|) == Bh ==> r == bh
    ensures 1 <= |needle| && IndexEngine(|needle|) == PairHash ==>
              r.1 != Bh2(PairHashApi.NeedleShort) &&
              (r.1 == Nil <==> |needle| <= |haystack|) &&
              (r.1 != Nil ==> r.0 == -1) &&
              (r.1 == Nil ==>
                 r.0 == -1 || (Bytes.Occurs(haystack, needle, r.0) && r.0 + |needle| < |haystack|))
  {
    if |needle| < 1 then (-1, EmptyNeedle)
    else
      match IndexEngine(|needle|)
      case SingleByte => (MemchrArm.ArmIndex(haystack, needle), Nil)
      case BitParallel => bsf
      case Bh => bh
      case PairHash =>
        var (k, e) := PairHashApi.Index(haystack, needle);
        (k, Lift(e))
  }

  /** FindAll (bmatch.go:76-100): an empty list with the empty-needle
      error, every occurrence for a one-byte needle, and otherwise the
      chosen engine's answer; the pair-hash package's list holds true
      occurrences, strictly ascending, none ending on the last byte. */
  function FindAll(haystack: seq<Bytes.byte>, needle: seq<Bytes.byte>, bsf: (seq<int>, Error), bh: (seq<int>, Error)): (r: (seq<int>, Error))
    ensures |needle| == 0 ==> r == ([], EmptyNeedle)
    ensures |needle| == 1 ==> r == (Bytes.Occurrences(haystack, needle), Nil)
    ensures 1 <= |needle| && FindAllEngine(|needle|) == BitParallel ==> r == bsf
    ensures 1 <= |needle| && FindAllEngine(|needle|) == Bh ==> r == bh
    ensures 1 <= |needle| && FindAllEngine(|needle|) == PairHash ==>
              r.1 != Bh2(PairHashApi.NeedleShort) &&
              (r.1 == Nil <==> |needle| <= |haystack|) &&
              (r.1 != Nil ==> r.0 == []) &&
              Bytes.AllOccur(haystack, needle, r.0) && Bytes.StrictlyIncreasing(r.0) &&
              forall t :: 0 <= t < |r.0| ==> r.0[t] + |needle| < |haystack|
  {
    if |needle| < 1 then ([], EmptyNeedle)
    else
      match FindAllEngine(|needle|)
      case SingleByte => (Bytes.Occurrences(haystack, needle), Nil)
      case BitParallel => bsf
      case Bh => bh
      case PairHash =>
        var (xs, e) := PairHashApi.FindAll(haystack, needle);
        (xs, Lift(e))
  }

  /** Count (bmatch.go:102-129): the pair-hash package's count never
      exceeds the number of occurrences. */
  function Count(haystack: seq<Bytes.byte>, needle: seq<Bytes.byte>, bsf: (int, Error), bh: (int, Error)): (r: (int, Error))
    ensures |needle| == 0 ==> r == (-1, EmptyNeedle)
    ensures |needle| == 1 ==> r == (|Bytes.Occurrences(haystack, needle)|, Nil)
    ensures 1 <= |needle| && CountEngine(|needle|) == BitParallel ==> r == bsf
    ensures 1 <= |needle| && CountEngine(|needle|) == Bh ==> r == bh
    ensures 1 <= |needle| && CountEngine(|needle|) == PairHash ==>
              r.1 != Bh2(PairHashApi.NeedleShort) &&
              (r.1 == Nil <==> |needle| <= |haystack|) &&
              (r.1 != Nil ==> r.0 == -1) &&
              (r.1 == Nil ==> 0 <= r.0 <= |Bytes.Occurrences(haystack, needle)|)
  {
    if |needle| < 1 then (-1, EmptyNeedle)
    else
      match CountEngine(|needle|)
      case SingleByte => (|Bytes.Occurrences(haystack, needle)|, Nil)
      case BitParallel => bsf
      case Bh => bh
      case PairHash =>
        var (k, e) := PairHashApi.Count(haystack, needle);
        (k, Lift(e))
  }

  /** Wherever the front door computes the answer itself or through the
      pair-hash package, and FindAll succeeds, Count is the length of
      FindAll's list and Index is its first element, or -1. */
  lemma AnswersAgree(haystack: seq<Bytes.byte>, needle: seq<Bytes.byte>)
    requires 1 <= |needle| && IndexEngine(|needle|) in {SingleByte, PairHash}
    ensures var all := FindAll(haystack, needle, ([], Nil), ([], Nil));
      all.1 == Nil ==>
        Count(haystack, needle, (0, Nil), (0, Nil)) == (|all.0|, Nil) &&
        Index(haystack, needle, (0, Nil), (0, Nil)) == (if all.0 == [] then -1 else all.0[0], Nil)
  {
    SameThresholds(|needle|);
    if IndexEngine(|needle|) == SingleByte {
      Bytes.OccurrencesFromHead(haystack, needle, 0);
    } else if |needle| <= |haystack| {
      PairHashApi.IndexIsFirst(haystack, needle);
      PairHashApi.CountIsLength(haystack, needle);
    }
  }
}
