// The single-byte scanners of unsafeMEMCHR_arm.go: a guard, then
// bytes.Index, or a loop of bytes.Index calls over a shrinking suffix.

module MemchrArm {
  import opened Bytes

  /** mmIndex (unsafeMEMCHR_arm.go:56-71): -1 for a haystack shorter than
      the needle, otherwise bytes.Index. */
  function ArmIndex(hayst: seq<byte>, pat: seq<byte>): (r: int)
    ensures |hayst| < |pat| ==> r == -1
    ensures r == -1 || Occurs(hayst, pat, r)
    ensures r == -1 <==> forall j :: !Occurs(hayst, pat, j)
    ensures forall j :: 0 <= j < r ==> !Occurs(hayst, pat, j)
  {
    if |hayst| < |pat| then -1 else Index(hayst, pat)
  }

  /** mmFindALL (unsafeMEMCHR_arm.go:80-109): every, possibly overlapping,
      occurrence, in ascending order. A non-empty needle is needed: with
      an empty one the loop slices past the end of the haystack. */
  method ArmFindAll(haystack: seq<byte>, pat: seq<byte>) returns (found: seq<int>)
    requires 1 <= |pat|
    ensures found == if |haystack| < |pat| then [] else Occurrences(haystack, pat)
  {
    found := [];
    if |haystack| < |pat| {
      return;
    }
    var hayst := haystack;
    var lastIdx: nat := 0;
    ghost var total := Occurrences(haystack, pat);
    while true
      invariant lastIdx <= |haystack| && hayst == haystack[lastIdx..]
      invariant found + OccurrencesFrom(haystack, pat, lastIdx) == total
      decreases |hayst|
    {
      var idx := IndexFound(haystack, pat, lastIdx, hayst, found, total);
      if idx == -1 {
        break;
      }
      found := found + [lastIdx + idx];
      lastIdx := lastIdx + idx + 1;
      hayst := hayst[idx + 1..];
    }
  }

  /** mmCount (unsafeMEMCHR_arm.go:118-142): the same loop, counting. */
  method ArmCount(haystack: seq<byte>, pat: seq<byte>) returns (count: int)
    requires 1 <= |pat|
    ensures count == if |haystack| < |pat| then 0 else |Occurrences(haystack, pat)|
  {
    count := 0;
    if |haystack| < |pat| {
      return;
    }
    var hayst := haystack;
    ghost var lastIdx: nat := 0;
    ghost var total := |Occurrences(haystack, pat)|;
    while true
      invariant lastIdx <= |haystack| && hayst == haystack[lastIdx..]
      invariant count + Left(haystack, pat, lastIdx) == total
      decreases |hayst|
    {
      var idx := IndexCounted(haystack, pat, lastIdx, hayst);
      if idx == -1 {
        break;
      }
      count := count + 1;
      lastIdx := lastIdx + idx + 1;
      hayst := hayst[idx + 1..];
    }
  }

  /** What the find-all loop lists is exactly the set of occurrences, in
      strictly increasing order, and the count is its length. */
  lemma ArmFindAllSpec(haystack: seq<byte>, pat: seq<byte>)
    ensures var found := Occurrences(haystack, pat);
      StrictlyIncreasing(found) && AllOccur(haystack, pat, found) &&
      forall x :: Occurs(haystack, pat, x) ==> x in found
  {
    OccurrencesFromSpec(haystack, pat, 0);
    var found := Occurrences(haystack, pat);
    forall t | 0 <= t < |found|
      ensures Occurs(haystack, pat, found[t])
    {
      assert found[t] in found;
    }
  }
}
