/** `PartialSum`: an in-place prefix sum computed block by block, each block
    adding the running total its predecessor hands on. The blocks are run
    here one after another, in the order the source starts them; integer
    elements only. */
module PartialSum {
  import opened Base
  import opened Sums
  import opened Blocks

  /** `std::partial_sum(begin, end, begin)`: each element of `a[lo..hi)`
      becomes the sum of the range up to and including it; nothing outside
      the range changes. */
  method PartialSumInPlace(a: array<int>, lo: nat, hi: nat)
    requires lo <= hi <= a.Length
    modifies a
    ensures forall j :: lo <= j < hi ==> a[j] == RangeSum(old(a[..]), lo, j + 1)
    ensures forall j :: 0 <= j < a.Length && !(lo <= j < hi) ==> a[j] == old(a[j])
  {
    if lo == hi {
      return;
    }
    ghost var s := a[..];
    var k := lo + 1;
    while k < hi
      invariant lo + 1 <= k <= hi
      invariant forall j :: lo <= j < k ==> a[j] == RangeSum(s, lo, j + 1)
      invariant forall j :: 0 <= j < a.Length && !(lo <= j < k) ==> a[j] == s[j]
    {
      a[k] := a[k - 1] + a[k];
      k := k + 1;
    }
  }

  /** The value a chunk adds to each of its elements: the predecessor's
      final total, or nothing for the first chunk. */
  function Carry(pre: Option<int>): int
  {
    if pre.Some? then pre.value else 0
  }

  /** `ChunkProcess`: prefix sums over the inclusive range `[begin, last]`,
      then, when a predecessor exists, its total added to every element;
      the chunk's own final total is handed on when a successor exists. */
  method ChunkProcess(a: array<int>, begin: nat, last: nat, pre: Option<int>, hasNext: bool)
    returns (next: Option<int>)
    requires begin <= last < a.Length
    modifies a
    ensures forall j :: begin <= j <= last ==> a[j] == RangeSum(old(a[..]), begin, j + 1) + Carry(pre)
    ensures forall j :: 0 <= j < a.Length && !(begin <= j <= last) ==> a[j] == old(a[j])
    ensures next == if hasNext then Some(a[last]) else None
  {
    ghost var s := a[..];
    PartialSumInPlace(a, begin, last + 1);
    next := None;
    if pre.Some? {
      var preChunkLast := pre.value;
      a[last] := a[last] + preChunkLast;
      if hasNext {
        next := Some(a[last]);
      }
      for k := begin to last
        invariant forall j :: begin <= j < k ==> a[j] == RangeSum(s, begin, j + 1) + preChunkLast
        invariant forall j :: k <= j < last ==> a[j] == RangeSum(s, begin, j + 1)
        invariant a[last] == RangeSum(s, begin, last + 1) + preChunkLast
        invariant forall j :: 0 <= j < a.Length && !(begin <= j <= last) ==> a[j] == s[j]
        invariant next == if hasNext then Some(a[last]) else None
      {
        a[k] := a[k] + preChunkLast;
      }
    } else if hasNext {
      next := Some(a[last]);
    }
  }

  /** One chunk's step of the block-wise sum: where the chunk `[start, last]`
      still holds the input, its local prefix sums plus the total of
      everything before `start` are the global prefix sums. */
  lemma ChunkStep(s: seq<int>, before: seq<int>, start: nat, last: nat)
    requires start <= last < |s| == |before|
    requires forall j :: start <= j <= last ==> before[j] == s[j]
    ensures forall e :: start < e <= last + 1 ==> RangeSum(before, start, e) + RangeSum(s, 0, start) == RangeSum(s, 0, e)
  {
    forall e | start < e <= last + 1
      ensures RangeSum(before, start, e) + RangeSum(s, 0, start) == RangeSum(s, 0, e)
    {
      RangeSumAgree(before, s, start, e);
      RangeSumSplit(s, 0, start, e);
    }
  }

  /** The whole algorithm: the first `num - 1` chunks of `BlockSize`
      elements each, then the last chunk up to the final element, each
      chunk receiving its predecessor's total. The result is the sequential
      prefix sum of the input. */
  method PartialSum(a: array<int>, hw: nat)
    modifies a
    ensures a[..] == PrefixSums(old(a[..]))
  {
    ghost var s := a[..];
    var length := a.Length;
    if length == 0 {
      return;
    }
    var numThreads := NumThreads(length, hw);
    var blockSize := BlockSize(length, numThreads);
    var blockStart := 0;
    var prev: Option<int> := None;
    for i := 0 to numThreads - 1
      invariant blockStart == BlockStart(i, blockSize) <= length
      invariant Carry(prev) == RangeSum(s, 0, blockStart)
      invariant prev.None? <==> i == 0
      invariant forall j :: 0 <= j < blockStart ==> a[j] == RangeSum(s, 0, j + 1)
      invariant forall j :: blockStart <= j < length ==> a[j] == s[j]
    {
      BlockStep(length, numThreads, i);
      var blockEnd := blockStart + blockSize - 1;
      ChunkStep(s, a[..], blockStart, blockEnd);
      prev := ChunkProcess(a, blockStart, blockEnd, prev, true);
      blockStart := blockEnd + 1;
    }
    BlockStep(length, numThreads, numThreads - 1);
    ChunkStep(s, a[..], blockStart, length - 1);
    var _ := ChunkProcess(a, blockStart, length - 1, prev, false);
    PrefixSumsPointwise(s, a[..]);
  }

  /** The example test_partical_sum.cpp checks: [1, 2, 3, 4] becomes
      [1, 3, 6, 10]. */
  lemma PrefixSumsExample()
    ensures PrefixSums([1, 2, 3, 4]) == [1, 3, 6, 10]
  {
  }
}
