/** `ParallelAccumulate`: the sum of a range computed as one partial sum per
    block, then the partial sums folded onto the initial value. Integer
    elements; the blocks run one after another. */
module ParallelAccumulateModel {
  import opened Sums
  import opened Blocks

  /** `AccumulateBlock`: `results[i]` becomes `std::accumulate` of
      `s[first..last)` started from its old value; no other slot changes. */
  method AccumulateBlock(s: seq<int>, first: nat, last: nat, results: array<int>, i: nat)
    requires first <= last <= |s| && i < results.Length
    modifies results
    ensures results[i] == old(results[i]) + RangeSum(s, first, last)
    ensures forall j :: 0 <= j < results.Length && j != i ==> results[j] == old(results[j])
  {
    var acc := results[i];
    for k := first to last
      invariant acc == results[i] + RangeSum(s, first, k)
    {
      acc := acc + s[k];
    }
    results[i] := acc;
  }

  /** `std::accumulate(s.begin(), s.end(), init)` with a loop. */
  method Accumulate(s: seq<int>, init: int) returns (r: int)
    ensures r == init + Sum(s)
  {
    r := init;
    for k := 0 to |s|
      invariant r == init + RangeSum(s, 0, k)
    {
      r := r + s[k];
    }
  }

  /** Block sums of a tiling add up: the first `n` of them together are
      the sum of everything before the end of block `n - 1`. */
  lemma {:induction false} BlockSumsAdd(s: seq<int>, b: seq<(nat, nat)>, r: seq<int>, n: nat)
    requires 1 <= |b| <= |s| && b == BlockBounds(|s|, |b|)
    requires |r| == |b| && n <= |b|
    requires forall j :: 0 <= j < |b| ==> b[j].0 <= b[j].1 <= |s| && r[j] == RangeSum(s, b[j].0, b[j].1)
    ensures RangeSum(r, 0, n) == RangeSum(s, 0, if n == 0 then 0 else b[n - 1].1)
  {
    BlocksTile(|s|, |b|);
    if n > 0 {
      BlockSumsAdd(s, b, r, n - 1);
      RangeSumSplit(s, 0, b[n - 1].0, b[n - 1].1);
    }
  }

  /** The block loop: each of the `num` blocks of `BlockBounds` summed into
      its own slot of `slots`, which starts zeroed. */
  method SumBlocks(s: seq<int>, slots: array<int>)
    requires 1 <= slots.Length <= |s|
    requires forall j :: 0 <= j < slots.Length ==> slots[j] == 0
    modifies slots
    ensures var b := BlockBounds(|s|, slots.Length);
      forall j :: 0 <= j < slots.Length ==> b[j].0 <= b[j].1 <= |s| && slots[j] == RangeSum(s, b[j].0, b[j].1)
  {
    var length, numThreads := |s|, slots.Length;
    var blockSize := BlockSize(length, numThreads);
    ghost var b := BlockBounds(length, numThreads);
    BlocksTile(length, numThreads);
    var blockStart := 0;
    for i := 0 to numThreads - 1
      invariant blockStart == b[i].0
      invariant forall j :: 0 <= j < i ==> slots[j] == RangeSum(s, b[j].0, b[j].1)
      invariant forall j :: i <= j < numThreads ==> slots[j] == 0
    {
      var blockEnd := blockStart + blockSize;
      assert blockEnd == b[i].1;
      AccumulateBlock(s, blockStart, blockEnd, slots, i);
      blockStart := blockEnd;
    }
    AccumulateBlock(s, blockStart, length, slots, numThreads - 1);
  }

  /** The whole algorithm: `init` for an empty range; otherwise
      `AccumulateThreads` blocks, each summed into its own zeroed slot of
      `results`, and the slots folded onto `init`. The result is `init`
      plus the sum of every element, and each slot holds its block's sum. */
  method ParallelAccumulate(s: seq<int>, init: int, hw: nat) returns (r: int, ghost results: seq<int>)
    ensures r == init + Sum(s)
    ensures |s| > 0 ==>
      && |results| == AccumulateThreads(|s|, hw)
      && var b := BlockBounds(|s|, |results|);
         forall i :: 0 <= i < |results| ==> b[i].0 <= b[i].1 <= |s| && results[i] == RangeSum(s, b[i].0, b[i].1)
  {
    var length := |s|;
    results := [];
    if length == 0 {
      return init, results;
    }
    var numThreads := AccumulateThreads(length, hw);
    var slots := new int[numThreads](_ => 0);
    SumBlocks(s, slots);
    results := slots[..];
    BlocksTile(length, numThreads);
    BlockSumsAdd(s, BlockBounds(length, numThreads), results, numThreads);
    r := Accumulate(slots[..], init);
  }

  /** One block of 40 ones, summed onto 2, gives 42; a single-thread
      machine sums everything in one block. */
  method AccumulateExample(s: seq<int>) returns (r: int, ghost results: seq<int>)
    requires |s| == 40 && forall i :: 0 <= i < 40 ==> s[i] == 1
    ensures r == 42 && results == [40]
  {
    assert Sum(s) == 40 by {
      assert forall k :: 0 <= k <= 40 ==> RangeSum(s, 0, k) == k by {
        forall k | 0 <= k <= 40
          ensures RangeSum(s, 0, k) == k
        {
          OnesSum(s, k);
        }
      }
    }
    r, results := ParallelAccumulate(s, 2, 1);
    assert BlockBounds(40, 1)[0] == (0, 40);
  }

  lemma {:induction false} OnesSum(s: seq<int>, k: nat)
    requires k <= |s| && forall i :: 0 <= i < |s| ==> s[i] == 1
    ensures RangeSum(s, 0, k) == k
  {
    if k > 0 {
      OnesSum(s, k - 1);
    }
  }
}
