/** Sums over sequences of integers, as `std::accumulate` and
    `std::partial_sum` compute them. */
module Sums {

  /** The left-to-right sum of `s[lo..hi)`. */
  function RangeSum(s: seq<int>, lo: nat, hi: nat): int
    requires lo <= hi <= |s|
    decreases hi - lo
  {
    if lo == hi then 0 else RangeSum(s, lo, hi - 1) + s[hi - 1]
  }

  /** The value `std::accumulate(s, 0)` returns. */
  function Sum(s: seq<int>): int
  {
    RangeSum(s, 0, |s|)
  }

  /** The inclusive prefix sums that `std::partial_sum` writes. */
  function PrefixSums(s: seq<int>): (r: seq<int>)
    ensures |r| == |s|
  {
    seq(|s|, k requires 0 <= k < |s| => RangeSum(s, 0, k + 1))
  }

  /** A range sum splits at any point in between. */
  lemma {:induction false} RangeSumSplit(s: seq<int>, lo: nat, mid: nat, hi: nat)
    requires lo <= mid <= hi <= |s|
    ensures RangeSum(s, lo, hi) == RangeSum(s, lo, mid) + RangeSum(s, mid, hi)
    decreases hi - mid
  {
    if mid < hi {
      RangeSumSplit(s, lo, mid, hi - 1);
    }
  }

  /** A range sum depends only on the elements inside the range. */
  lemma {:induction false} RangeSumAgree(s: seq<int>, t: seq<int>, lo: nat, hi: nat)
    requires lo <= hi <= |s| && hi <= |t|
    requires forall j :: lo <= j < hi ==> s[j] == t[j]
    ensures RangeSum(s, lo, hi) == RangeSum(t, lo, hi)
    decreases hi - lo
  {
    if lo < hi {
      RangeSumAgree(s, t, lo, hi - 1);
    }
  }

  /** The sum of a concatenation is the sum of the parts. */
  lemma SumConcat(a: seq<int>, b: seq<int>)
    ensures Sum(a + b) == Sum(a) + Sum(b)
  {
    var c := a + b;
    RangeSumSplit(c, 0, |a|, |c|);
    RangeSumAgree(c, a, 0, |a|);
    RangeSumShift(c, b, |a|);
  }

  /** Summing the tail of `c` from `off` on is summing `b` when `c` ends with `b`. */
  lemma {:induction false} RangeSumShift(c: seq<int>, b: seq<int>, off: nat)
    requires off + |b| == |c|
    requires forall j :: 0 <= j < |b| ==> c[off + j] == b[j]
    ensures RangeSum(c, off, |c|) == RangeSum(b, 0, |b|)
    decreases |b|
  {
    if |b| > 0 {
      RangeSumShift(c[..|c| - 1], b[..|b| - 1], off);
      RangeSumAgree(c[..|c| - 1], c, off, |c| - 1);
      RangeSumAgree(b[..|b| - 1], b, 0, |b| - 1);
    }
  }

  /** Each prefix sum extends the previous one by the next element, which is
      the recurrence `std::partial_sum` follows, and the last one is the
      total. */
  lemma PrefixSumsStep(s: seq<int>, k: nat)
    requires 0 < k < |s|
    ensures PrefixSums(s)[0] == s[0]
    ensures PrefixSums(s)[k] == PrefixSums(s)[k - 1] + s[k]
    ensures PrefixSums(s)[|s| - 1] == Sum(s)
  {
    assert RangeSum(s, 0, 1) == RangeSum(s, 0, 0) + s[0];
  }

  /** A sequence holding, at each index, the sum up to and including that
      index is the prefix-sum sequence. */
  lemma PrefixSumsPointwise(s: seq<int>, r: seq<int>)
    requires |r| == |s|
    requires forall j :: 0 <= j < |s| ==> r[j] == RangeSum(s, 0, j + 1)
    ensures r == PrefixSums(s)
  {
  }
}

/** The rule that splits a range of `len` elements into blocks, one per
    thread, used by `Find`, `ForEach`, `PartialSum` and `ParallelAccumulate`. */
module Blocks {

  /** The minimum number of elements the algorithms give one thread. */
  const MinPerThread: nat := 25

  function Min(a: int, b: int): int { if a <= b then a else b }
  function Max(a: int, b: int): int { if a >= b then a else b }

  /** `(length + min_per_thread - 1) / min_per_thread`: the most threads
      worth starting for `len` elements. */
  function MaxThreads(len: nat): nat
  {
    (len + MinPerThread - 1) / MinPerThread
  }

  /** The thread count of `Find`, `ForEach` and `PartialSum`:
      `min(max_threads, max(2, hardware_concurrency))`. */
  function NumThreads(len: nat, hw: nat): (n: nat)
    ensures len > 0 ==> 1 <= n <= len
    ensures n <= Max(2, hw)
    ensures len > 0 && len <= MinPerThread ==> n == 1
  {
    Min(MaxThreads(len), Max(2, hw))
  }

  /** The thread count of `ParallelAccumulate`:
      `min(hardware_concurrency == 0 ? 2 : hardware_concurrency, max_threads)`. */
  function AccumulateThreads(len: nat, hw: nat): (n: nat)
    ensures len > 0 ==> 1 <= n <= len
    ensures hw == 1 ==> n <= 1
    ensures n <= (if hw == 0 then 2 else hw)
  {
    Min(if hw == 0 then 2 else hw, MaxThreads(len))
  }

  /** `length / num_threads`: the size of every block but the last. */
  function BlockSize(len: nat, num: nat): (bs: nat)
    requires 1 <= num <= len
    ensures bs >= 1
  {
    len / num
  }

  /** Where block `i` starts: `block_start` advanced `i` times by
      `block_size` from `first`. */
  function BlockStart(i: nat, bs: nat): nat
  {
    if i == 0 then 0 else BlockStart(i - 1, bs) + bs
  }

  /** The half-open index range `[lo, hi)` of each block: the first
      `num - 1` blocks hold `BlockSize` elements, the last runs to `len`. */
  function BlockBounds(len: nat, num: nat): (b: seq<(nat, nat)>)
    requires 1 <= num <= len
    ensures |b| == num
  {
    var bs := BlockSize(len, num);
    seq(num, i requires 0 <= i < num => (BlockStart(i, bs), if i < num - 1 then BlockStart(i + 1, bs) else len))
  }

  lemma {:induction false} BlockStartIsProduct(i: nat, bs: nat)
    ensures BlockStart(i, bs) == i * bs
  {
    if i > 0 {
      BlockStartIsProduct(i - 1, bs);
      Distribute(i - 1, bs);
    }
  }

  /** The loop that advances `block_start` by `block_size` stays inside the
      range: every block but the last ends by `len`, and the last block
      starts before `len`. */
  lemma BlockStep(len: nat, num: nat, i: nat)
    requires 1 <= num <= len && i < num
    ensures var bs := BlockSize(len, num);
      BlockStart(i, bs) < len && (i < num - 1 ==> BlockStart(i, bs) + bs <= len)
  {
    var bs := BlockSize(len, num);
    BlockStartIsProduct(i, bs);
    BlockStartIsProduct(i + 1, bs);
    DivFacts(len, num);
    MulMono(i + 1, num, bs);
    assert num * bs <= len by { MulComm(num, bs); }
  }

  lemma MulComm(a: nat, b: nat)
    ensures a * b == b * a
  {
  }

  /** The blocks tile `[0, len)`: the first starts at 0, each starts where
      the previous one ends, the last ends at `len`, none is empty, and all
      but the last have exactly `BlockSize` elements. */
  lemma BlocksTile(len: nat, num: nat)
    requires 1 <= num <= len
    ensures var b := BlockBounds(len, num);
      && b[0].0 == 0
      && b[num - 1].1 == len
      && (forall i :: 0 <= i < num - 1 ==> b[i].1 == b[i + 1].0)
      && (forall i :: 0 <= i < num ==> b[i].0 < b[i].1 <= len)
      && (forall i :: 0 <= i < num - 1 ==> b[i].1 - b[i].0 == BlockSize(len, num))
  {
    var b := BlockBounds(len, num);
    forall i | 0 <= i < num
      ensures b[i].0 < b[i].1 <= len
    {
      BlockStep(len, num, i);
    }
  }

  lemma Distribute(a: nat, c: nat)
    ensures (a + 1) * c == a * c + c
  {
  }

  lemma MulMono(a: nat, b: nat, c: nat)
    requires a <= b
    ensures a * c <= b * c
  {
  }

  lemma DivFacts(k: nat, d: nat)
    requires d >= 1
    ensures (k / d) * d <= k < (k / d) * d + d
  {
  }

  /** Every index of the range lies in exactly one block. */
  lemma BlocksCoverOnce(len: nat, num: nat, k: nat)
    requires 1 <= num <= len && k < len
    ensures var b := BlockBounds(len, num);
      exists i :: 0 <= i < num && b[i].0 <= k < b[i].1
    ensures var b := BlockBounds(len, num);
      forall i, j :: 0 <= i < num && 0 <= j < num && b[i].0 <= k < b[i].1 && b[j].0 <= k < b[j].1 ==> i == j
  {
    var b, bs := BlockBounds(len, num), BlockSize(len, num);
    BlocksTile(len, num);
    var i := LastStartAtOrBefore(len, num, k, 0);
    assert b[i].0 <= k < b[i].1;
    forall i1, j1 | 0 <= i1 < num && 0 <= j1 < num && b[i1].0 <= k < b[i1].1 && b[j1].0 <= k < b[j1].1
      ensures i1 == j1
    {
      if i1 < j1 { BlockEndBeforeLaterStart(len, num, i1, j1); }
      if j1 < i1 { BlockEndBeforeLaterStart(len, num, j1, i1); }
    }
  }

  /** A block containing `k`, searched from block `from` onwards. */
  lemma {:induction false} LastStartAtOrBefore(len: nat, num: nat, k: nat, from: nat) returns (i: nat)
    requires 1 <= num <= len && k < len && from < num
    requires BlockBounds(len, num)[from].0 <= k
    ensures i < num && BlockBounds(len, num)[i].0 <= k < BlockBounds(len, num)[i].1
    decreases num - from
  {
    BlocksTile(len, num);
    var b := BlockBounds(len, num);
    if k < b[from].1 {
      i := from;
    } else {
      i := LastStartAtOrBefore(len, num, k, from + 1);
    }
  }

  /** Blocks are ordered: an earlier block ends no later than a later one starts. */
  lemma {:induction false} BlockEndBeforeLaterStart(len: nat, num: nat, i: nat, j: nat)
    requires 1 <= num <= len && i < j < num
    ensures BlockBounds(len, num)[i].1 <= BlockBounds(len, num)[j].0
    decreases j - i
  {
    BlocksTile(len, num);
    if i + 1 < j {
      BlockEndBeforeLaterStart(len, num, i + 1, j);
    }
  }
}
