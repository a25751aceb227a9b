/** Parallel `ForEach` and `ForEachRecursive` over an array of integers. The
    callable takes an element by reference and changes it, modelled as the
    function from the old value to the new one. Blocks run one after
    another; a halving step runs its upper half and then, when its future is
    waited on, its lower half, as a deferred `std::async` does. */
module ForEachModel {
  import opened Blocks

  /** `std::for_each(first, last, f)` on `a[lo..hi)`: each element in the
      range becomes `f` of its old value, the others keep theirs. */
  method ForEachRange(a: array<int>, lo: nat, hi: nat, f: int -> int)
    requires lo <= hi <= a.Length
    modifies a
    ensures forall j :: lo <= j < hi ==> a[j] == f(old(a[j]))
    ensures forall j :: 0 <= j < a.Length && !(lo <= j < hi) ==> a[j] == old(a[j])
  {
    for k := lo to hi
      invariant forall j :: lo <= j < k ==> a[j] == f(old(a[j]))
      invariant forall j :: 0 <= j < a.Length && !(lo <= j < k) ==> a[j] == old(a[j])
    {
      a[k] := f(a[k]);
    }
  }

  /** `ForEach`: nothing for an empty array; otherwise `NumThreads` blocks,
      the first `num - 1` of `BlockSize` elements and the last up to the
      end. The blocks tile the array, so `f` is applied to every element
      exactly once. */
  method ForEach(a: array<int>, f: int -> int, hw: nat)
    modifies a
    ensures forall j :: 0 <= j < a.Length ==> a[j] == f(old(a[j]))
  {
    var length := a.Length;
    if length == 0 {
      return;
    }
    var numThreads := NumThreads(length, hw);
    var blockSize := BlockSize(length, numThreads);
    var blockStart := 0;
    for i := 0 to numThreads - 1
      invariant blockStart == BlockStart(i, blockSize) <= length
      invariant forall j :: 0 <= j < blockStart ==> a[j] == f(old(a[j]))
      invariant forall j :: blockStart <= j < length ==> a[j] == old(a[j])
    {
      BlockStep(length, numThreads, i);
      var blockEnd := blockStart + blockSize;
      ForEachRange(a, blockStart, blockEnd, f);
      blockStart := blockEnd;
    }
    BlockStep(length, numThreads, numThreads - 1);
    ForEachRange(a, blockStart, length, f);
  }

  /** `ForEachRecursive` on `a[lo..hi)`: fewer than 50 elements are
      processed in one pass; a longer range is split at `length / 2` and
      both halves are processed. Each element of the range is changed
      once and nothing outside it. */
  method ForEachRecursive(a: array<int>, lo: nat, hi: nat, f: int -> int)
    requires lo <= hi <= a.Length
    modifies a
    ensures forall j :: lo <= j < hi ==> a[j] == f(old(a[j]))
    ensures forall j :: 0 <= j < a.Length && !(lo <= j < hi) ==> a[j] == old(a[j])
    decreases hi - lo
  {
    var length := hi - lo;
    if length == 0 {
      return;
    }
    if length < 2 * MinPerThread {
      ForEachRange(a, lo, hi, f);
    } else {
      var midPoint := lo + length / 2;
      ForEachRecursive(a, midPoint, hi, f);
      ForEachRecursive(a, lo, midPoint, f);
    }
  }

  /** The case test_for_each.cpp checks: incrementing `v[i] == i` gives
      `i + 1`, with the block-wise and the halving version alike. */
  method ForEachExample(n: nat, hw: nat) returns (v: array<int>, w: array<int>)
    ensures v.Length == n && w.Length == n
    ensures forall i :: 0 <= i < n ==> v[i] == i + 1 && w[i] == i + 1
  {
    v := new int[n](i => i);
    w := new int[n](i => i);
    ForEach(v, x => x + 1, hw);
    ForEachRecursive(w, 0, n, x => x + 1);
  }
}
