/** `Sorter`: a quicksort on lists that takes the first element as pivot,
    partitions the rest around it, pushes the lower part onto a stack of
    chunks for any thread to sort, sorts the upper part itself and then
    sorts chunks from the stack until its own lower part is done. With one
    thread the chunk it pushed is the one it pops. Elements are integers. */
module SortModel {
  import opened Base
  import opened ThreadsafeStackModel

  /** Non-descending order. */
  predicate Sorted(s: seq<int>)
  {
    forall i, j :: 0 <= i < j < |s| ==> s[i] <= s[j]
  }

  /** The elements of `s` below the pivot, in order. */
  function Lower(s: seq<int>, pivot: int): (r: seq<int>)
    ensures |r| <= |s|
    ensures forall i :: 0 <= i < |r| ==> r[i] < pivot
  {
    if s == [] then []
    else (if s[0] < pivot then [s[0]] else []) + Lower(s[1..], pivot)
  }

  /** The elements of `s` not below the pivot, in order. */
  function Higher(s: seq<int>, pivot: int): (r: seq<int>)
    ensures |r| <= |s|
    ensures forall i :: 0 <= i < |r| ==> pivot <= r[i]
  {
    if s == [] then []
    else (if s[0] < pivot then [] else [s[0]]) + Higher(s[1..], pivot)
  }

  /** `std::partition` around the pivot splits the elements without losing
      or adding any. */
  lemma {:induction false} PartitionMultiset(s: seq<int>, pivot: int)
    ensures multiset(Lower(s, pivot)) + multiset(Higher(s, pivot)) == multiset(s)
    decreases |s|
  {
    if s != [] {
      PartitionMultiset(s[1..], pivot);
      assert s == [s[0]] + s[1..];
    }
  }

  /** Every element of a permutation of `b` is below `pivot` when every
      element of `b` is. */
  lemma BelowCarries(a: seq<int>, b: seq<int>, pivot: int)
    requires multiset(a) == multiset(b)
    requires forall i :: 0 <= i < |b| ==> b[i] < pivot
    ensures forall i :: 0 <= i < |a| ==> a[i] < pivot
  {
    forall i | 0 <= i < |a|
      ensures a[i] < pivot
    {
      assert a[i] in multiset(b);
    }
  }

  /** Every element of a permutation of `b` is at least `pivot` when every
      element of `b` is. */
  lemma AboveCarries(a: seq<int>, b: seq<int>, pivot: int)
    requires multiset(a) == multiset(b)
    requires forall i :: 0 <= i < |b| ==> pivot <= b[i]
    ensures forall i :: 0 <= i < |a| ==> pivot <= a[i]
  {
    forall i | 0 <= i < |a|
      ensures pivot <= a[i]
    {
      assert a[i] in multiset(b);
    }
  }

  /** Sorted parts around a pivot, all below and all at or above it, make a
      sorted whole. */
  lemma SortedAround(a: seq<int>, pivot: int, b: seq<int>)
    requires Sorted(a) && Sorted(b)
    requires forall i :: 0 <= i < |a| ==> a[i] < pivot
    requires forall i :: 0 <= i < |b| ==> pivot <= b[i]
    ensures Sorted(a + [pivot] + b)
  {
  }

  /** `DoSort` as a function: lists of fewer than two elements unchanged,
      otherwise the sorted lower part, the pivot, the sorted upper part. The
      result is the input in non-descending order. */
  function QuickSort(s: seq<int>): (r: seq<int>)
    ensures Sorted(r) && multiset(r) == multiset(s)
    ensures |s| < 2 ==> r == s
    decreases |s|
  {
    if |s| < 2 then s
    else
      var pivot, rest := s[0], s[1..];
      var lower, higher := Lower(rest, pivot), Higher(rest, pivot);
      var lo, hi := QuickSort(lower), QuickSort(higher);
      PartitionMultiset(rest, pivot);
      assert s == [pivot] + rest;
      BelowCarries(lo, lower, pivot);
      AboveCarries(hi, higher, pivot);
      SortedAround(lo, pivot, hi);
      lo + [pivot] + hi
  }

  /** Two non-empty sorted sequences with the same elements start with the
      same, smallest, element. */
  lemma SameHead(a: seq<int>, b: seq<int>)
    requires Sorted(a) && Sorted(b) && multiset(a) == multiset(b) && a != []
    ensures b != [] && a[0] == b[0]
  {
    assert a[0] in multiset(b);
    var i :| 0 <= i < |b| && b[i] == a[0];
    assert b[0] in multiset(a);
    var j :| 0 <= j < |a| && a[j] == b[0];
  }

  /** Dropping the first element keeps a sequence sorted and takes one copy
      of that element out of its elements. */
  lemma Tail(a: seq<int>)
    requires Sorted(a) && a != []
    ensures Sorted(a[1..])
    ensures multiset(a[1..]) == multiset(a) - multiset{a[0]}
  {
    assert a == [a[0]] + a[1..];
  }

  /** Two sorted sequences with the same elements are equal: the sorted
      order of a collection is unique. */
  lemma {:induction false} SortedUnique(a: seq<int>, b: seq<int>)
    requires Sorted(a) && Sorted(b) && multiset(a) == multiset(b)
    ensures a == b
    decreases |a|
  {
    if a == [] {
      assert |b| == |multiset(b)| == 0;
    } else {
      SameHead(a, b);
      Tail(a);
      Tail(b);
      SortedUnique(a[1..], b[1..]);
      assert a == [a[0]] + a[1..] && b == [b[0]] + b[1..];
    }
  }

  /** Sorting gives the one sorted sequence with the same elements. */
  lemma SortsTo(s: seq<int>, t: seq<int>)
    requires Sorted(t) && multiset(s) == multiset(t)
    ensures QuickSort(s) == t
  {
    SortedUnique(QuickSort(s), t);
  }

  /** The values occurring in `s`. */
  function Elements(s: seq<int>): set<int>
  {
    set x | x in s
  }

  /** A sequence has at most as many distinct values as elements, and one
      with as many holds each of them once. */
  lemma {:induction false} DistinctMultiset(s: seq<int>)
    ensures |Elements(s)| <= |s|
    ensures |Elements(s)| == |s| ==> multiset(s) == multiset(Elements(s))
    decreases |s|
  {
    if s != [] {
      var r := s[1..];
      assert s == [s[0]] + r;
      assert Elements(s) == {s[0]} + Elements(r);
      DistinctMultiset(r);
      if s[0] !in Elements(r) && |Elements(s)| == |s| {
        assert multiset(Elements(s)) == multiset{s[0]} + multiset(Elements(r));
      }
    }
  }

  /** A strictly increasing sequence has as many distinct values as
      elements. */
  lemma {:induction false} IncreasingElements(s: seq<int>)
    requires forall i, j :: 0 <= i < j < |s| ==> s[i] < s[j]
    ensures |Elements(s)| == |s|
    decreases |s|
  {
    if s != [] {
      var r := s[1..];
      assert Elements(s) == {s[0]} + Elements(r);
      assert s[0] !in Elements(r);
      IncreasingElements(r);
    }
  }

  /** 1..20 is sorted and is a permutation of the list in `func`. */
  lemma TwentyFacts(s: seq<int>, t: seq<int>)
    requires s == [13, 7, 1, 20, 9, 4, 17, 3, 15, 6, 2, 11, 18, 14, 5, 10, 8, 19, 16, 12]
    requires t == [1, 2, 3, 4, 5, 6, 7, 8, 9, 10, 11, 12, 13, 14, 15, 16, 17, 18, 19, 20]
    ensures Sorted(t) && multiset(s) == multiset(t)
  {
    assert Elements(s) == Elements(t);
    assert t == seq(20, i => i + 1);
    IncreasingElements(t);
    DistinctMultiset(s);
    DistinctMultiset(t);
  }

  /** The list sorted in `func`, a permutation of 1..20, comes out as
      1..20. */
  lemma TwentyExample(s: seq<int>)
    requires s == [13, 7, 1, 20, 9, 4, 17, 3, 15, 6, 2, 11, 18, 14, 5, 10, 8, 19, 16, 12]
    ensures QuickSort(s) == [1, 2, 3, 4, 5, 6, 7, 8, 9, 10, 11, 12, 13, 14, 15, 16, 17, 18, 19, 20]
  {
    var t := [1, 2, 3, 4, 5, 6, 7, 8, 9, 10, 11, 12, 13, 14, 15, 16, 17, 18, 19, 20];
    TwentyFacts(s, t);
    SortsTo(s, t);
  }

  /** [1, 1, 2, 2, 3, 3] is sorted and is a permutation of the list
      [3, 1, 2, 3, 2, 1] that test_sort.cpp gives the pool-based sorter
      `SorterThreadPool`. */
  lemma DuplicatesFacts(s: seq<int>, t: seq<int>)
    requires s == [3, 1, 2, 3, 2, 1] && t == [1, 1, 2, 2, 3, 3]
    ensures Sorted(t) && multiset(s) == multiset(t)
  {
    assert t == seq(6, i => i / 2 + 1);
  }

  /** The list with repeated values that test_sort.cpp gives the
      pool-based sorter `SorterThreadPool`, sorted here by `QuickSort`:
      [3, 1, 2, 3, 2, 1] sorts to [1, 1, 2, 2, 3, 3]. */
  lemma DuplicatesExample(s: seq<int>)
    requires s == [3, 1, 2, 3, 2, 1]
    ensures QuickSort(s) == [1, 1, 2, 2, 3, 3]
  {
    var t := [1, 1, 2, 2, 3, 3];
    DuplicatesFacts(s, t);
    SortsTo(s, t);
  }

  /** `max_thread_count_`: one less than the hardware concurrency, computed
      in `unsigned`, so an unknown concurrency (0) wraps to `UINT_MAX`. */
  function MaxThreadCount(hw: uint32): (r: uint32)
    ensures hw > 0 ==> r as int == hw as int - 1
    ensures hw == 0 ==> r as int == UINT_MAX
  {
    ToUint32(hw as int - 1)
  }

  class Sorter {
    /** `chunks_`: lower parts waiting to be sorted, top last. The promise
        of a chunk is the value `TrySortChunk` returns for it. */
    const chunks: ThreadsafeStack<seq<int>>

    constructor ()
      ensures fresh(chunks) && chunks.data == []
    {
      chunks := new ThreadsafeStack();
    }

    /** `DoSort`: the pivot is taken off the front, the lower part is pushed
        as a chunk, the upper part is sorted recursively, then chunks are
        taken off the stack and sorted until the own chunk's result is
        there. The result is `QuickSort` of the list, and the chunk stack is
        as it was. */
    method DoSort(list: seq<int>) returns (res: seq<int>)
      modifies chunks
      ensures res == QuickSort(list)
      ensures chunks.data == old(chunks.data)
      decreases |list|, 1
    {
      if |list| < 2 {
        return list;
      }
      var dividePoint := list[0];
      var rest := list[1..];
      var lowerChunk, higher := Lower(rest, dividePoint), Higher(rest, dividePoint);
      ghost var entry := chunks.data;
      chunks.Push(lowerChunk);
      var sortedHigher := DoSort(higher);
      var lowerResult: Option<seq<int>> := None;
      while lowerResult.None?
        invariant lowerResult.None? ==> chunks.data == entry + [lowerChunk]
        invariant lowerResult.Some? ==> chunks.data == entry && lowerResult.value == QuickSort(lowerChunk)
        decreases if lowerResult.None? then 1 else 0
      {
        lowerResult := TrySortChunk();
      }
      res := lowerResult.value + [dividePoint] + sortedHigher;
    }

    /** `TrySortChunk`: the top chunk, if any, is popped and sorted; its
        sorted list is what the chunk's promise receives. */
    method TrySortChunk() returns (sorted: Option<seq<int>>)
      modifies chunks
      ensures old(chunks.data) == [] ==> sorted == None && chunks.data == []
      ensures old(chunks.data) != [] ==>
        && chunks.data == old(chunks.data)[..|old(chunks.data)| - 1]
        && sorted == Some(QuickSort(old(chunks.data)[|old(chunks.data)| - 1]))
      decreases if chunks.data == [] then 0 else |chunks.data[|chunks.data| - 1]|, 2
    {
      var chunk := chunks.Pop();
      if chunk.Some? {
        var r := DoSort(chunk.value);
        sorted := Some(r);
      } else {
        sorted := None;
      }
    }
  }

  /** Sorting the list that test_sort.cpp gives the pool-based sorter
      `SorterThreadPool`, here with this `Sorter`, gives
      [1, 1, 2, 2, 3, 3] and leaves no chunk behind. */
  method SorterExample(input: seq<int>) returns (sorted: seq<int>, left: nat)
    requires input == [3, 1, 2, 3, 2, 1]
    ensures sorted == [1, 1, 2, 2, 3, 3] && left == 0
  {
    var s := new Sorter();
    sorted := s.DoSort(input);
    DuplicatesExample(input);
    left := |s.chunks.data|;
  }
}
