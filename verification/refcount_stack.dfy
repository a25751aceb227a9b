/** `LockfreeStackReferenceCounting`: a linked stack whose head pointer
    carries an external count, raised by every thread that is about to
    read the head node, while each node keeps an internal count of the
    references given back. Counts are `unsigned`. The steps a popper takes
    are separate methods so that the effect of a lost race can be stated;
    `Pop` is what one thread running alone does. */
module ReferenceCountingStackModel {
  import opened Base
  import opened Arena

  /** `CountedNodePtr`: a node pointer and its external count, of the
      count type `C` (`unsigned` here, `int` in the older stack). */
  datatype CountedNodePtr<C> = CountedNodePtr(node: Ptr, externalCount: C)

  /** The internal count after the thread that detached a node adds its
      external count less 2 (one for the head's own reference, one for
      its own), in `unsigned` arithmetic; the node is freed when this
      is 0. */
  function DetachCount(internal: uint32, external: uint32): uint32
  {
    ToUint32(internal as int + external as int - 2)
  }

  /** The internal count after a thread that lost the race gives its
      reference back; the node is freed when the count was 1. */
  function ReleaseCount(internal: uint32): uint32
  {
    ToUint32(internal as int - 1)
  }

  /** The internal count after `n` references are given back. */
  function Released(c: uint32, n: nat): uint32
  {
    if n == 0 then c else ReleaseCount(Released(c, n - 1))
  }

  /** Giving back `n` references from 0 counts down below zero, modulo
      2^32. */
  lemma {:induction false} ReleasedFromZero(n: nat)
    requires n <= UINT_MAX
    ensures Released(0, n) as int == if n == 0 then 0 else UINT_MAX + 1 - n
  {
    if n > 0 {
      ReleasedFromZero(n - 1);
      if n == 1 {
        WrapBelow(-1);
      } else {
        WrapSmall(UINT_MAX + 1 - n);
      }
    }
  }

  /** Giving back at most `c` references from `c` counts down plainly. */
  lemma {:induction false} ReleasedFrom(c: uint32, n: nat)
    requires n <= c as int
    ensures Released(c, n) as int == c as int - n
  {
    if n > 0 {
      ReleasedFrom(c, n - 1);
      WrapSmall(c as int - n);
    }
  }

  /** The split-count argument for one node. `k + 1` threads raised its
      external count from the 1 it was pushed with; one detached it and
      `k` lost the race, `j` of them giving their reference back before
      the winner adds its count and the rest after. None of the early
      give-backs frees the node; the winner frees it exactly when no loser
      is left to come; otherwise the count is then the number of losers
      still to come, so exactly the last of them frees it. */
  lemma SplitCountFreesOnce(j: nat, k: nat)
    requires j <= k < 0x8000_0000
    ensures forall i :: 0 <= i < j ==> Released(0, i) != 1
    ensures DetachCount(Released(0, j), ToUint32(k + 2)) as int == k - j
    ensures var c := DetachCount(Released(0, j), ToUint32(k + 2));
      forall i :: 0 <= i < k - j ==> (Released(c, i) == 1 <==> i == k - j - 1)
  {
    forall i | 0 <= i < j
      ensures Released(0, i) != 1
    {
      ReleasedFromZero(i);
    }
    ReleasedFromZero(j);
    var before := Released(0, j);
    var external := ToUint32(k + 2);
    WrapSmall(k + 2);
    var c := DetachCount(before, external);
    if j == 0 {
      WrapSmall(k);
    } else {
      WrapAbove(UINT_MAX + 1 - j + k);
    }
    forall i | 0 <= i < k - j
      ensures Released(c, i) == 1 <==> i == k - j - 1
    {
      ReleasedFrom(c, i);
    }
  }

  /** Every live node is on the stack and has both counts. */
  ghost predicate Owned<T, C>(heap: Heap<T>, spine: seq<Ptr>, nextCount: map<Ptr, C>, internalCount: map<Ptr, C>)
  {
    forall p | p in heap.next :: p in spine && p in nextCount && p in internalCount
  }

  /** Every node on the stack has internal count `zero`. */
  ghost predicate Settled<C>(spine: seq<Ptr>, internalCount: map<Ptr, C>, zero: C)
  {
    forall p | p in spine :: p in internalCount && internalCount[p] == zero
  }

  /** Every non-null `next_` on the stack carries the external count `one`. */
  ghost predicate SingleRefs<T, C>(heap: Heap<T>, spine: seq<Ptr>, nextCount: map<Ptr, C>, one: C)
  {
    forall p | p in spine && p in heap.next && heap.next[p] != Null :: p in nextCount && nextCount[p] == one
  }

  /** The state between operations of a thread running alone: the nodes
      form a stack from `head` and every live node is on it; every pointer
      to a node carries the external count 1 and every node's internal
      count is 0. */
  ghost predicate Quiescent<T, C>(heap: Heap<T>, head: CountedNodePtr<C>, nextCount: map<Ptr, C>,
                                  internalCount: map<Ptr, C>, spine: seq<Ptr>, zero: C, one: C)
  {
    && Stack(heap, head.node, spine)
    && Owned(heap, spine, nextCount, internalCount)
    && Settled(spine, internalCount, zero)
    && SingleRefs(heap, spine, nextCount, one)
    && (head.node != Null ==> head.externalCount == one)
  }

  /** A pushed node, with internal count 0 and linked to the old head
      with the head's count, under a head with count 1, keeps the counts
      quiescent. */
  lemma PushQuiescent<T, C>(heap: Heap<T>, head: CountedNodePtr<C>, nextCount: map<Ptr, C>,
                            internalCount: map<Ptr, C>, spine: seq<Ptr>, x: T, zero: C, one: C)
    requires Quiescent(heap, head, nextCount, internalCount, spine, zero, one)
    ensures var a := heap.nextAddr; var heap' := heap.Alloc(x, head.node);
      && Quiescent(heap', CountedNodePtr(a, one), nextCount[a := head.externalCount], internalCount[a := zero], [a] + spine, zero, one)
      && Values(heap', [a] + spine) == [x] + Values(heap, spine)
  {
    StackPush(heap, head.node, spine, x);
    var a := heap.nextAddr;
    PushOwned(heap, spine, nextCount, internalCount, x, head, zero);
    PushSettled(spine, internalCount, a, zero);
    PushSingleRefs(heap, head, spine, nextCount, x, one);
  }

  lemma PushOwned<T, C>(heap: Heap<T>, spine: seq<Ptr>, nextCount: map<Ptr, C>, internalCount: map<Ptr, C>,
                        x: T, head: CountedNodePtr<C>, zero: C)
    requires heap.Valid() && Owned(heap, spine, nextCount, internalCount)
    ensures var a := heap.nextAddr;
      Owned(heap.Alloc(x, head.node), [a] + spine, nextCount[a := head.externalCount], internalCount[a := zero])
  {
    var a := heap.nextAddr;
    var heap' := heap.Alloc(x, head.node);
    forall p | p in heap'.next
      ensures p in [a] + spine
    {
      assert p == a || p in heap.next;
    }
  }

  lemma PushSettled<C>(spine: seq<Ptr>, internalCount: map<Ptr, C>, a: Ptr, zero: C)
    requires Settled(spine, internalCount, zero)
    ensures Settled([a] + spine, internalCount[a := zero], zero)
  {
    assert forall p | p in [a] + spine :: p == a || p in spine;
  }

  lemma PushSingleRefs<T, C>(heap: Heap<T>, head: CountedNodePtr<C>, spine: seq<Ptr>, nextCount: map<Ptr, C>, x: T, one: C)
    requires heap.Valid() && SingleRefs(heap, spine, nextCount, one)
    requires head.node != Null ==> head.externalCount == one
    ensures var a := heap.nextAddr;
      SingleRefs(heap.Alloc(x, head.node), [a] + spine, nextCount[a := head.externalCount], one)
  {
    var a := heap.nextAddr;
    var heap' := heap.Alloc(x, head.node);
    var spine' := [a] + spine;
    var next' := nextCount[a := head.externalCount];
    forall p | p in spine' && p in heap'.next && heap'.next[p] != Null
      ensures p in next' && next'[p] == one
    {
      if p != a {
        assert p in spine && p in heap.next && heap'.next[p] == heap.next[p];
      }
    }
  }

  /** Detaching and freeing the head node, with its internal count settled
      at 0, leaves the nodes below quiescent. */
  lemma PopQuiescent<T, C>(heap: Heap<T>, head: CountedNodePtr<C>, nextCount: map<Ptr, C>,
                           internalCount: map<Ptr, C>, spine: seq<Ptr>, zero: C, one: C)
    requires Quiescent(heap, head, nextCount, internalCount, spine, zero, one) && spine != []
    ensures head.node in heap.next && head.node in nextCount
    ensures var p := head.node; var heap' := heap.TakeData(p).Delete(p);
      && Quiescent(heap', CountedNodePtr(heap.next[p], nextCount[p]), nextCount, internalCount[p := zero], spine[1..], zero, one)
      && Values(heap', spine[1..]) == Values(heap, spine)[1..]
  {
    var p := head.node;
    StackTail(heap, p, spine);
    var heap' := heap.TakeData(p).Delete(p);
    var rest := spine[1..];
    assert Agree(heap, heap', rest);
    StackFrame(heap, heap', heap.next[p], rest);
    PopOwned(heap, spine, nextCount, internalCount, zero);
    PopSettled(spine, internalCount, zero);
    PopSingleRefs(heap, spine, nextCount, one);
    assert p in spine;
  }

  lemma PopOwned<T, C>(heap: Heap<T>, spine: seq<Ptr>, nextCount: map<Ptr, C>, internalCount: map<Ptr, C>, zero: C)
    requires heap.Valid() && Owned(heap, spine, nextCount, internalCount) && spine != [] && spine[0] in heap.next
    requires spine[0] !in spine[1..]
    ensures var p := spine[0];
      Owned(heap.TakeData(p).Delete(p), spine[1..], nextCount, internalCount[p := zero])
  {
    var p := spine[0];
    var heap' := heap.TakeData(p).Delete(p);
    forall q | q in heap'.next
      ensures q in spine[1..]
    {
      assert q in spine && q != p;
    }
  }

  lemma PopSettled<C>(spine: seq<Ptr>, internalCount: map<Ptr, C>, zero: C)
    requires Settled(spine, internalCount, zero) && spine != []
    ensures Settled(spine[1..], internalCount[spine[0] := zero], zero)
  {
    assert forall q | q in spine[1..] :: q in spine;
  }

  lemma PopSingleRefs<T, C>(heap: Heap<T>, spine: seq<Ptr>, nextCount: map<Ptr, C>, one: C)
    requires heap.Valid() && SingleRefs(heap, spine, nextCount, one) && spine != [] && spine[0] in heap.next
    ensures var p := spine[0];
      SingleRefs(heap.TakeData(p).Delete(p), spine[1..], nextCount, one)
  {
    var p := spine[0];
    var heap' := heap.TakeData(p).Delete(p);
    forall q | q in spine[1..] && q in heap'.next && heap'.next[q] != Null
      ensures q in nextCount && nextCount[q] == one
    {
      assert q in spine && q in heap.next;
    }
  }

  class LockfreeStackReferenceCounting<T> {
    /** `head_`. */
    var head: CountedNodePtr<uint32>
    /** The nodes allocated by this stack; `heap.next` is the pointer half
        of each node's `next_`. */
    var heap: Heap<T>
    /** The external count half of each node's `next_`. */
    var nextCount: map<Ptr, uint32>
    /** Each node's `internal_count_`. */
    var internalCount: map<Ptr, uint32>
    /** The nodes from `head` down, top first. */
    ghost var spine: seq<Ptr>

    /** Between operations of a thread running alone: `Quiescent`, with
        counts 0 and 1. */
    ghost predicate Valid()
      reads this
    {
      Quiescent(heap, head, nextCount, internalCount, spine, 0, 1)
    }

    /** The stacked values, top first. */
    ghost function Contents(): seq<T>
      reads this
      requires Valid()
    {
      Values(heap, spine)
    }

    /** The defaulted constructor: a null head with count 0. */
    constructor ()
      ensures Valid() && Contents() == [] && heap.freed == {}
      ensures head == CountedNodePtr(Null, 0) && heap.nextAddr == 1
    {
      head := CountedNodePtr(Null, 0);
      heap := Heap(map[], map[], {}, 1);
      nextCount := map[];
      internalCount := map[];
      spine := [];
    }

    /** `Push`: a new node holding `x`, with internal count 0 and whose
        `next_` is the old head, becomes the head with external count 1. */
    method Push(x: T)
      requires Valid()
      modifies this
      ensures Valid()
      ensures Contents() == [x] + old(Contents())
      ensures head == CountedNodePtr(old(heap.nextAddr), 1) && head.node !in old(heap.next)
      ensures heap.next[head.node] == old(head.node) && nextCount[head.node] == old(head.externalCount)
      ensures heap.data[head.node] == Some(x) && internalCount[head.node] == 0 && heap.freed == old(heap.freed)
    {
      PushQuiescent(heap, head, nextCount, internalCount, spine, x, 0, 1);
      var node := heap.nextAddr;
      heap := heap.Alloc(x, head.node);
      nextCount := nextCount[node := head.externalCount];
      internalCount := internalCount[node := 0];
      head := CountedNodePtr(node, 1);
      spine := [node] + spine;
    }

    /** `IncreaseHeadCount`: the head's external count goes up by one and
        the caller's snapshot takes the new head. The compare-and-swap
        loop succeeds at its first try when no other thread moves the head
        in between. */
    method IncreaseHeadCount() returns (snapshot: CountedNodePtr<uint32>)
      modifies this
      ensures head == CountedNodePtr(old(head.node), ToUint32(old(head.externalCount) as int + 1))
      ensures snapshot == head
      ensures heap == old(heap) && nextCount == old(nextCount) && internalCount == old(internalCount)
      ensures spine == old(spine)
    {
      var newHead := CountedNodePtr(head.node, ToUint32(head.externalCount as int + 1));
      head := newHead;
      snapshot := newHead;
    }

    /** One pass of `Pop`'s loop after `IncreaseHeadCount`, for a non-null
        snapshot. If the head still equals the snapshot it is replaced by
        the node's `next_`, the value is moved out and the internal count
        settled with `DetachCount`, the node being freed when that gives
        0; the result is the value. Otherwise the race is lost: the
        reference is given back with `ReleaseCount`, the node is freed if
        the count was 1, and the result is `None`, for another pass. */
    method TryDetach(snapshot: CountedNodePtr<uint32>) returns (r: Option<Option<T>>)
      requires heap.Valid() && snapshot.node in heap.next
      requires snapshot.node in nextCount && snapshot.node in internalCount
      modifies this
      ensures var p := snapshot.node;
        if old(head) == snapshot then
          && head == CountedNodePtr(old(heap.next[p]), old(nextCount[p]))
          && r == Some(old(heap.data[p]))
          && internalCount == old(internalCount)[p := DetachCount(old(internalCount[p]), snapshot.externalCount)]
          && heap == if internalCount[p] == 0 then old(heap).TakeData(p).Delete(p) else old(heap).TakeData(p)
        else
          && head == old(head)
          && r == None
          && internalCount == old(internalCount)[p := ReleaseCount(old(internalCount[p]))]
          && heap == if old(internalCount[p]) == 1 then old(heap).Delete(p) else old(heap)
      ensures nextCount == old(nextCount) && spine == old(spine)
    {
      var node := snapshot.node;
      if head == snapshot {
        head := CountedNodePtr(heap.next[node], nextCount[node]);
        var res := heap.data[node];
        heap := heap.TakeData(node);
        var count := DetachCount(internalCount[node], snapshot.externalCount);
        internalCount := internalCount[node := count];
        if count == 0 {
          heap := heap.Delete(node);
        }
        return Some(res);
      }
      var before := internalCount[node];
      internalCount := internalCount[node := ReleaseCount(before)];
      if before == 1 {
        heap := heap.Delete(node);
      }
      r := None;
    }

    /** `Pop` run by one thread alone. On an empty stack the null head's
        count is still raised and the result is null. Otherwise the race
        cannot be lost: the external count is 2 when the node is detached,
        so its internal count settles at 0 and the node is freed at once;
        the result is the top value and the head becomes its `next_`. */
    method Pop() returns (r: Option<T>)
      requires Valid()
      modifies this
      ensures Valid()
      ensures old(Contents()) == [] ==>
        && r == None && heap == old(heap)
        && head == CountedNodePtr(Null, ToUint32(old(head.externalCount) as int + 1))
      ensures old(Contents()) != [] ==>
        && r == Some(old(Contents())[0])
        && Contents() == old(Contents())[1..]
        && head == CountedNodePtr(old(heap.next[head.node]), old(nextCount[head.node]))
        && heap.next.Keys == old(heap.next.Keys) - {old(head.node)}
        && heap.freed == old(heap.freed) + {old(head.node)}
    {
      if spine != [] {
        PopQuiescent(heap, head, nextCount, internalCount, spine, 0, 1);
      }
      var snapshot := IncreaseHeadCount();
      if snapshot.node == Null {
        return None;
      }
      var outcome := TryDetach(snapshot);
      spine := spine[1..];
      r := outcome.value;
    }

    /** The destructor, `while (Pop());`: afterwards the stack is empty and
        every node it held has been freed. */
    method Clear()
      requires Valid()
      modifies this
      ensures Valid() && Contents() == []
      ensures heap.next.Keys == {}
      ensures forall p | p in old(heap.next) :: p in heap.freed
    {
      while true
        invariant Valid()
        invariant forall p | p in old(heap.next) :: p in heap.next || p in heap.freed
        decreases |spine|
      {
        var r := Pop();
        if r.None? {
          break;
        }
      }
    }
  }

  /** The sequence tests/test_lockfree_stack.cpp checks: an empty stack pops
      null; after pushing 1, 2 and 3 the pops give 3, 2, 1 and then null
      again. */
  method LifoExample() returns (empty: Option<int>, p3: Option<int>, p2: Option<int>, p1: Option<int>, after: Option<int>)
    ensures empty == None && p3 == Some(3) && p2 == Some(2) && p1 == Some(1) && after == None
  {
    var s := new LockfreeStackReferenceCounting<int>();
    empty := s.Pop();
    s.Push(1);
    s.Push(2);
    s.Push(3);
    p3 := s.Pop();
    p2 := s.Pop();
    p1 := s.Pop();
    after := s.Pop();
    s.Clear();
  }

  /** Two poppers raise the count of the one node pushed, so it is 3.
      The later one detaches the node; its settlement leaves 1, so the
      node survives until the other, having lost the race, gives its
      reference back and frees it. */
  method WinnerFirstExample() returns (first: Option<Option<int>>, second: Option<Option<int>>, freedEarly: bool, freedLate: bool)
    ensures first == Some(Some(1)) && second == None && !freedEarly && freedLate
  {
    var s := new LockfreeStackReferenceCounting<int>();
    assert s.heap.nextAddr == 1;
    s.Push(1);
    assert s.head.node == 1;
    assert s.head.externalCount == 1;
    WrapSmall(2);
    WrapSmall(3);
    var a := s.IncreaseHeadCount();
    var b := s.IncreaseHeadCount();
    assert a == CountedNodePtr(1, 2) && b == CountedNodePtr(1, 3);
    WrapSmall(1);
    first := s.TryDetach(b);
    assert s.internalCount[1] == 1;
    freedEarly := 1 in s.heap.freed;
    second := s.TryDetach(a);
    freedLate := 1 in s.heap.freed;
  }

  /** The same race with the loser first: giving its reference back takes
      the internal count below zero, to 2^32 - 1, and the winner's
      settlement wraps it to 0 and frees the node. Either way the node is
      freed once, by the last thread to let go of it. */
  method LoserFirstExample() returns (first: Option<Option<int>>, second: Option<Option<int>>, freedEarly: bool, freedLate: bool)
    ensures first == None && second == Some(Some(1)) && !freedEarly && freedLate
  {
    var s := new LockfreeStackReferenceCounting<int>();
    assert s.heap.nextAddr == 1;
    s.Push(1);
    assert s.head.node == 1;
    assert s.head.externalCount == 1;
    WrapSmall(2);
    WrapSmall(3);
    var a := s.IncreaseHeadCount();
    var b := s.IncreaseHeadCount();
    assert a == CountedNodePtr(1, 2) && b == CountedNodePtr(1, 3);
    WrapBelow(-1);
    WrapAbove(UINT_MAX + 1);
    first := s.TryDetach(a);
    assert s.internalCount[1] as int == UINT_MAX;
    freedEarly := 1 in s.heap.freed;
    second := s.TryDetach(b);
    freedLate := 1 in s.heap.freed;
  }
}
