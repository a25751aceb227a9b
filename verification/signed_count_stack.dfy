/** `LockFreeStack`: the older split-count stack, with `int` counts. Its
    head pointer carries an external count raised by every thread about to
    read the head node, and each node keeps an internal count of the
    references given back; the node is freed by the thread whose update
    brings the internal count to 0. The steps a popper takes are separate
    methods so that the effect of a lost race can be stated; `Pop` is what
    one thread running alone does. */
module SignedCountStackModel {
  import opened Base
  import opened Arena
  import opened ReferenceCountingStackModel

  const INT_MAX: int := 0x7FFF_FFFF
  const INT_MIN: int := -0x8000_0000

  /** The internal count after the thread that detached a node adds its
      external count less 2 (one for the head's own reference, one for
      its own); the node is freed when this is 0, which is what comparing
      the value `fetch_add` returns with minus the increase tests. */
  function DetachCountSigned(internal: int, external: int): int
  {
    internal + external - 2
  }

  /** The internal count after a thread that lost the race gives its
      reference back; the node is freed when the count was 1. */
  function ReleaseCountSigned(internal: int): int
  {
    internal - 1
  }

  /** As long as the signed counts stay in the range of `int`, the signed
      stack and the `unsigned` one compute the same counts modulo 2^32 and
      free a node at the same step: a settlement gives 0 in one exactly
      when it gives 0 in the other, and a release frees in one exactly
      when it frees in the other. */
  lemma SignedAgreesWithUnsigned(internal: int, external: int)
    requires INT_MIN <= internal <= INT_MAX && INT_MIN <= external <= INT_MAX
    requires INT_MIN <= DetachCountSigned(internal, external) <= INT_MAX
    ensures DetachCount(ToUint32(internal), ToUint32(external)) == ToUint32(DetachCountSigned(internal, external))
    ensures DetachCount(ToUint32(internal), ToUint32(external)) == 0 <==> DetachCountSigned(internal, external) == 0
    ensures ReleaseCount(ToUint32(internal)) == ToUint32(ReleaseCountSigned(internal))
    ensures ToUint32(internal) == 1 <==> internal == 1
  {
    var m := UINT_MAX + 1;
    var i := internal % m;
    var e := external % m;
    assert i == internal || i == internal + m by {
      if internal < 0 { WrapBelow(internal); } else { WrapSmall(internal); }
    }
    assert e == external || e == external + m by {
      if external < 0 { WrapBelow(external); } else { WrapSmall(external); }
    }
    var d := DetachCountSigned(internal, external);
    var s := i + e - 2;
    assert s == d || s == d + m || s == d + 2 * m;
    assert ToUint32(d) as int == s % m by {
      if d < 0 { WrapBelow(d); } else { WrapSmall(d); }
      if s >= m {
        WrapAbove(s);
      } else if s >= 0 {
        WrapSmall(s);
      } else {
        WrapBelow(s);
      }
    }
    var r := ReleaseCountSigned(internal);
    assert ToUint32(r) as int == (i - 1) % m by {
      if r < 0 { WrapBelow(r); } else { WrapSmall(r); }
      if i - 1 < 0 { WrapBelow(i - 1); } else { WrapSmall(i - 1); }
    }
  }

  class LockFreeStack<T> {
    /** `head`. */
    var head: CountedNodePtr<int>
    /** The nodes allocated by this stack. */
    var heap: Heap<T>
    /** Each node's `next.external_count`. */
    var nextCount: map<Ptr, int>
    /** Each node's `internal_count`. */
    var internalCount: map<Ptr, int>
    /** The nodes from `head` down, top first. */
    ghost var spine: seq<Ptr>

    /** Between operations of a thread running alone: `Quiescent`, with
        counts 0 and 1. */
    ghost predicate Valid()
      reads this
    {
      Quiescent(heap, head, nextCount, internalCount, spine, 0, 1)
    }

    /** The stacked values, top first. */
    ghost function Contents(): seq<T>
      reads this
      requires Valid()
    {
      Values(heap, spine)
    }

    /** An empty stack: a null head with count 0 and nothing allocated. */
    constructor ()
      ensures Valid() && Contents() == [] && heap.freed == {}
      ensures head == CountedNodePtr(Null, 0) && heap.nextAddr == 1
    {
      head := CountedNodePtr(Null, 0);
      heap := Heap(map[], map[], {}, 1);
      nextCount := map[];
      internalCount := map[];
      spine := [];
    }

    /** `push`: a new node holding `x`, with internal count 0 and whose
        `next` is the old counted head, becomes the head with external
        count 1. */
    method Push(x: T)
      requires Valid()
      modifies this
      ensures Valid()
      ensures Contents() == [x] + old(Contents())
      ensures head == CountedNodePtr(old(heap.nextAddr), 1) && head.node !in old(heap.next)
      ensures heap.next[head.node] == old(head.node) && nextCount[head.node] == old(head.externalCount)
      ensures heap.data[head.node] == Some(x) && internalCount[head.node] == 0 && heap.freed == old(heap.freed)
    {
      PushQuiescent(heap, head, nextCount, internalCount, spine, x, 0, 1);
      var node := heap.nextAddr;
      heap := heap.Alloc(x, head.node);
      nextCount := nextCount[node := head.externalCount];
      internalCount := internalCount[node := 0];
      head := CountedNodePtr(node, 1);
      spine := [node] + spine;
    }

    /** `increase_head_count`: the head's external count goes up by one
        and the caller's snapshot takes the new head. The compare-and-swap
        loop succeeds at its first try when no other thread moves the head
        in between. */
    method IncreaseHeadCount() returns (snapshot: CountedNodePtr<int>)
      modifies this
      ensures head == CountedNodePtr(old(head.node), old(head.externalCount) + 1)
      ensures snapshot == head
      ensures heap == old(heap) && nextCount == old(nextCount) && internalCount == old(internalCount)
      ensures spine == old(spine)
    {
      var newHead := CountedNodePtr(head.node, head.externalCount + 1);
      head := newHead;
      snapshot := newHead;
    }

    /** One pass of `pop`'s loop after `increase_head_count`, for a
        non-null snapshot. If the head still equals the snapshot it is
        replaced by the node's `next`, the value is moved out and the
        internal count settled with `DetachCountSigned`, the node being
        freed when that gives 0; the result is the value. Otherwise the
        race is lost: the reference is given back, the node is freed if
        the count was 1, and the result is `None`, for another pass. */
    method TryDetach(snapshot: CountedNodePtr<int>) returns (r: Option<Option<T>>)
      requires heap.Valid() && snapshot.node in heap.next
      requires snapshot.node in nextCount && snapshot.node in internalCount
      modifies this
      ensures var p := snapshot.node;
        if old(head) == snapshot then
          && head == CountedNodePtr(old(heap.next[p]), old(nextCount[p]))
          && r == Some(old(heap.data[p]))
          && internalCount == old(internalCount)[p := DetachCountSigned(old(internalCount[p]), snapshot.externalCount)]
          && heap == if internalCount[p] == 0 then old(heap).TakeData(p).Delete(p) else old(heap).TakeData(p)
        else
          && head == old(head)
          && r == None
          && internalCount == old(internalCount)[p := ReleaseCountSigned(old(internalCount[p]))]
          && heap == if old(internalCount[p]) == 1 then old(heap).Delete(p) else old(heap)
      ensures nextCount == old(nextCount) && spine == old(spine)
    {
      var node := snapshot.node;
      if head == snapshot {
        head := CountedNodePtr(heap.next[node], nextCount[node]);
        var res := heap.data[node];
        heap := heap.TakeData(node);
        var before := internalCount[node];
        var increase := snapshot.externalCount - 2;
        internalCount := internalCount[node := before + increase];
        if before == -increase {
          heap := heap.Delete(node);
        }
        return Some(res);
      }
      var before := internalCount[node];
      internalCount := internalCount[node := before - 1];
      if before == 1 {
        heap := heap.Delete(node);
      }
      r := None;
    }

    /** `pop` run by one thread alone. On an empty stack the null head's
        count is still raised and the result is null. Otherwise the race
        cannot be lost: the external count is 2 when the node is detached,
        so its internal count settles at 0 and the node is freed at once;
        the result is the top value and the head becomes its `next`. */
    method Pop() returns (r: Option<T>)
      requires Valid()
      modifies this
      ensures Valid()
      ensures old(Contents()) == [] ==>
        && r == None && heap == old(heap)
        && head == CountedNodePtr(Null, old(head.externalCount) + 1)
      ensures old(Contents()) != [] ==>
        && r == Some(old(Contents())[0])
        && Contents() == old(Contents())[1..]
        && head == CountedNodePtr(old(heap.next[head.node]), old(nextCount[head.node]))
        && heap.next.Keys == old(heap.next.Keys) - {old(head.node)}
        && heap.freed == old(heap.freed) + {old(head.node)}
    {
      if spine != [] {
        PopQuiescent(heap, head, nextCount, internalCount, spine, 0, 1);
      }
      var snapshot := IncreaseHeadCount();
      if snapshot.node == Null {
        return None;
      }
      var outcome := TryDetach(snapshot);
      spine := spine[1..];
      r := outcome.value;
    }

    /** The destructor, `while (pop());`: afterwards the stack is empty and
        every node it held has been freed. */
    method Clear()
      requires Valid()
      modifies this
      ensures Valid() && Contents() == []
      ensures heap.next.Keys == {}
      ensures forall p | p in old(heap.next) :: p in heap.freed
    {
      while true
        invariant Valid()
        invariant forall p | p in old(heap.next) :: p in heap.next || p in heap.freed
        decreases |spine|
      {
        var r := Pop();
        if r.None? {
          break;
        }
      }
    }
  }

  /** The single-thread sequence that tests/test_lockfree_stack.cpp checks
      on the other stacks: an empty stack pops null; after pushing 1, 2
      and 3 the pops give 3, 2, 1 and then null again. */
  method LifoExample() returns (empty: Option<int>, p3: Option<int>, p2: Option<int>, p1: Option<int>, after: Option<int>)
    ensures empty == None && p3 == Some(3) && p2 == Some(2) && p1 == Some(1) && after == None
  {
    var s := new LockFreeStack<int>();
    empty := s.Pop();
    s.Push(1);
    s.Push(2);
    s.Push(3);
    p3 := s.Pop();
    p2 := s.Pop();
    p1 := s.Pop();
    after := s.Pop();
    s.Clear();
  }

  /** Two poppers raise the count of the one node pushed to 3. The one
      that loses the race gives its reference back first, taking the
      internal count to -1; the winner's settlement adds 1 and frees the
      node. */
  method LoserFirstExample() returns (first: Option<Option<int>>, second: Option<Option<int>>, freedEarly: bool, freedLate: bool)
    ensures first == None && second == Some(Some(1)) && !freedEarly && freedLate
  {
    var s := new LockFreeStack<int>();
    assert s.heap.nextAddr == 1;
    s.Push(1);
    assert s.head == CountedNodePtr(1, 1);
    var a := s.IncreaseHeadCount();
    var b := s.IncreaseHeadCount();
    assert a == CountedNodePtr(1, 2) && b == CountedNodePtr(1, 3);
    first := s.TryDetach(a);
    assert s.internalCount[1] == -1;
    freedEarly := 1 in s.heap.freed;
    second := s.TryDetach(b);
    freedLate := 1 in s.heap.freed;
  }
}
