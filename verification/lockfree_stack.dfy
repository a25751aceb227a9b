/** `LockfreeStack`: a linked stack whose head is swapped with
    compare-and-swap and whose popped node is deleted at once. One thread
    runs at a time, so every compare-and-swap succeeds at its first try. */
module LockfreeStackModel {
  import opened Base
  import opened Arena

  class LockfreeStack<T> {
    /** `head_`. */
    var head: Ptr
    /** The nodes allocated by this stack. */
    var heap: Heap<T>
    /** The nodes from `head` down, top first. */
    ghost var spine: seq<Ptr>

    /** The nodes form a stack from `head`, and every live node is on it. */
    ghost predicate Valid()
      reads this
    {
      && Stack(heap, head, spine)
      && forall p | p in heap.next :: p in spine
    }

    /** The stacked values, top first. */
    ghost function Contents(): seq<T>
      reads this
      requires Valid()
    {
      Values(heap, spine)
    }

    /** An empty stack: a null head and nothing allocated. */
    constructor ()
      ensures Valid() && Contents() == [] && heap.freed == {}
    {
      head := Null;
      heap := Heap(map[], map[], {}, 1);
      spine := [];
    }

    /** `Push`: a new node holding `x`, linked to the old head, becomes the
        head. */
    method Push(x: T)
      requires Valid()
      modifies this
      ensures Valid()
      ensures Contents() == [x] + old(Contents())
      ensures heap.next[head] == old(head) && head !in old(heap.next) && heap.freed == old(heap.freed)
    {
      StackPush(heap, head, spine, x);
      var node := heap.nextAddr;
      ghost var h0 := heap;
      heap := heap.Alloc(x, head);
      head := node;
      spine := [node] + spine;
      assert forall p | p in heap.next :: p == node || p in h0.next;
    }

    /** `Pop`: null, with nothing changed, on an empty stack; otherwise the
        head advances to its `next_`, the old head's value is returned and
        the old head is deleted. */
    method Pop() returns (r: Option<T>)
      requires Valid()
      modifies this
      ensures Valid()
      ensures old(Contents()) == [] ==> r == None && head == old(head) == Null && heap == old(heap)
      ensures old(Contents()) != [] ==>
        && r == Some(old(Contents())[0])
        && Contents() == old(Contents())[1..]
        && head == old(heap.next[head])
        && heap.next.Keys == old(heap.next.Keys) - {old(head)}
        && heap.freed == old(heap.freed) + {old(head)}
    {
      var oldHead := head;
      if oldHead == Null {
        return None;
      }
      StackTail(heap, head, spine);
      var h0 := heap;
      head := heap.next[oldHead];
      r := heap.data[oldHead];
      heap := heap.Delete(oldHead);
      spine := spine[1..];
      StackFrame(h0, heap, head, spine);
    }
  }

  /** The single-thread sequence that tests/test_lockfree_stack.cpp checks
      on the other stacks: an empty stack pops null; after pushing 1, 2
      and 3 the pops give 3, 2, 1 and then null again; each popped node is
      freed. */
  method LifoExample() returns (empty: Option<int>, p3: Option<int>, p2: Option<int>, p1: Option<int>, after: Option<int>)
    ensures empty == None && p3 == Some(3) && p2 == Some(2) && p1 == Some(1) && after == None
  {
    var s := new LockfreeStack<int>();
    empty := s.Pop();
    s.Push(1);
    s.Push(2);
    s.Push(3);
    p3 := s.Pop();
    p2 := s.Pop();
    p1 := s.Pop();
    after := s.Pop();
  }
}
