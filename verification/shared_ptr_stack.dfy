/** `LockfreeStackSharedPtr`: a linked stack whose nodes are owned through
    `std::shared_ptr`, loaded and swapped with the atomic `shared_ptr`
    operations. One thread runs at a time, so every compare-and-swap
    succeeds at its first try, and a node is destroyed when its last owner
    goes away. */
module SharedPtrStackModel {
  import opened Base
  import opened Arena

  class LockfreeStackSharedPtr<T> {
    /** `head_`. */
    var head: Ptr
    /** The nodes allocated by this stack. */
    var heap: Heap<T>
    /** The nodes from `head` down, top first. */
    ghost var spine: seq<Ptr>

    /** The nodes form a stack from `head`, and every live node is on it. */
    ghost predicate Valid()
      reads this
    {
      && Stack(heap, head, spine)
      && forall p | p in heap.next :: p in spine
    }

    /** The stacked values, top first. */
    ghost function Contents(): seq<T>
      reads this
      requires Valid()
    {
      Values(heap, spine)
    }

    /** The defaulted constructor: a null head. */
    constructor ()
      ensures Valid() && Contents() == [] && heap.freed == {}
    {
      head := Null;
      heap := Heap(map[], map[], {}, 1);
      spine := [];
    }

    /** `Push`: a new node holding `x`, whose `next_` is the old head,
        becomes the head. */
    method Push(x: T)
      requires Valid()
      modifies this
      ensures Valid()
      ensures Contents() == [x] + old(Contents())
      ensures heap.next[head] == old(head) && head !in old(heap.next) && heap.freed == old(heap.freed)
    {
      StackPush(heap, head, spine, x);
      var node := heap.nextAddr;
      ghost var h0 := heap;
      heap := heap.Alloc(x, head);
      head := node;
      spine := [node] + spine;
      assert forall p | p in heap.next :: p == node || p in h0.next;
    }

    /** The body of `Pop` on a non-empty stack, up to its return: the head
        advances to the old head's `next_`, and the old head, still owned
        by the local `old_head`, has its `next_` reset to null so that it
        no longer holds on to the rest of the stack. */
    method Detach() returns (node: Ptr, r: T)
      requires Valid() && spine != []
      modifies this
      ensures Stack(heap, head, spine) && Values(heap, spine) == old(Contents())[1..]
      ensures r == old(Contents())[0]
      ensures node == old(head) && head == old(heap.next[head]) && node !in spine
      ensures node in heap.next && heap.next[node] == Null
      ensures forall p | p in heap.next :: p in spine || p == node
      ensures heap.next.Keys == old(heap.next.Keys) && heap.freed == old(heap.freed)
    {
      node := head;
      StackTail(heap, head, spine);
      ghost var h0 := heap;
      head := heap.next[node];
      spine := spine[1..];
      heap := heap.SetNext(node, Null);
      r := heap.data[node].value;
      StackFrame(h0, heap, head, spine);
    }

    /** `Pop`: null, with nothing changed, on an empty stack; otherwise the
        old head's value, with the head advanced to its `next_`; when the
        local `old_head` goes out of scope it was the node's last owner, so
        the node is destroyed. */
    method Pop() returns (r: Option<T>)
      requires Valid()
      modifies this
      ensures Valid()
      ensures old(Contents()) == [] ==> r == None && head == old(head) == Null && heap == old(heap)
      ensures old(Contents()) != [] ==>
        && r == Some(old(Contents())[0])
        && Contents() == old(Contents())[1..]
        && head == old(heap.next[head])
        && heap.next.Keys == old(heap.next.Keys) - {old(head)}
        && heap.freed == old(heap.freed) + {old(head)}
    {
      if head == Null {
        return None;
      }
      var node, x := Detach();
      Destroy(node);
      r := Some(x);
    }

    /** The end of the last owner of a node that is off the stack: the
        node is destroyed, and the stack is left as it was. */
    method Destroy(node: Ptr)
      requires Stack(heap, head, spine) && node in heap.next && node !in spine
      requires forall p | p in heap.next :: p in spine || p == node
      modifies this
      ensures Valid() && Contents() == old(Values(heap, spine))
      ensures head == old(head) && spine == old(spine)
      ensures heap.next.Keys == old(heap.next.Keys) - {node} && heap.freed == old(heap.freed) + {node}
    {
      ghost var h0 := heap;
      heap := heap.Delete(node);
      assert Agree(h0, heap, spine);
      StackFrame(h0, heap, head, spine);
    }

    /** The destructor, `while (Pop());`: afterwards the stack is empty and
        every node it held has been destroyed. */
    method Clear()
      requires Valid()
      modifies this
      ensures Valid() && Contents() == []
      ensures heap.next.Keys == {}
      ensures forall p | p in old(heap.next) :: p in heap.freed
    {
      while true
        invariant Valid()
        invariant forall p | p in old(heap.next) :: p in heap.next || p in heap.freed
        decreases |spine|
      {
        var r := Pop();
        if r.None? {
          break;
        }
      }
    }
  }

  /** The sequence tests/test_lockfree_stack.cpp checks: an empty stack pops
      null; after pushing 1, 2 and 3 the pops give 3, 2, 1 and then null
      again. */
  method LifoExample() returns (empty: Option<int>, p3: Option<int>, p2: Option<int>, p1: Option<int>, after: Option<int>)
    ensures empty == None && p3 == Some(3) && p2 == Some(2) && p1 == Some(1) && after == None
  {
    var s := new LockfreeStackSharedPtr<int>();
    empty := s.Pop();
    s.Push(1);
    s.Push(2);
    s.Push(3);
    p3 := s.Pop();
    p2 := s.Pop();
    p1 := s.Pop();
    after := s.Pop();
    s.Clear();
  }
}
