/** `LockfreeStackDeleteList`: a linked stack whose popped nodes are freed
    only when no other thread is inside `Pop`. A counter of the threads in
    `Pop` is raised on entry; a thread that finds itself alone claims and
    frees the whole list of pending nodes along with its own, and a thread
    that is not alone chains its node onto the pending list instead. One
    thread runs the stack at a time, so every compare-and-swap succeeds at
    its first try; the other threads inside `Pop` appear only through the
    counter. */
module DeleteListStackModel {
  import opened Base
  import opened Arena

  /** `delete node`, where deleting null does nothing. */
  function FreeNode<T>(h: Heap<T>, node: Ptr): (h': Heap<T>)
    requires h.Valid() && (node != Null ==> node in h.next)
    ensures h'.Valid()
    ensures forall p :: p in h'.next <==> p in h.next && p != node
    ensures forall p :: p in h'.freed <==> p in h.freed || (p == node && node != Null)
    ensures forall p | p in h'.next :: h'.next[p] == h.next[p] && h'.data[p] == h.data[p]
  {
    if node == Null then h else h.Delete(node)
  }

  /** The nodes of a chain are live, non-null and listed once. */
  lemma ChainNodes<T>(h: Heap<T>, first: Ptr, nodes: seq<Ptr>)
    requires h.Valid() && Chain(h, first, nodes)
    ensures Distinct(nodes)
    ensures forall i | 0 <= i < |nodes| :: nodes[i] != Null
    ensures forall p | p in nodes :: p in h.next && p != Null
  {
    forall p | p in nodes ensures p in h.next && p != Null {
      var k :| 0 <= k < |nodes| && nodes[k] == p;
    }
  }

  /** A non-empty chain is a segment whose last node points at null. */
  lemma ChainIsSegment<T>(h: Heap<T>, first: Ptr, nodes: seq<Ptr>)
    requires Chain(h, first, nodes) && nodes != []
    ensures Segment(h, first, nodes) && h.next[nodes[|nodes| - 1]] == Null
  {
    forall i | 0 <= i < |nodes| - 1 ensures h.next[nodes[i]] == nodes[i + 1] {
      assert Succ(nodes, i) == nodes[i + 1];
    }
    assert Succ(nodes, |nodes| - 1) == Null;
  }

  /** `p->next_ = p->next_` changes nothing. */
  lemma SetNextSame<T>(h: Heap<T>, p: Ptr)
    requires h.Valid() && p in h.next
    ensures h.SetNext(p, h.next[p]) == h
  {
    assert h.next[p := h.next[p]] == h.next;
  }

  /** The first `i` and `i + 1` nodes of a chain are distinct and live,
      and node `i` is not among the first `i`. */
  lemma ChainPrefix<T>(h0: Heap<T>, first: Ptr, list: seq<Ptr>, i: nat)
    requires h0.Valid() && Chain(h0, first, list) && i < |list|
    ensures Distinct(list[..i]) && Distinct(list[..i + 1])
    ensures forall p | p in list[..i + 1] :: p in h0.next
    ensures list[i] in h0.next && list[i] !in list[..i]
  {
    ChainNodes(h0, first, list);
    var prefix := list[..i + 1];
    assert Distinct(prefix) by {
      forall a, b | 0 <= a < b < |prefix| ensures prefix[a] != prefix[b] {
        assert prefix[a] == list[a] && prefix[b] == list[b];
      }
    }
    assert Distinct(list[..i]) by {
      forall a, b | 0 <= a < b < i ensures list[..i][a] != list[..i][b] {
        assert list[..i][a] == list[a] && list[..i][b] == list[b];
      }
    }
    forall p | p in prefix ensures p in h0.next {
      var k :| 0 <= k < |prefix| && prefix[k] == p;
      assert list[k] in list;
    }
    assert list[i] !in list[..i] by {
      forall k | 0 <= k < i ensures list[..i][k] != list[i] {
        assert list[..i][k] == list[k];
      }
    }
    assert list[i] in list;
  }

  /** The nodes of a chain after its first `i` have been deleted: the
      `i`-th is still live and still points at its successor. */
  lemma DeleteStep<T>(h0: Heap<T>, first: Ptr, list: seq<Ptr>, i: nat)
    requires h0.Valid() && Chain(h0, first, list) && i < |list|
    ensures Distinct(list[..i]) && Distinct(list[..i + 1])
    ensures forall p | p in list[..i + 1] :: p in h0.next
    ensures var h := DeleteAll(h0, list[..i]);
      && list[i] in h.next && h.next[list[i]] == Succ(list, i)
      && DeleteAll(h0, list[..i + 1]) == h.Delete(list[i])
  {
    ChainPrefix(h0, first, list, i);
    var prefix := list[..i + 1];
    assert prefix[..i] == list[..i] && prefix[i] == list[i];
    DeleteAllFrees(h0, list[..i]);
  }

  /** `DeleteNodes`: the list from `nodes` is walked, each node being
      deleted once its `next_` has been read. Every node of the list is
      deleted exactly once, in order. */
  method DeleteNodes<T>(h0: Heap<T>, nodes: Ptr, ghost list: seq<Ptr>) returns (h: Heap<T>)
    requires h0.Valid() && Chain(h0, nodes, list)
    ensures Distinct(list) && forall p | p in list :: p in h0.next
    ensures h == DeleteAll(h0, list)
  {
    ChainNodes(h0, nodes, list);
    h := h0;
    var current := nodes;
    ghost var i := 0;
    assert list[..0] == [];
    while current != Null
      invariant 0 <= i <= |list|
      invariant current == if i < |list| then list[i] else Null
      invariant Distinct(list[..i]) && forall p | p in list[..i] :: p in h0.next
      invariant h == DeleteAll(h0, list[..i])
      decreases |list| - i
    {
      DeleteStep(h0, nodes, list, i);
      var next := h.next[current];
      h := h.Delete(current);
      current := next;
      i := i + 1;
    }
    assert list[..i] == list;
  }

  /** The loop of `ChainPendingNodes`: `next_` is followed from `nodes` to
      the last node of the list. */
  method FindLast<T>(h: Heap<T>, nodes: Ptr, ghost list: seq<Ptr>) returns (last: Ptr)
    requires h.Valid() && Chain(h, nodes, list) && list != []
    ensures last == list[|list| - 1]
  {
    ChainNodes(h, nodes, list);
    last := nodes;
    ghost var k := 0;
    while h.next[last] != Null
      invariant 0 <= k < |list| && last == list[k]
      decreases |list| - k
    {
      assert h.next[list[k]] == Succ(list, k);
      last := h.next[last];
      k := k + 1;
    }
    assert h.next[list[k]] == Succ(list, k);
  }

  /** The shape of the stack between operations, or, for a non-null
      `node`, while a popped node is off the stack and not yet reclaimed:
      the stack from `head` and the pending list from `first` are apart,
      the popped node is on neither, and every live node is on one of
      them or is the popped node. */
  ghost predicate Shape<T>(h: Heap<T>, head: Ptr, spine: seq<Ptr>, first: Ptr, pending: seq<Ptr>, node: Ptr)
  {
    && Stack(h, head, spine)
    && Chain(h, first, pending)
    && (forall p | p in pending :: p !in spine)
    && (node != Null ==> node in h.next && node !in spine && node !in pending)
    && forall p | p in h.next :: p in spine || p in pending || p == node
  }

  /** A new node holding `x` and linked to the old head makes a stack one
      longer, the pending list staying as it is. */
  lemma PushShape<T>(h: Heap<T>, head: Ptr, spine: seq<Ptr>, first: Ptr, pending: seq<Ptr>, x: T)
    requires Shape(h, head, spine, first, pending, Null)
    ensures var a := h.nextAddr; var h' := h.Alloc(x, head);
      && a !in h.next
      && Shape(h', a, [a] + spine, first, pending, Null)
      && Values(h', [a] + spine) == [x] + Values(h, spine)
  {
    var a := h.nextAddr;
    var h' := h.Alloc(x, head);
    StackPush(h, head, spine, x);
    ChainNodes(h, first, pending);
    ChainFrame(h, h', first, pending);
    assert forall p | p in h'.next :: p == a || p in h.next;
  }

  /** Taking the top node off a non-empty stack and moving its value out
      leaves the rest of the stack, with the top node popped. */
  lemma DetachHead<T>(h: Heap<T>, head: Ptr, spine: seq<Ptr>, first: Ptr, pending: seq<Ptr>)
    requires Shape(h, head, spine, first, pending, Null) && spine != []
    ensures head == spine[0] && head in h.next
    ensures var h' := h.TakeData(head);
      && Shape(h', h.next[head], spine[1..], first, pending, head)
      && Values(h', spine[1..]) == Values(h, spine)[1..]
  {
    StackTail(h, head, spine);
    var h' := h.TakeData(head);
    var rest := spine[1..];
    assert Agree(h, h', rest) by {
      forall p | p in rest ensures p in h'.data && h'.data[p] == h.data[p] {
        assert p in h.next;
      }
    }
    StackFrame(h, h', h.next[head], rest);
    ChainFrame(h, h', first, pending);
    assert head in spine;
    forall p | p in h'.next ensures p in rest || p in pending || p == head {
      assert p in spine ==> p == head || p in rest;
    }
  }

  /** Freeing the popped node keeps the stack and the pending list. */
  lemma ReclaimNode<T>(h: Heap<T>, head: Ptr, spine: seq<Ptr>, first: Ptr, pending: seq<Ptr>, node: Ptr)
    requires Shape(h, head, spine, first, pending, node)
    ensures Shape(FreeNode(h, node), head, spine, first, pending, Null)
    ensures Values(FreeNode(h, node), spine) == Values(h, spine)
  {
    var h' := FreeNode(h, node);
    ChainNodes(h, head, spine);
    ChainNodes(h, first, pending);
    assert Agree(h, h', spine);
    StackFrame(h, h', head, spine);
    ChainFrame(h, h', first, pending);
  }

  /** Freeing the claimed pending list keeps the stack and the popped
      node, and leaves the pending list empty. */
  lemma ReclaimPending<T>(h: Heap<T>, head: Ptr, spine: seq<Ptr>, first: Ptr, pending: seq<Ptr>, node: Ptr)
    requires Shape(h, head, spine, first, pending, node)
    ensures Distinct(pending) && forall p | p in pending :: p in h.next
    ensures Shape(DeleteAll(h, pending), head, spine, Null, [], node)
    ensures Values(DeleteAll(h, pending), spine) == Values(h, spine)
  {
    ChainNodes(h, first, pending);
    DeleteAllFrees(h, pending);
    KeepStack(h, DeleteAll(h, pending), head, spine);
  }

  /** A heap that keeps every live node of `h` it has untouched, and keeps
      the nodes of a stack, keeps the stack. */
  lemma KeepStack<T>(h: Heap<T>, h': Heap<T>, head: Ptr, spine: seq<Ptr>)
    requires Stack(h, head, spine) && h'.Valid()
    requires forall p | p in h'.next :: p in h.next && h'.next[p] == h.next[p] && h'.data[p] == h.data[p]
    requires forall p | p in spine :: p in h'.next
    ensures Stack(h', head, spine) && Values(h', spine) == Values(h, spine)
  {
    StackFrame(h, h', head, spine);
  }

  /** Chaining the popped node onto the front of the pending list keeps
      the stack. */
  lemma DeferNode<T>(h: Heap<T>, head: Ptr, spine: seq<Ptr>, first: Ptr, pending: seq<Ptr>, node: Ptr)
    requires Shape(h, head, spine, first, pending, node) && node != Null
    ensures var h' := h.SetNext(node, first);
      && Shape(h', head, spine, node, [node] + pending, Null)
      && Values(h', spine) == Values(h, spine)
  {
    var h' := h.SetNext(node, first);
    ChainNodes(h, head, spine);
    assert Agree(h, h', spine);
    StackFrame(h, h', head, spine);
    SegmentSplice(h, node, [node], first, pending);
  }

  /** `h'` is `h` with exactly the nodes of `nodes` deleted. */
  ghost predicate FreesExactly<T>(h: Heap<T>, h': Heap<T>, nodes: seq<Ptr>)
  {
    && (forall p :: p in h'.next <==> p in h.next && p !in nodes)
    && (forall p :: p in h'.freed <==> p in h.freed || p in nodes)
  }

  /** The popped node as a list: empty when the stack was empty. */
  function Popped(node: Ptr): (nodes: seq<Ptr>)
    ensures node in nodes <==> node != Null
    ensures |nodes| <= 1
  {
    if node == Null then [] else [node]
  }

  /** What each way of reclaiming deletes: deleting the pending list and
      then the popped node deletes exactly those nodes; deleting the
      popped node alone deletes just it; chaining it onto the pending list
      deletes nothing. */
  lemma ReclaimFrees<T>(h: Heap<T>, first: Ptr, pending: seq<Ptr>, node: Ptr)
    requires h.Valid() && Chain(h, first, pending)
    requires node != Null ==> node in h.next && node !in pending
    ensures Distinct(pending) && forall p | p in pending :: p in h.next
    ensures node != Null ==> node in DeleteAll(h, pending).next
    ensures FreesExactly(h, FreeNode(DeleteAll(h, pending), node), Popped(node) + pending)
    ensures FreesExactly(h, FreeNode(h, node), Popped(node))
    ensures node != Null ==> FreesExactly(h, h.SetNext(node, first), [])
  {
    ChainNodes(h, first, pending);
    DeleteAllFrees(h, pending);
  }

  /** `++` on an `unsigned`: the largest value wraps round to 0. */
  function Inc(c: uint32): uint32
  {
    if c as int == UINT_MAX then 0 else (c as int + 1) as uint32
  }

  /** `--` on an `unsigned`: 0 wraps round to the largest value. */
  function Dec(c: uint32): uint32
  {
    if c == 0 then UINT_MAX as uint32 else (c as int - 1) as uint32
  }

  /** The counter after `n` more threads have entered `Pop`. */
  function Arrive(c: uint32, n: nat): uint32
    decreases n
  {
    if n == 0 then c else Arrive(Inc(c), n - 1)
  }

  /** `++` and `--` are addition and subtraction modulo 2^32, and each
      undoes the other. */
  lemma IncDecWrap(c: uint32)
    ensures Inc(c) == ToUint32(c as int + 1) && Dec(c) == ToUint32(c as int - 1)
    ensures Dec(Inc(c)) == c && Inc(Dec(c)) == c
  {
    if c as int + 1 <= UINT_MAX {
      WrapSmall(c as int + 1);
    } else {
      WrapAbove(c as int + 1);
    }
    if c == 0 {
      WrapBelow(-1);
    } else {
      WrapSmall(c as int - 1);
    }
  }

  /** `n` threads entering add `n` to the counter modulo 2^32. */
  lemma {:induction false} ArriveWrap(c: uint32, n: nat)
    ensures Arrive(c, n) == ToUint32(c as int + n)
    decreases n
  {
    if n == 0 {
      WrapSmall(c as int);
    } else {
      IncDecWrap(c);
      ArriveWrap(Inc(c), n - 1);
      if c as int == UINT_MAX {
        var m := UINT_MAX + 1;
        assert (n - 1 + m) % m == (n - 1) % m;
      }
    }
  }

  /** A thread that found the counter at 1 and decrements it after
      `arrived` others came in leaves it at `arrived` modulo 2^32, and its
      decrement finds 1 exactly when that is 0. */
  lemma ClaimWrap(arrived: nat)
    ensures Dec(Arrive(1, arrived)) == ToUint32(arrived)
    ensures Arrive(1, arrived) == 1 <==> ToUint32(arrived) == 0
  {
    var x := Arrive(1, arrived);
    ArriveWrap(1, arrived);
    IncDecWrap(x);
    var m := UINT_MAX + 1;
    if (1 + arrived) % m == 0 {
      assert arrived % m == m - 1;
    } else {
      assert (1 + arrived) % m == arrived % m + 1;
    }
  }

  /** The counter across `Pop`: entering takes it from `entry` to
      `inside`, and `TryReclaim` leaves it at the count after the arrivals
      less one if it read 1, or one less than it read otherwise. It ends
      at `entry` again, or at that count if `entry` was 0. */
  lemma EnterLeave(entry: uint32, inside: uint32, exit: uint32, arrived: nat)
    requires inside == Inc(entry)
    requires inside == 1 ==> exit == Dec(Arrive(1, arrived))
    requires inside != 1 ==> exit == Dec(inside)
    ensures inside == 1 <==> entry == 0
    ensures exit == if entry == 0 then Dec(Arrive(1, arrived)) else entry
  {
    IncDecWrap(entry);
  }

  class LockfreeStackDeleteList<T> {
    /** `head_`. */
    var head: Ptr
    /** The nodes allocated by this stack. */
    var heap: Heap<T>
    /** `thread_in_loop_`: the number of threads inside `Pop`. */
    var threadsInLoop: uint32
    /** `to_delete_list_`: the first pending node. */
    var toDeleteList: Ptr
    /** The nodes from `head` down, top first. */
    ghost var spine: seq<Ptr>
    /** The nodes from `to_delete_list_` on, front first. */
    ghost var pending: seq<Ptr>

    /** `Shape`, with the given popped node. */
    ghost predicate Holds(node: Ptr)
      reads this`heap, this`head, this`spine, this`toDeleteList, this`pending
    {
      Shape(heap, head, spine, toDeleteList, pending, node)
    }

    /** Between operations: no popped node is outstanding. */
    ghost predicate Valid()
      reads this`heap, this`head, this`spine, this`toDeleteList, this`pending
    {
      Holds(Null)
    }

    /** The stacked values, top first. */
    ghost function Contents(): seq<T>
      reads this`heap, this`head, this`spine, this`toDeleteList, this`pending
      requires Valid()
    {
      Values(heap, spine)
    }

    /** An empty stack: null head, no thread in `Pop`, no pending node. */
    constructor ()
      ensures Valid() && Contents() == [] && heap.freed == {}
      ensures threadsInLoop == 0 && toDeleteList == Null && pending == []
    {
      head := Null;
      heap := Heap(map[], map[], {}, 1);
      threadsInLoop := 0;
      toDeleteList := Null;
      spine := [];
      pending := [];
    }

    /** `Push`: a new node holding `x`, whose `next_` is the old head,
        becomes the head; the pending list and the counter are untouched. */
    method Push(x: T)
      requires Valid()
      modifies this`heap, this`head, this`spine
      ensures Valid()
      ensures Contents() == [x] + old(Contents())
      ensures heap.next[head] == old(head) && head !in old(heap.next) && heap.freed == old(heap.freed)
      ensures pending == old(pending) && toDeleteList == old(toDeleteList) && threadsInLoop == old(threadsInLoop)
    {
      PushShape(heap, head, spine, toDeleteList, pending, x);
      var node := heap.nextAddr;
      heap := heap.Alloc(x, head);
      head := node;
      spine := [node] + spine;
    }

    /** The `fetch_add` with which a thread enters `Pop`. */
    method EnterPop()
      modifies this`threadsInLoop
      ensures threadsInLoop == Inc(old(threadsInLoop))
    {
      threadsInLoop := Inc(threadsInLoop);
    }

    /** Other threads entering `Pop`, `n` of them. */
    method Arrivals(n: nat)
      modifies this`threadsInLoop
      ensures threadsInLoop == Arrive(old(threadsInLoop), n)
    {
      threadsInLoop := Arrive(threadsInLoop, n);
    }

    /** The decrement with which a thread leaves `Pop`; `before` is what
        `fetch_sub` returns. */
    method LeavePop() returns (before: uint32)
      modifies this`threadsInLoop
      ensures before == old(threadsInLoop) && threadsInLoop == Dec(before)
    {
      before := threadsInLoop;
      threadsInLoop := Dec(threadsInLoop);
    }

    /** `ChainPendingNodes(first, last)`: the segment from `first` to
        `last` goes on the front of the pending list, `last` being linked
        to the old front. */
    method ChainPendingNodesRange(first: Ptr, last: Ptr, ghost segment: seq<Ptr>)
      requires heap.Valid() && Segment(heap, first, segment) && last == segment[|segment| - 1]
      requires Chain(heap, toDeleteList, pending) && forall p | p in segment :: p !in pending
      modifies this`heap, this`toDeleteList, this`pending
      ensures toDeleteList == first && pending == segment + old(pending)
      ensures heap == old(heap).SetNext(last, old(toDeleteList))
      ensures Chain(heap, toDeleteList, pending)
      ensures head == old(head) && spine == old(spine) && threadsInLoop == old(threadsInLoop)
    {
      SegmentSplice(heap, first, segment, toDeleteList, pending);
      heap := heap.SetNext(last, toDeleteList);
      toDeleteList := first;
      pending := segment + pending;
    }

    /** `ChainPendingNodes(nodes)`: the whole list from `nodes`, found by
        walking to its last node, goes on the front of the pending list in
        its own order. */
    method ChainPendingNodes(nodes: Ptr, ghost list: seq<Ptr>)
      requires heap.Valid() && Chain(heap, nodes, list) && list != []
      requires Chain(heap, toDeleteList, pending) && forall p | p in list :: p !in pending
      modifies this`heap, this`toDeleteList, this`pending
      ensures toDeleteList == nodes && pending == list + old(pending)
      ensures heap == old(heap).SetNext(list[|list| - 1], old(toDeleteList))
      ensures Chain(heap, toDeleteList, pending)
      ensures head == old(head) && spine == old(spine) && threadsInLoop == old(threadsInLoop)
    {
      ChainIsSegment(heap, nodes, list);
      var last := FindLast(heap, nodes, list);
      ChainPendingNodesRange(nodes, last, list);
    }

    /** `ChainPendingNode`: one node goes on the front of the pending list. */
    method ChainPendingNode(node: Ptr)
      requires heap.Valid() && node in heap.next
      requires Chain(heap, toDeleteList, pending) && node !in pending
      modifies this`heap, this`toDeleteList, this`pending
      ensures toDeleteList == node && pending == [node] + old(pending)
      ensures heap == old(heap).SetNext(node, old(toDeleteList))
      ensures Chain(heap, toDeleteList, pending)
      ensures head == old(head) && spine == old(spine) && threadsInLoop == old(threadsInLoop)
    {
      ChainPendingNodesRange(node, node, [node]);
    }

    /** `TryReclaim(node)` for the popped node `node` (null when the stack
        was empty), `arrived` being the number of other threads that enter
        `Pop` between the load of the counter and its decrement.
        If the counter reads 1 the pending list is claimed; if the
        decrement then finds 1 no thread came in, and the claimed nodes are
        all deleted, otherwise they are chained back in their order. The
        popped node is deleted in both cases. If the counter reads anything
        else the popped node is chained onto the pending list. Either way
        the counter is decremented once. */
    method TryReclaim(node: Ptr, arrived: nat)
      requires Holds(node)
      modifies this`heap, this`toDeleteList, this`pending, this`threadsInLoop
      ensures Valid() && spine == old(spine) && head == old(head)
      ensures Contents() == old(Values(heap, spine))
      ensures old(threadsInLoop) == 1 ==>
        && threadsInLoop == Dec(Arrive(1, arrived))
        && (Arrive(1, arrived) == 1 ==>
              && pending == [] && toDeleteList == Null
              && heap == FreeNode(DeleteAll(old(heap), old(pending)), node))
        && (Arrive(1, arrived) != 1 ==>
              && pending == old(pending) && toDeleteList == old(toDeleteList)
              && heap == FreeNode(old(heap), node))
      ensures old(threadsInLoop) != 1 ==>
        && threadsInLoop == Dec(old(threadsInLoop))
        && pending == Popped(node) + old(pending)
        && toDeleteList == (if node == Null then old(toDeleteList) else node)
        && heap == (if node == Null then old(heap) else old(heap).SetNext(node, old(toDeleteList)))
    {
      if threadsInLoop == 1 {
        ReclaimClaimed(node, arrived);
      } else {
        DeferPopped(node);
      }
    }

    /** The branch of `TryReclaim` where the counter reads anything but 1:
        the popped node, if any, is chained onto the pending list and the
        counter decremented. */
    method DeferPopped(node: Ptr)
      requires Holds(node)
      modifies this`heap, this`toDeleteList, this`pending, this`threadsInLoop
      ensures Valid() && spine == old(spine) && head == old(head)
      ensures Contents() == old(Values(heap, spine))
      ensures threadsInLoop == Dec(old(threadsInLoop))
      ensures pending == Popped(node) + old(pending)
      ensures toDeleteList == (if node == Null then old(toDeleteList) else node)
      ensures heap == (if node == Null then old(heap) else old(heap).SetNext(node, old(toDeleteList)))
    {
      ghost var count := threadsInLoop;
      if node != Null {
        DeferNode(heap, head, spine, toDeleteList, pending, node);
        ChainPendingNode(node);
      } else {
        assert [] + pending == pending;
      }
      assert threadsInLoop == count;
      var before := LeavePop();
    }

    /** The branch of `TryReclaim` where the counter reads 1: the pending
        list is claimed (`exchange` with null), the counter decremented,
        and the claimed nodes deleted if the decrement found 1 or chained
        back otherwise; then the popped node is deleted. */
    method ReclaimClaimed(node: Ptr, arrived: nat)
      requires Holds(node) && threadsInLoop == 1
      modifies this`heap, this`toDeleteList, this`pending, this`threadsInLoop
      ensures Valid() && spine == old(spine) && head == old(head)
      ensures Contents() == old(Values(heap, spine))
      ensures threadsInLoop == Dec(Arrive(1, arrived))
      ensures Arrive(1, arrived) == 1 ==>
        && pending == [] && toDeleteList == Null
        && heap == FreeNode(DeleteAll(old(heap), old(pending)), node)
      ensures Arrive(1, arrived) != 1 ==>
        && pending == old(pending) && toDeleteList == old(toDeleteList)
        && heap == FreeNode(old(heap), node)
    {
      ghost var pending0 := pending;
      var claimed := toDeleteList;
      toDeleteList := Null;
      pending := [];
      // The counter read 1; `arrived` threads come in before the decrement.
      Arrivals(arrived);
      var before := LeavePop();
      if before == 1 {
        DeleteClaimed(claimed, pending0, node);
      } else {
        ReturnClaimed(claimed, pending0, node);
      }
    }

    /** The pending list from `claimed` has been taken off the stack
        (`to_delete_list_` is null) and is held by the reclaiming thread. */
    ghost predicate Claims(claimed: Ptr, list: seq<Ptr>, node: Ptr)
      reads this
    {
      Shape(heap, head, spine, claimed, list, node) && toDeleteList == Null && pending == []
    }

    /** No thread came in: `DeleteNodes` frees every claimed node, then the
        popped node is deleted. */
    method DeleteClaimed(claimed: Ptr, ghost list: seq<Ptr>, node: Ptr)
      requires Claims(claimed, list, node)
      modifies this`heap
      ensures Valid() && spine == old(spine) && head == old(head) && threadsInLoop == old(threadsInLoop)
      ensures Contents() == old(Values(heap, spine))
      ensures pending == [] && toDeleteList == Null
      ensures heap == FreeNode(DeleteAll(old(heap), list), node)
    {
      ReclaimPending(heap, head, spine, claimed, list, node);
      heap := DeleteNodes(heap, claimed, list);
      ReclaimNode(heap, head, spine, Null, [], node);
      heap := FreeNode(heap, node);
    }

    /** A thread came in: the claimed nodes go back on the pending list in
        their order (`ChainPendingNodes`), then the popped node is deleted. */
    method ReturnClaimed(claimed: Ptr, ghost list: seq<Ptr>, node: Ptr)
      requires Claims(claimed, list, node)
      modifies this`heap, this`toDeleteList, this`pending
      ensures Valid() && spine == old(spine) && head == old(head) && threadsInLoop == old(threadsInLoop)
      ensures Contents() == old(Values(heap, spine))
      ensures pending == list && toDeleteList == claimed
      ensures heap == FreeNode(old(heap), node)
    {
      ReclaimNode(heap, head, spine, claimed, list, node);
      if claimed != Null {
        ChainIsSegment(heap, claimed, list);
        SetNextSame(heap, list[|list| - 1]);
        ChainPendingNodes(claimed, list);
        assert list + [] == list;
      } else {
        ChainNodes(heap, claimed, list);
      }
      heap := FreeNode(heap, node);
    }
    /** `Pop`, `arrived` being as for `TryReclaim`. The thread enters, takes
        the top node off the stack if there is one and moves its value out,
        and reclaims. The result is the top value, or null on an empty
        stack. A thread alone in `Pop` (counter 0 on entry) frees its node
        and, unless other threads came in meanwhile, every pending node;
        otherwise its node joins the pending list. The counter ends where
        it started, plus the threads that came in and are still inside. */
    method Pop(arrived: nat) returns (r: Option<T>)
      requires Valid()
      modifies this
      ensures Valid()
      ensures threadsInLoop == if old(threadsInLoop) == 0 then Dec(Arrive(1, arrived)) else old(threadsInLoop)
      ensures old(Contents()) == [] ==> r == None && head == Null
      ensures old(Contents()) != [] ==>
        && r == Some(old(Contents())[0])
        && Contents() == old(Contents())[1..]
        && head == old(heap.next[head])
      ensures old(threadsInLoop) == 0 && Arrive(1, arrived) == 1 ==> pending == [] && toDeleteList == Null
      ensures old(threadsInLoop) == 0 && Arrive(1, arrived) != 1 ==>
        pending == old(pending) && toDeleteList == old(toDeleteList)
      ensures old(threadsInLoop) != 0 ==> pending == Popped(old(head)) + old(pending)
    {
      ghost var entry := threadsInLoop;
      EnterPop();
      ghost var inside := threadsInLoop;
      var node;
      node, r := TakeTop();
      assert threadsInLoop == inside;
      TryReclaim(node, arrived);
      EnterLeave(entry, inside, threadsInLoop, arrived);
    }

    /** The part of `Pop` between entering and reclaiming: the top node,
        if there is one, is unlinked from the head and its value moved
        out; it is returned as the popped node, or null on an empty stack. */
    method TakeTop() returns (node: Ptr, r: Option<T>)
      requires Valid()
      modifies this`heap, this`head, this`spine
      ensures Holds(node) && node == old(head)
      ensures threadsInLoop == old(threadsInLoop) && toDeleteList == old(toDeleteList) && pending == old(pending)
      ensures heap.next.Keys == old(heap.next.Keys) && heap.freed == old(heap.freed)
      ensures old(Contents()) == [] ==> node == Null && r == None && head == Null && heap == old(heap) && spine == old(spine)
      ensures old(Contents()) != [] ==>
        && r == Some(old(Contents())[0])
        && Values(heap, spine) == old(Contents())[1..]
        && head == old(heap.next[head])
    {
      node := head;
      if node != Null {
        DetachHead(heap, head, spine, toDeleteList, pending);
        head := heap.next[node];
        r := heap.data[node];
        heap := heap.TakeData(node);
        spine := spine[1..];
      } else {
        r := None;
      }
    }
  }

  /** The sequence tests/test_lockfree_stack.cpp checks, by a thread
      alone: an empty stack pops null; after pushing 1, 2 and 3 the pops
      give 3, 2, 1 and then null again, and nothing is left pending. */
  method LifoExample() returns (empty: Option<int>, p3: Option<int>, p2: Option<int>, p1: Option<int>, after: Option<int>, nothingPending: bool)
    ensures empty == None && p3 == Some(3) && p2 == Some(2) && p1 == Some(1) && after == None && nothingPending
  {
    var s := new LockfreeStackDeleteList<int>();
    empty := s.Pop(0);
    s.Push(1);
    s.Push(2);
    s.Push(3);
    p3 := s.Pop(0);
    p2 := s.Pop(0);
    p1 := s.Pop(0);
    after := s.Pop(0);
    nothingPending := s.toDeleteList == Null && s.threadsInLoop == 0;
  }

  /** Another thread is inside `Pop` when this one pops the node holding
      1: the node is chained onto the pending list, not freed. When the
      other thread leaves, alone and with nothing popped, it frees it. */
  method BusyExample() returns (v: Option<int>, deferred: bool, freedLater: bool, counter: uint32)
    ensures v == Some(1) && deferred && freedLater && counter == 0
  {
    var s := new LockfreeStackDeleteList<int>();
    s.Push(1);
    var node := s.head;
    s.EnterPop();
    assert s.threadsInLoop == 1;
    v := s.Pop(0);
    assert s.pending == [node] && Succ(s.pending, 0) == Null;
    deferred := s.toDeleteList == node && node in s.heap.next && s.heap.next[node] == Null;
    ReclaimFrees(s.heap, s.toDeleteList, s.pending, Null);
    ghost var h := s.heap;
    s.TryReclaim(Null, 0);
    assert s.heap == FreeNode(DeleteAll(h, [node]), Null);
    freedLater := node in s.heap.freed;
    counter := s.threadsInLoop;
  }

  /** A thread that finds the counter at 1 claims the pending list, but a
      third thread enters before the decrement: the claimed node is
      chained back and stays live until the third thread leaves alone. */
  method ArrivalExample() returns (kept: bool, freedLater: bool)
    ensures kept && freedLater
  {
    var s := new LockfreeStackDeleteList<int>();
    s.Push(1);
    var node := s.head;
    s.EnterPop();
    assert s.threadsInLoop == 1;
    var v := s.Pop(0);
    assert s.pending == [node] && s.threadsInLoop == 1;
    s.TryReclaim(Null, 1);
    assert s.pending == [node] && Succ(s.pending, 0) == Null && s.threadsInLoop == 1;
    kept := s.toDeleteList == node && node in s.heap.next && s.heap.next[node] == Null;
    ReclaimFrees(s.heap, s.toDeleteList, s.pending, Null);
    ghost var h := s.heap;
    s.TryReclaim(Null, 0);
    assert s.heap == FreeNode(DeleteAll(h, [node]), Null);
    freedLater := node in s.heap.freed;
  }
}
