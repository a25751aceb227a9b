/** `LockfreeStackHazardPointer`: a linked stack whose poppers publish the
    node they are about to read in a global table of hazard pointers. A
    popped node that some slot still points at is put on a reclaim list
    instead of being deleted, and every non-empty pop sweeps that list,
    deleting the entries no slot points at any more. One thread runs the
    stack at a time, so every compare-and-swap succeeds at its first try;
    the other threads appear only through the pointers they have published
    in the table. */
module HazardPointerStackModel {
  import opened Base
  import opened Arena

  /** `max_hazard_pointers`. */
  const MaxHazardPointers: nat := 100

  /** A thread id; 0 is the default-constructed `std::thread::id`, which
      names no thread. */
  type ThreadId = nat

  const NoThread: ThreadId := 0

  /** One slot of the table: its owner and the pointer it protects. */
  datatype HazardPointer = HazardPointer(threadId: ThreadId, hp: Ptr)

  /** The global `hazard_pointers` table. */
  class HazardTable {
    const slots: array<HazardPointer>

    /** The table has `MaxHazardPointers` slots. */
    ghost predicate Valid()
      reads this
    {
      slots.Length == MaxHazardPointers
    }

    /** The pointers published in the table. */
    ghost function Hazards(): set<Ptr>
      reads this, slots
    {
      set i | 0 <= i < slots.Length :: slots[i].hp
    }

    /** Every slot starts without owner and without pointer. */
    constructor ()
      ensures Valid() && fresh(slots)
      ensures forall i | 0 <= i < slots.Length :: slots[i] == HazardPointer(NoThread, Null)
    {
      slots := new HazardPointer[MaxHazardPointers](_ => HazardPointer(NoThread, Null));
    }

    /** `HpOwner`'s constructor: thread `t` claims the first slot that has
        no owner, keeping its pointer; if all slots are owned the result is
        a `runtime_error` and nothing changes. */
    method Acquire(t: ThreadId) returns (r: Result<nat>)
      requires Valid() && t != NoThread
      modifies slots
      ensures r.Ok? ==>
        && r.value < MaxHazardPointers
        && old(slots[r.value]).threadId == NoThread
        && (forall j | 0 <= j < r.value :: old(slots[j]).threadId != NoThread)
      ensures r.Err? ==>
        && r.error == RuntimeError
        && (forall j | 0 <= j < MaxHazardPointers :: old(slots[j]).threadId != NoThread)
      ensures forall j | 0 <= j < slots.Length ::
        slots[j] == if r.Ok? && j == r.value then HazardPointer(t, old(slots[j]).hp) else old(slots[j])
    {
      var i := 0;
      while i < slots.Length
        invariant 0 <= i <= slots.Length
        invariant forall j | 0 <= j < i :: slots[j].threadId != NoThread
        invariant forall j | 0 <= j < slots.Length :: slots[j] == old(slots[j])
      {
        if slots[i].threadId == NoThread {
          slots[i] := HazardPointer(t, slots[i].hp);
          return Ok(i);
        }
        i := i + 1;
      }
      r := Err(RuntimeError);
    }

    /** `HpOwner`'s destructor: the slot's pointer is cleared, then its
        owner, so that the slot can be claimed again. */
    method Release(i: nat)
      requires Valid() && i < MaxHazardPointers
      modifies slots
      ensures slots[i] == HazardPointer(NoThread, Null)
      ensures forall j | 0 <= j < slots.Length && j != i :: slots[j] == old(slots[j])
    {
      slots[i] := slots[i].(hp := Null);
      slots[i] := slots[i].(threadId := NoThread);
    }

    /** `hp.store(p)` on the pointer of slot `i`. */
    method Publish(i: nat, p: Ptr)
      requires Valid() && i < MaxHazardPointers
      modifies slots
      ensures slots[i] == HazardPointer(old(slots[i].threadId), p)
      ensures forall j | 0 <= j < slots.Length && j != i :: slots[j] == old(slots[j])
    {
      slots[i] := slots[i].(hp := p);
    }

    /** `OutstandingHazardPointersFor`: whether some slot points at `p`. */
    method OutstandingHazardPointersFor(p: Ptr) returns (b: bool)
      requires Valid()
      ensures b <==> p in Hazards()
    {
      for i := 0 to slots.Length
        invariant forall j | 0 <= j < i :: slots[j].hp != p
      {
        if slots[i].hp == p {
          return true;
        }
      }
      return false;
    }
  }

  /** The reclaim list after a sweep over `entries`, taken front to back:
      each entry still in `hazards` is pushed back on the emptied list,
      so the survivors come back in reverse order. */
  function Requeued(entries: seq<Ptr>, hazards: set<Ptr>): (kept: seq<Ptr>)
    ensures |kept| <= |entries|
  {
    if entries == [] then []
    else
      var last := entries[|entries| - 1];
      (if last in hazards then [last] else []) + Requeued(entries[..|entries| - 1], hazards)
  }

  /** A sweep keeps exactly the protected entries: none is lost and none
      that is unprotected stays. */
  lemma {:induction false} RequeuedMembers(entries: seq<Ptr>, hazards: set<Ptr>)
    ensures forall p :: p in Requeued(entries, hazards) <==> p in entries && p in hazards
  {
    if entries != [] {
      var init := entries[..|entries| - 1];
      RequeuedMembers(init, hazards);
      assert entries == init + [entries[|entries| - 1]];
    }
  }

  /** A sweep of a list without repetition leaves one without repetition. */
  lemma {:induction false} RequeuedDistinct(entries: seq<Ptr>, hazards: set<Ptr>)
    requires Distinct(entries)
    ensures Distinct(Requeued(entries, hazards))
  {
    if entries != [] {
      var init := entries[..|entries| - 1];
      var last := entries[|entries| - 1];
      RequeuedDistinct(init, hazards);
      RequeuedMembers(init, hazards);
      assert last !in init by {
        forall k | 0 <= k < |init| ensures init[k] != last {
          assert init[k] == entries[k];
        }
      }
      var kept := Requeued(entries, hazards);
      var rest := Requeued(init, hazards);
      if last in hazards {
        forall i, j | 0 <= i < j < |kept| ensures kept[i] != kept[j] {
          assert kept[j] == rest[j - 1];
          if i > 0 {
            assert kept[i] == rest[i - 1];
          } else {
            assert kept[j] in rest;
          }
        }
      } else {
        assert kept == rest;
      }
    }
  }

  /** Sweeping an entry pushed on the front of the list puts it, if it
      survives, at the back of the result. */
  lemma {:induction false} RequeuedFront(x: Ptr, entries: seq<Ptr>, hazards: set<Ptr>)
    ensures Requeued([x] + entries, hazards) == Requeued(entries, hazards) + (if x in hazards then [x] else [])
    decreases |entries|
  {
    var front := if x in hazards then [x] else [];
    if entries == [] {
      assert [x] + entries == [x] && [x][..0] == [];
      assert Requeued([x], hazards) == front + Requeued([], hazards);
    } else {
      var all := [x] + entries;
      var init := entries[..|entries| - 1];
      var last := entries[|entries| - 1];
      var back := if last in hazards then [last] else [];
      assert all[|all| - 1] == last && all[..|all| - 1] == [x] + init;
      RequeuedFront(x, init, hazards);
      calc {
        Requeued(all, hazards);
        back + Requeued([x] + init, hazards);
        back + (Requeued(init, hazards) + front);
        (back + Requeued(init, hazards)) + front;
        Requeued(entries, hazards) + front;
      }
    }
  }

  /** The nodes after a sweep over `entries`, taken front to back: each
      entry not in `hazards` is deleted. Exactly those entries stop being
      live. */
  function SweptHeap<T>(h: Heap<T>, entries: seq<Ptr>, hazards: set<Ptr>): (h': Heap<T>)
    requires h.Valid() && Distinct(entries) && forall p | p in entries :: p in h.next
    ensures h'.Valid()
    ensures forall p :: p in h'.next <==> p in h.next && !(p in entries && p !in hazards)
    decreases |entries|
  {
    if entries == [] then h
    else
      var init := entries[..|entries| - 1];
      var last := entries[|entries| - 1];
      assert entries == init + [last];
      assert Distinct(init) && last !in init by {
        forall k | 0 <= k < |init| ensures init[k] == entries[k] { }
      }
      var h1 := SweptHeap(h, init, hazards);
      if last in hazards then h1 else h1.Delete(last)
  }

  /** A sweep frees exactly the unprotected entries, and leaves every node
      that stays live untouched: in particular no node some slot points
      at is freed. */
  lemma {:induction false} SweptHeapFrees<T>(h: Heap<T>, entries: seq<Ptr>, hazards: set<Ptr>)
    requires h.Valid() && Distinct(entries) && forall p | p in entries :: p in h.next
    ensures var h' := SweptHeap(h, entries, hazards);
      && (forall p :: p in h'.freed <==> p in h.freed || (p in entries && p !in hazards))
      && (forall p | p in h'.next :: h'.next[p] == h.next[p] && h'.data[p] == h.data[p])
    decreases |entries|
  {
    if entries != [] {
      var init := entries[..|entries| - 1];
      var last := entries[|entries| - 1];
      assert entries == init + [last];
      assert Distinct(init) && last !in init by {
        forall k | 0 <= k < |init| ensures init[k] == entries[k] { }
      }
      SweptHeapFrees(h, init, hazards);
    }
  }

  /** Sweeping an unprotected entry pushed on the front of the list
      deletes it first. */
  lemma {:induction false} SweptHeapFront<T>(h: Heap<T>, x: Ptr, entries: seq<Ptr>, hazards: set<Ptr>)
    requires h.Valid() && x in h.next && x !in entries && x !in hazards
    requires Distinct(entries) && forall p | p in entries :: p in h.next
    ensures Distinct([x] + entries)
    ensures SweptHeap(h, [x] + entries, hazards) == SweptHeap(h.Delete(x), entries, hazards)
    decreases |entries|
  {
    var all := [x] + entries;
    forall i, j | 0 <= i < j < |all| ensures all[i] != all[j] {
      assert all[j] == entries[j - 1];
      if i > 0 {
        assert all[i] == entries[i - 1];
      }
    }
    if entries == [] {
      assert all[..0] == [];
    } else {
      var init := entries[..|entries| - 1];
      var last := entries[|entries| - 1];
      assert all[..|all| - 1] == [x] + init && all[|all| - 1] == last;
      assert entries == init + [last];
      assert Distinct(init) && last !in init by {
        forall k | 0 <= k < |init| ensures init[k] == entries[k] { }
      }
      SweptHeapFront(h, x, init, hazards);
    }
  }

  /** One more entry of the sweep: it is pushed back on the list, or
      deleted after the entries before it. */
  lemma SweepStep<T>(h0: Heap<T>, current: seq<Ptr>, i: nat, hazards: set<Ptr>)
    requires h0.Valid() && Distinct(current) && forall p | p in current :: p in h0.next
    requires i < |current|
    ensures Distinct(current[..i]) && Distinct(current[..i + 1])
    ensures current[i] in SweptHeap(h0, current[..i], hazards).next
    ensures current[i] in hazards ==>
      && Requeued(current[..i + 1], hazards) == [current[i]] + Requeued(current[..i], hazards)
      && SweptHeap(h0, current[..i + 1], hazards) == SweptHeap(h0, current[..i], hazards)
    ensures current[i] !in hazards ==>
      && Requeued(current[..i + 1], hazards) == Requeued(current[..i], hazards)
      && SweptHeap(h0, current[..i + 1], hazards) == SweptHeap(h0, current[..i], hazards).Delete(current[i])
  {
    var prefix := current[..i + 1];
    assert prefix[..i] == current[..i] && prefix[i] == current[i];
    assert current[i] !in current[..i] by {
      forall k | 0 <= k < i ensures current[k] != current[i] { }
    }
    assert Distinct(prefix) && Distinct(current[..i]) by {
      forall a, b | 0 <= a < b < |prefix| ensures prefix[a] != prefix[b] {
        assert prefix[a] == current[a] && prefix[b] == current[b];
      }
    }
    if current[i] !in hazards {
      assert [] + Requeued(current[..i], hazards) == Requeued(current[..i], hazards);
    }
  }

  /** The loop of `DeleteNodesWithNoHazards` over the entries `current`
      taken from the reclaim list: each entry some slot of `table` points
      at is pushed back on the (emptied) list `kept`, every other one is
      deleted, in list order. */
  method Sweep<T>(table: HazardTable, h0: Heap<T>, current: seq<Ptr>) returns (h: Heap<T>, kept: seq<Ptr>)
    requires table.Valid() && h0.Valid()
    requires forall p | p in current :: p in h0.next
    requires Distinct(current)
    ensures kept == Requeued(current, table.Hazards())
    ensures h == SweptHeap(h0, current, table.Hazards())
  {
    kept := [];
    h := h0;
    ghost var hazards := table.Hazards();
    var i := 0;
    assert current[..0] == [];
    while i < |current|
      invariant 0 <= i <= |current|
      invariant kept == Requeued(current[..i], hazards)
      invariant Distinct(current[..i]) && h == SweptHeap(h0, current[..i], hazards)
    {
      var node := current[i];
      SweepStep(h0, current, i, hazards);
      var hazard := table.OutstandingHazardPointersFor(node);
      assert hazard <==> node in hazards;
      if hazard {
        kept := [node] + kept;
      } else {
        h := h.Delete(node);
      }
      i := i + 1;
    }
    assert current[..i] == current;
    assert table.Hazards() == hazards;
  }

  /** The nodes of the reclaim list are live, off the stack and listed
      once. */
  ghost predicate Pending<T>(heap: Heap<T>, spine: seq<Ptr>, reclaim: seq<Ptr>)
  {
    && (forall p | p in reclaim :: p in heap.next && p !in spine)
    && Distinct(reclaim)
  }

  class LockfreeStackHazardPointer<T> {
    /** The global hazard-pointer table. */
    const table: HazardTable
    /** `head_`. */
    var head: Ptr
    /** The nodes allocated by this stack. */
    var heap: Heap<T>
    /** `nodes_to_reclaim_`, front first: the nodes popped while protected
        and not yet deleted. */
    var reclaim: seq<Ptr>
    /** The nodes from `head` down, top first. */
    ghost var spine: seq<Ptr>

    /** The nodes form a stack from `head`; the reclaim list holds other
        live nodes; and every live node is on one of the two. */
    ghost predicate Valid()
      reads this, table
    {
      && table.Valid()
      && Stack(heap, head, spine)
      && Pending(heap, spine, reclaim)
      && forall p | p in heap.next :: p in spine || p in reclaim
    }

    /** The stacked values, top first. */
    ghost function Contents(): seq<T>
      reads this, table
      requires Valid()
    {
      Values(heap, spine)
    }

    /** An empty stack with an empty reclaim list. */
    constructor (table: HazardTable)
      requires table.Valid()
      ensures Valid() && Contents() == [] && reclaim == [] && heap.freed == {}
      ensures this.table == table
    {
      this.table := table;
      head := Null;
      heap := Heap(map[], map[], {}, 1);
      reclaim := [];
      spine := [];
    }

    /** `Push`: a new node holding `x`, whose `next_` is the old head,
        becomes the head; the reclaim list is untouched. */
    method Push(x: T)
      requires Valid()
      modifies this
      ensures Valid()
      ensures Contents() == [x] + old(Contents())
      ensures heap.next[head] == old(head) && head !in old(heap.next) && heap.freed == old(heap.freed)
      ensures reclaim == old(reclaim)
    {
      StackPush(heap, head, spine, x);
      var node := heap.nextAddr;
      ghost var h0 := heap;
      heap := heap.Alloc(x, head);
      head := node;
      spine := [node] + spine;
      assert forall p | p in heap.next :: p == node || p in h0.next;
    }

    /** The inner loop of `Pop`: the head is published in slot `slot`
        and read again; with no other thread moving it, the two reads
        agree at once. */
    method ProtectHead(slot: nat) returns (p: Ptr)
      requires table.Valid() && slot < MaxHazardPointers
      modifies table.slots
      ensures p == head
      ensures table.slots[slot] == HazardPointer(old(table.slots[slot].threadId), p)
      ensures forall j | 0 <= j < table.slots.Length && j != slot :: table.slots[j] == old(table.slots[j])
    {
      p := head;
      table.Publish(slot, p);
    }

    /** `AddToReclaimList`, and `ReclaimLater` which calls it: the node goes
        on the front of the reclaim list. */
    method AddToReclaimList(node: Ptr)
      modifies this
      ensures reclaim == [node] + old(reclaim)
      ensures head == old(head) && heap == old(heap) && spine == old(spine)
    {
      reclaim := [node] + reclaim;
    }

    /** `DeleteNodesWithNoHazards`: the reclaim list is taken whole; each
        entry that some slot points at goes back on the list, and every
        other one is deleted, in list order. */
    method DeleteNodesWithNoHazards()
      requires table.Valid() && heap.Valid()
      requires forall p | p in reclaim :: p in heap.next
      requires Distinct(reclaim)
      modifies this
      ensures reclaim == Requeued(old(reclaim), table.Hazards())
      ensures heap == SweptHeap(old(heap), old(reclaim), table.Hazards())
      ensures head == old(head) && spine == old(spine)
    {
      ghost var hazards := table.Hazards();
      var h, kept := Sweep(table, heap, reclaim);
      heap := h;
      reclaim := kept;
      assert table.Hazards() == hazards;
    }

    /** `Pop` with the calling thread's slot `slot`. The head is published
        in the slot before it is read through, and the slot is cleared once
        the head has moved on. On an empty stack the result is null and
        the reclaim list is left alone. Otherwise the result is the top
        value and the head becomes its `next_`; the old head is deleted at
        once unless some slot points at it, in which case it joins the
        reclaim list; then the list is swept. Taken together, of the old
        head and the old list exactly the entries no slot points at are
        deleted, in that order, and the others make up the new list. */
    method Pop(slot: nat) returns (r: Option<T>)
      requires Valid() && slot < MaxHazardPointers && table.slots[slot].threadId != NoThread
      modifies this, table.slots
      ensures Valid()
      ensures table.slots[slot] == HazardPointer(old(table.slots[slot].threadId), Null)
      ensures forall j | 0 <= j < table.slots.Length && j != slot :: table.slots[j] == old(table.slots[j])
      ensures old(Contents()) == [] ==> r == None && head == Null && heap == old(heap) && reclaim == old(reclaim)
      ensures old(Contents()) != [] ==>
        && r == Some(old(Contents())[0])
        && Contents() == old(Contents())[1..]
        && old(head) in old(heap.next) && head == old(heap.next[head])
        && reclaim == Requeued([old(head)] + old(reclaim), table.Hazards())
        && Distinct([old(head)] + old(reclaim)) && (forall p | p in [old(head)] + old(reclaim) :: p in old(heap.next))
        && heap == SweptHeap(old(heap).TakeData(old(head)), [old(head)] + old(reclaim), table.Hazards())
    {
      var oldHead := ProtectHead(slot);
      if oldHead == Null {
        table.Publish(slot, Null);
        return None;
      }
      r := Unlink(slot);
    }

    /** The rest of a non-empty `Pop`, with the head published in slot
        `slot`: the head moves on to its `next_`, the slot is cleared, the
        value is taken and the old head retired. */
    method Unlink(slot: nat) returns (r: Option<T>)
      requires Valid() && slot < MaxHazardPointers && head != Null
      modifies this, table.slots
      ensures Valid()
      ensures table.slots[slot] == HazardPointer(old(table.slots[slot].threadId), Null)
      ensures forall j | 0 <= j < table.slots.Length && j != slot :: table.slots[j] == old(table.slots[j])
      ensures old(Contents()) != []
      ensures r == Some(old(Contents())[0])
      ensures Contents() == old(Contents())[1..]
      ensures old(head) in old(heap.next) && head == old(heap.next[head])
      ensures reclaim == Requeued([old(head)] + old(reclaim), table.Hazards())
      ensures Distinct([old(head)] + old(reclaim)) && (forall p | p in [old(head)] + old(reclaim) :: p in old(heap.next))
      ensures heap == SweptHeap(old(heap).TakeData(old(head)), [old(head)] + old(reclaim), table.Hazards())
    {
      var oldHead := head;
      StackTail(heap, head, spine);
      ghost var h0, s0, r0, rest := heap, spine, reclaim, Values(heap, spine[1..]);
      assert old(Contents())[1..] == rest;
      head := heap.next[oldHead];
      table.Publish(slot, Null);
      r := heap.data[oldHead];
      RetireEntries(heap, spine, reclaim);
      Retire(oldHead);
      RetireKeepsStack(h0, head, s0, r0, table.Hazards(), heap, reclaim);
    }

    /** The rest of a non-empty `Pop`, once the old head `node` is off the
        stack: its value is moved out, it is deleted or put on the reclaim
        list, and the list is swept. */
    method Retire(node: Ptr)
      requires table.Valid() && heap.Valid() && spine != [] && node == spine[0]
      requires Stack(heap, head, spine[1..]) && node in heap.next && node !in spine[1..]
      requires Pending(heap, spine, reclaim)
      requires forall p | p in heap.next :: p in spine || p in reclaim
      requires Distinct([node] + reclaim) && forall p | p in [node] + reclaim :: p in heap.next
      modifies this
      ensures spine == old(spine)[1..] && head == old(head)
      ensures reclaim == Requeued([node] + old(reclaim), table.Hazards())
      ensures heap == SweptHeap(old(heap).TakeData(node), [node] + old(reclaim), table.Hazards())
    {
      ghost var hazards := table.Hazards();
      ghost var entries := [node] + reclaim;
      ghost var h1 := heap.TakeData(node);
      heap := heap.TakeData(node);
      spine := spine[1..];
      var hazard := table.OutstandingHazardPointersFor(node);
      if hazard {
        AddToReclaimList(node);
        assert reclaim == entries;
      } else {
        SweptHeapFront(h1, node, reclaim, hazards);
        RequeuedFront(node, reclaim, hazards);
        assert Requeued(entries, hazards) == Requeued(reclaim, hazards) + [];
        heap := heap.Delete(node);
      }
      DeleteNodesWithNoHazards();
      assert table.Hazards() == hazards;
    }
  }

  /** The old head and the reclaim list of a valid stack are live and
      listed once. */
  lemma RetireEntries<T>(h: Heap<T>, spine: seq<Ptr>, reclaim: seq<Ptr>)
    requires spine != [] && spine[0] in h.next && Pending(h, spine, reclaim)
    ensures Distinct([spine[0]] + reclaim) && forall p | p in [spine[0]] + reclaim :: p in h.next
  {
    var entries := [spine[0]] + reclaim;
    assert spine[0] !in reclaim by {
      assert spine[0] in spine;
    }
    forall i, j | 0 <= i < j < |entries| ensures entries[i] != entries[j] {
      assert entries[j] == reclaim[j - 1];
      if i > 0 {
        assert entries[i] == reclaim[i - 1];
      }
    }
  }

  /** Retiring the head `spine[0]` of a valid stack with reclaim list
      `reclaim` — moving its value out, then deleting the entries of
      `[spine[0]] + reclaim` no slot points at and keeping the others as
      the new list — leaves the rest of the stack, with its values, and
      a valid reclaim list, and loses no live node. */
  lemma RetireKeepsStack<T>(h: Heap<T>, head: Ptr, spine: seq<Ptr>, reclaim: seq<Ptr>, hazards: set<Ptr>, h': Heap<T>, kept: seq<Ptr>)
    requires spine != [] && h.Valid() && spine[0] in h.next
    requires Stack(h, head, spine[1..]) && spine[0] !in spine[1..]
    requires Pending(h, spine, reclaim)
    requires forall p | p in h.next :: p in spine || p in reclaim
    requires Distinct([spine[0]] + reclaim) && forall p | p in [spine[0]] + reclaim :: p in h.next
    requires h' == SweptHeap(h.TakeData(spine[0]), [spine[0]] + reclaim, hazards)
    requires kept == Requeued([spine[0]] + reclaim, hazards)
    ensures Stack(h', head, spine[1..]) && Values(h', spine[1..]) == Values(h, spine[1..])
    ensures Pending(h', spine[1..], kept)
    ensures forall p | p in h'.next :: p in spine[1..] || p in kept
  {
    var entries := [spine[0]] + reclaim;
    var h1 := h.TakeData(spine[0]);
    SweptHeapFrees(h1, entries, hazards);
    RetireRest(h, h', head, spine, reclaim);
    RequeuedMembers(entries, hazards);
    RequeuedDistinct(entries, hazards);
    RetireReclaim(h, h', spine, reclaim, hazards, kept);
  }

  /** After the sweep, the new reclaim list `kept` — the protected entries
      of the old head and the old list — is a valid reclaim list for the
      rest of the stack, and no live node is off both. */
  lemma RetireReclaim<T>(h: Heap<T>, h': Heap<T>, spine: seq<Ptr>, reclaim: seq<Ptr>, hazards: set<Ptr>, kept: seq<Ptr>)
    requires spine != [] && spine[0] in h.next && spine[0] !in spine[1..] && Pending(h, spine, reclaim)
    requires forall p | p in h.next :: p in spine || p in reclaim
    requires forall p :: p in h'.next <==> p in h.next && !(p in [spine[0]] + reclaim && p !in hazards)
    requires forall p :: p in kept <==> p in [spine[0]] + reclaim && p in hazards
    requires Distinct(kept)
    ensures Pending(h', spine[1..], kept)
    ensures forall p | p in h'.next :: p in spine[1..] || p in kept
  {
    var rest := spine[1..];
    forall p | p in kept ensures p in h'.next && p !in rest {
      assert p in [spine[0]] + reclaim;
      assert p == spine[0] || p in reclaim;
      assert p in rest ==> p in spine;
    }
    forall p | p in h'.next ensures p in rest || p in kept {
      assert p in h.next;
      assert p in spine ==> p == spine[0] || p in rest;
    }
  }

  /** The nodes below the retired head keep their links and values. */
  lemma RetireRest<T>(h: Heap<T>, h': Heap<T>, head: Ptr, spine: seq<Ptr>, reclaim: seq<Ptr>)
    requires spine != [] && Stack(h, head, spine[1..]) && spine[0] !in spine[1..]
    requires Pending(h, spine, reclaim) && h'.Valid()
    requires forall p | p in spine[1..] && p !in reclaim && p != spine[0] :: p in h'.next
    requires forall p | p in h'.next && p in h.next && p != spine[0] :: h'.next[p] == h.next[p] && h'.data[p] == h.data[p]
    ensures Stack(h', head, spine[1..]) && Values(h', spine[1..]) == Values(h, spine[1..])
  {
    var rest := spine[1..];
    assert Agree(h, h', rest) by {
      forall p | p in rest ensures p in h'.next && h'.next[p] == h.next[p] && h'.data[p] == h.data[p] {
        assert p in spine && p != spine[0] && p !in reclaim;
      }
    }
    StackFrame(h, h', head, rest);
  }

  /** A table whose slots all hold null protects no node. */
  lemma HazardsCleared(table: HazardTable)
    requires forall i | 0 <= i < table.slots.Length :: table.slots[i].hp == Null
    ensures table.Hazards() <= {Null}
  {
  }

  /** Slots are claimed first free first: two threads get slots 0 and 1,
      and once the first has given its slot back a third thread gets
      slot 0 again. */
  method AcquireExample() returns (a: Result<nat>, b: Result<nat>, c: Result<nat>)
    ensures a == Ok(0) && b == Ok(1) && c == Ok(0)
  {
    var table := new HazardTable();
    assert table.slots[0].threadId == NoThread;
    a := table.Acquire(1);
    assert a.Ok?;
    assert a == Ok(0);
    assert table.slots[0].threadId == 1 && table.slots[1].threadId == NoThread;
    b := table.Acquire(2);
    assert b.Ok?;
    table.Release(0);
    c := table.Acquire(3);
    assert c.Ok?;
  }

  /** With every one of the `MaxHazardPointers` slots claimed, one more
      thread gets the `runtime_error`. */
  method ExhaustionExample() returns (r: Result<nat>)
    ensures r == Err(RuntimeError)
  {
    var table := new HazardTable();
    var k := 0;
    while k < MaxHazardPointers
      invariant 0 <= k <= MaxHazardPointers && table.Valid()
      invariant forall j | 0 <= j < k :: table.slots[j].threadId != NoThread
      invariant forall j | k <= j < MaxHazardPointers :: table.slots[j].threadId == NoThread
    {
      assert table.slots[k].threadId == NoThread;
      var claimed := table.Acquire(k + 1);
      assert claimed.Ok? && claimed.value == k;
      k := k + 1;
    }
    r := table.Acquire(MaxHazardPointers + 1);
  }

  /** The sequence tests/test_lockfree_stack.cpp checks, by a thread holding
      slot 0: an empty stack pops null; after pushing 1, 2 and 3 the pops give
      3, 2, 1 and then null again. */
  method LifoExample() returns (empty: Option<int>, p3: Option<int>, p2: Option<int>, p1: Option<int>, after: Option<int>)
    ensures empty == None && p3 == Some(3) && p2 == Some(2) && p1 == Some(1) && after == None
  {
    var table := new HazardTable();
    assert table.slots[0].threadId == NoThread;
    var slot := table.Acquire(1);
    assert slot.Ok? && slot.value == 0;
    var s := new LockfreeStackHazardPointer<int>(table);
    empty := s.Pop(0);
    s.Push(1);
    s.Push(2);
    s.Push(3);
    p3 := s.Pop(0);
    p2 := s.Pop(0);
    p1 := s.Pop(0);
    after := s.Pop(0);
  }

  /** Deferred reclamation. Another thread has published, in slot 1, the
      node holding 1 when the thread holding slot 0 pops it: the node is
      not deleted but put on the reclaim list. */
  method DeferredExample() returns (table: HazardTable, s: LockfreeStackHazardPointer<int>, node: Ptr, first: Option<int>)
    ensures first == Some(1)
    ensures s.Valid() && s.table == table && s.Contents() == []
    ensures s.reclaim == [node] && node in s.heap.next
    ensures table.slots[0].threadId != NoThread && table.slots[1].hp == node
    ensures forall i | 0 <= i < table.slots.Length && i != 1 :: table.slots[i].hp == Null
    ensures fresh(s) && fresh(table) && fresh(table.slots)
  {
    table := new HazardTable();
    assert table.slots[0].threadId == NoThread;
    var mine := table.Acquire(1);
    assert mine.Ok? && mine.value == 0;
    s := new LockfreeStackHazardPointer<int>(table);
    s.Push(1);
    node := s.head;
    table.Publish(1, node);
    first := s.Pop(0);
  }

  /** A pop of the empty stack sweeps nothing: the deferred node stays on
      the list. Then the other thread clears its slot. */
  method EmptyPopExample() returns (table: HazardTable, s: LockfreeStackHazardPointer<int>, node: Ptr, emptyPop: Option<int>)
    ensures emptyPop == None
    ensures s.Valid() && s.table == table && s.Contents() == []
    ensures s.reclaim == [node] && node in s.heap.next
    ensures table.slots[0].threadId != NoThread
    ensures forall i | 0 <= i < table.slots.Length :: table.slots[i].hp == Null
    ensures fresh(s) && fresh(table) && fresh(table.slots)
  {
    var first;
    table, s, node, first := DeferredExample();
    emptyPop := s.Pop(0);
    table.Publish(1, Null);
  }

  /** With slot 1 cleared, the deferred node is deleted by the next
      non-empty pop, together with that pop's own node. */
  method LaterSweepExample() returns (second: Option<int>, freedLater: bool)
    ensures second == Some(2) && freedLater
  {
    var table, s, node, emptyPop := EmptyPopExample();
    s.Push(2);
    ghost var taken := s.heap.TakeData(s.head);
    ghost var entries := [s.head] + s.reclaim;
    second := s.Pop(0);
    HazardsCleared(table);
    SweptHeapFrees(taken, entries, table.Hazards());
    freedLater := node in s.heap.freed;
  }
}
