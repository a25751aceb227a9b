/** The memory the lock-free stacks allocate their nodes in. A node is an
    address with a `next_` pointer and a `data_` slot; `delete` takes an
    address out of the live nodes and records it as freed, so a freed node
    can be told apart from a live one. Addresses are handed out in
    increasing order and never reused. */
module Arena {
  import opened Base

  /** A node address; 0 is the null pointer. */
  type Ptr = nat

  const Null: Ptr := 0

  /** The live nodes' `next_` pointers and `data_` slots (a slot is `None`
      once its value has been moved out), the freed addresses, and the
      address the next `new` returns. */
  datatype Heap<T> = Heap(next: map<Ptr, Ptr>, data: map<Ptr, Option<T>>, freed: set<Ptr>, nextAddr: Ptr)
  {
    /** Every live node has both fields; live and freed addresses are
        apart, non-null and below `nextAddr`. */
    ghost predicate Valid()
    {
      && data.Keys == next.Keys
      && next.Keys !! freed
      && Null < nextAddr
      && (forall p | p in next :: Null < p < nextAddr)
      && (forall p | p in freed :: Null < p < nextAddr)
    }

    /** `new Node(x)` with `next_` set to `succ`, at a fresh address. */
    function Alloc(x: T, succ: Ptr): (h: Heap<T>)
      requires Valid()
      ensures h.Valid()
      ensures nextAddr !in next && nextAddr !in freed && h.next.Keys == next.Keys + {nextAddr}
      ensures h.freed == freed && h.nextAddr > nextAddr
      ensures h.next[nextAddr] == succ && h.data[nextAddr] == Some(x)
    {
      Heap(next[nextAddr := succ], data[nextAddr := Some(x)], freed, nextAddr + 1)
    }

    /** `delete p`: the node is no longer live and counts as freed. */
    function Delete(p: Ptr): (h: Heap<T>)
      requires Valid() && p in next
      ensures h.Valid()
      ensures h.next.Keys == next.Keys - {p} && h.freed == freed + {p}
    {
      Heap(next - {p}, data - {p}, freed + {p}, nextAddr)
    }

    /** `p->next_ = q`. */
    function SetNext(p: Ptr, q: Ptr): (h: Heap<T>)
      requires Valid() && p in next
      ensures h.Valid()
      ensures h.next.Keys == next.Keys && h.freed == freed
    {
      Heap(next[p := q], data, freed, nextAddr)
    }

    /** `res.swap(p->data_)` with an empty `res`: the value moves out and
        the node's slot is left empty. */
    function TakeData(p: Ptr): (h: Heap<T>)
      requires Valid() && p in next
      ensures h.Valid()
      ensures h.next == next && h.freed == freed && h.data[p] == None
    {
      Heap(next, data[p := None], freed, nextAddr)
    }
  }

  /** What follows node `i` of a list of nodes: the next one, or null
      after the last. */
  function Succ(nodes: seq<Ptr>, i: nat): Ptr
  {
    if i + 1 < |nodes| then nodes[i + 1] else Null
  }

  /** Following `next_` from `first` visits exactly `nodes`, in order, and
      then reaches null; the nodes are live and distinct. */
  ghost predicate Chain<T>(h: Heap<T>, first: Ptr, nodes: seq<Ptr>)
  {
    && first == (if nodes == [] then Null else nodes[0])
    && (forall i :: 0 <= i < |nodes| ==> nodes[i] in h.next && h.next[nodes[i]] == Succ(nodes, i))
    && (forall i, j :: 0 <= i < j < |nodes| ==> nodes[i] != nodes[j])
  }

  /** Every node of `nodes` is live and holds a value. */
  ghost predicate Filled<T>(h: Heap<T>, nodes: seq<Ptr>)
  {
    forall p | p in nodes :: p in h.data && h.data[p].Some?
  }

  /** The values held by `nodes`, in order. */
  function Values<T>(h: Heap<T>, nodes: seq<Ptr>): (vs: seq<T>)
    requires Filled(h, nodes)
    ensures |vs| == |nodes|
  {
    if nodes == [] then [] else [h.data[nodes[0]].value] + Values(h, nodes[1..])
  }

  /** The `i`-th value is the one the `i`-th node holds. */
  lemma {:induction false} ValuesAt<T>(h: Heap<T>, nodes: seq<Ptr>, i: nat)
    requires Filled(h, nodes) && i < |nodes|
    ensures nodes[i] in h.data && h.data[nodes[i]] == Some(Values(h, nodes)[i])
  {
    if i > 0 {
      assert nodes[1..][i - 1] == nodes[i];
      ValuesAt(h, nodes[1..], i - 1);
    }
  }

  /** `h'` keeps the `next_` pointer and the data of every node of `nodes`. */
  ghost predicate Agree<T>(h: Heap<T>, h': Heap<T>, nodes: seq<Ptr>)
  {
    forall p | p in nodes ::
      p in h.next && p in h.data && p in h'.next && p in h'.data && h'.next[p] == h.next[p] && h'.data[p] == h.data[p]
  }

  /** A well-formed stack: the heap is valid, and the nodes from `head`
      down form a chain whose nodes all hold values. */
  ghost predicate Stack<T>(h: Heap<T>, head: Ptr, nodes: seq<Ptr>)
  {
    h.Valid() && Chain(h, head, nodes) && Filled(h, nodes)
  }

  /** A chain survives any change that keeps its nodes' `next_` pointers. */
  lemma ChainFrame<T>(h: Heap<T>, h': Heap<T>, first: Ptr, nodes: seq<Ptr>)
    requires Chain(h, first, nodes)
    requires forall p | p in nodes :: p in h'.next && h'.next[p] == h.next[p]
    ensures Chain(h', first, nodes)
  {
    forall i | 0 <= i < |nodes|
      ensures nodes[i] in h'.next && h'.next[nodes[i]] == Succ(nodes, i)
    {
      assert nodes[i] in nodes;
    }
  }

  /** The values a list of nodes holds depend only on those nodes. */
  lemma {:induction false} ValuesFrame<T>(h: Heap<T>, h': Heap<T>, nodes: seq<Ptr>)
    requires Filled(h, nodes) && Agree(h, h', nodes)
    ensures Filled(h', nodes) && Values(h', nodes) == Values(h, nodes)
  {
    if nodes != [] {
      assert nodes[0] in nodes;
      assert Agree(h, h', nodes[1..]) by {
        forall p | p in nodes[1..] ensures p in nodes { }
      }
      ValuesFrame(h, h', nodes[1..]);
    }
  }

  /** A stack stays the same stack, holding the same values, under any
      change that keeps its nodes. */
  lemma StackFrame<T>(h: Heap<T>, h': Heap<T>, head: Ptr, nodes: seq<Ptr>)
    requires Stack(h, head, nodes) && h'.Valid() && Agree(h, h', nodes)
    ensures Stack(h', head, nodes) && Values(h', nodes) == Values(h, nodes)
  {
    ChainFrame(h, h', head, nodes);
    ValuesFrame(h, h', nodes);
  }

  /** A new node holding `x` and linked to the old head is a stack one
      longer, whose values are `x` followed by the old ones. */
  lemma StackPush<T>(h: Heap<T>, head: Ptr, nodes: seq<Ptr>, x: T)
    requires Stack(h, head, nodes)
    ensures var a := h.nextAddr; var h' := h.Alloc(x, head);
      && a !in nodes
      && Stack(h', a, [a] + nodes)
      && Values(h', [a] + nodes) == [x] + Values(h, nodes)
  {
    var a := h.nextAddr;
    var h' := h.Alloc(x, head);
    assert a !in nodes;
    assert Agree(h, h', nodes);
    StackFrame(h, h', head, nodes);
    var nodes' := [a] + nodes;
    forall i | 0 <= i < |nodes'|
      ensures nodes'[i] in h'.next && h'.next[nodes'[i]] == Succ(nodes', i)
    {
      if i > 0 {
        assert nodes'[i] == nodes[i - 1];
      }
    }
    assert nodes'[1..] == nodes;
  }

  /** Below the head of a non-empty stack is the stack of the remaining
      nodes, which do not include the head. */
  lemma StackTail<T>(h: Heap<T>, head: Ptr, nodes: seq<Ptr>)
    requires Stack(h, head, nodes) && nodes != []
    ensures head == nodes[0] && head in h.next && head !in nodes[1..]
    ensures Stack(h, h.next[head], nodes[1..])
    ensures Values(h, nodes) == [h.data[head].value] + Values(h, nodes[1..])
  {
    var rest := nodes[1..];
    forall i | 0 <= i < |rest|
      ensures rest[i] in h.next && h.next[rest[i]] == Succ(rest, i)
    {
      assert rest[i] == nodes[i + 1];
    }
    assert forall j :: 0 <= j < |rest| ==> rest[j] == nodes[j + 1];
  }

  /** Following `next_` from `first` visits `nodes` in order; the nodes are
      live and distinct, and where the last one points is left open. */
  ghost predicate Segment<T>(h: Heap<T>, first: Ptr, nodes: seq<Ptr>)
  {
    && nodes != [] && first == nodes[0]
    && (forall i :: 0 <= i < |nodes| ==> nodes[i] in h.next)
    && (forall i :: 0 <= i < |nodes| - 1 ==> h.next[nodes[i]] == nodes[i + 1])
    && (forall i, j :: 0 <= i < j < |nodes| ==> nodes[i] != nodes[j])
  }

  /** Linking the last node of a segment to the first node of a chain it
      shares no node with gives one chain. */
  lemma SegmentSplice<T>(h: Heap<T>, first: Ptr, nodes: seq<Ptr>, restFirst: Ptr, rest: seq<Ptr>)
    requires h.Valid() && Segment(h, first, nodes) && Chain(h, restFirst, rest)
    requires forall p | p in nodes :: p !in rest
    ensures var h' := h.SetNext(nodes[|nodes| - 1], restFirst);
      Chain(h', first, nodes + rest)
  {
    var last := nodes[|nodes| - 1];
    var h' := h.SetNext(last, restFirst);
    var all := nodes + rest;
    forall i | 0 <= i < |all|
      ensures all[i] in h'.next && h'.next[all[i]] == Succ(all, i)
    {
      if i < |nodes| {
        assert all[i] == nodes[i];
        if i + 1 < |nodes| {
          assert nodes[i] != last;
        }
      } else {
        assert all[i] == rest[i - |nodes|];
        assert rest[i - |nodes|] != last by {
          assert last in nodes;
        }
      }
    }
    forall i, j | 0 <= i < j < |all|
      ensures all[i] != all[j]
    {
      if j >= |nodes| && i < |nodes| {
        assert all[i] in nodes;
      }
    }
  }

  /** No address occurs twice. */
  ghost predicate Distinct(s: seq<Ptr>)
  {
    forall i, j :: 0 <= i < j < |s| ==> s[i] != s[j]
  }

  /** `delete` applied to each node of `nodes`, first to last: exactly
      those nodes stop being live. */
  function DeleteAll<T>(h: Heap<T>, nodes: seq<Ptr>): (h': Heap<T>)
    requires h.Valid() && Distinct(nodes) && forall p | p in nodes :: p in h.next
    ensures h'.Valid()
    ensures forall p :: p in h'.next <==> p in h.next && p !in nodes
    decreases |nodes|
  {
    if nodes == [] then h
    else
      var init := nodes[..|nodes| - 1];
      var last := nodes[|nodes| - 1];
      assert nodes == init + [last];
      assert Distinct(init) && last !in init by {
        forall k | 0 <= k < |init| ensures init[k] == nodes[k] { }
      }
      DeleteAll(h, init).Delete(last)
  }

  /** Deleting a list of nodes frees exactly those nodes and leaves every
      node that stays live untouched. */
  lemma {:induction false} DeleteAllFrees<T>(h: Heap<T>, nodes: seq<Ptr>)
    requires h.Valid() && Distinct(nodes) && forall p | p in nodes :: p in h.next
    ensures var h' := DeleteAll(h, nodes);
      && (forall p :: p in h'.freed <==> p in h.freed || p in nodes)
      && (forall p | p in h'.next :: h'.next[p] == h.next[p] && h'.data[p] == h.data[p])
    decreases |nodes|
  {
    if nodes != [] {
      var init := nodes[..|nodes| - 1];
      var last := nodes[|nodes| - 1];
      assert nodes == init + [last];
      assert Distinct(init) && last !in init by {
        forall k | 0 <= k < |init| ensures init[k] == nodes[k] { }
      }
      DeleteAllFrees(h, init);
    }
  }
}
