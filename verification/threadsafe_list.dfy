/** `ThreadsafeList`: a singly linked list behind a sentinel node `head`,
    traversed hand over hand. The per-node mutexes are not modelled; each
    operation is one thread's view of the list. */
module ThreadsafeListModel {
  import opened Base

  /** `s` without the elements that satisfy `p`, the rest in order. */
  function RemovedIf<T>(s: seq<T>, p: T -> bool): (r: seq<T>)
    ensures |r| <= |s|
  {
    if s == [] then []
    else RemovedIf(s[..|s| - 1], p) + (if p(s[|s| - 1]) then [] else [s[|s| - 1]])
  }

  /** `RemovedIf` drops exactly the elements satisfying `p`. */
  lemma {:induction false} RemovedIfMembers<T>(s: seq<T>, p: T -> bool, x: T)
    ensures x in RemovedIf(s, p) <==> x in s && !p(x)
    decreases |s|
  {
    if s != [] {
      RemovedIfMembers(s[..|s| - 1], p, x);
      assert s == s[..|s| - 1] + [s[|s| - 1]];
    }
  }

  /** With a predicate that holds for no element nothing is removed. */
  lemma {:induction false} RemovedIfNone<T>(s: seq<T>, p: T -> bool)
    requires forall i :: 0 <= i < |s| ==> !p(s[i])
    ensures RemovedIf(s, p) == s
    decreases |s|
  {
    if s != [] {
      RemovedIfNone(s[..|s| - 1], p);
    }
  }

  /** `ns` is a sentinel followed by one node per value of `cs`: the
      sentinel carries no data; each node links to the next, the last to
      nothing; node `i + 1` holds value `i`; no node appears twice. */
  ghost predicate Chain<T>(ns: seq<LNode<T>>, cs: seq<T>)
    reads ns
  {
    && |ns| == |cs| + 1
    && ns[0].data == None
    && (forall i :: 0 <= i < |cs| ==> ns[i].next == ns[i + 1])
    && ns[|ns| - 1].next == null
    && (forall i :: 0 <= i < |cs| ==> ns[i + 1].data == Some(cs[i]))
    && (forall i, j :: 0 <= i < j < |ns| ==> ns[i] != ns[j])
  }

  /** `current->next_ = std::move(next->next_)`: node `k` of the chain is
      made to point past its successor, which leaves the chain with its
      value. */
  method UnlinkNext<T>(current: LNode<T>, ghost ns: seq<LNode<T>>, ghost cs: seq<T>, ghost k: nat,
                       ghost footprint: set<LNode<T>>)
    requires Chain(ns, cs) && k < |cs| && current == ns[k]
    requires forall j :: 0 <= j < |ns| ==> ns[j] in footprint
    modifies current
    ensures Chain(ns[..k + 1] + ns[k + 2..], cs[..k] + cs[k + 1..])
    ensures var ns' := ns[..k + 1] + ns[k + 2..]; forall j :: 0 <= j < |ns'| ==> ns'[j] in footprint
  {
    var next := current.next;
    assert next == ns[k + 1];
    current.next := next.next;
    ghost var ns', cs' := ns[..k + 1] + ns[k + 2..], cs[..k] + cs[k + 1..];
    assert |ns'| == |cs'| + 1;
    forall i | 0 <= i < |ns| && i != k
      ensures ns[i].next == old(ns[i].next) && ns[i].data == old(ns[i].data)
    {
      assert ns[i] != ns[k];
    }
    forall i | 0 <= i < |cs'|
      ensures ns'[i].next == ns'[i + 1]
    {
      if i < k {
        assert ns'[i] == ns[i] && ns'[i + 1] == ns[i + 1];
      } else if i == k {
        assert ns'[i + 1] == ns[k + 2];
      } else {
        assert ns'[i] == ns[i + 1] && ns'[i + 1] == ns[i + 2];
      }
    }
    forall i | 0 <= i < |cs'|
      ensures ns'[i + 1].data == Some(cs'[i])
    {
      if i < k {
        assert ns'[i + 1] == ns[i + 1] && cs'[i] == cs[i];
      } else {
        assert ns'[i + 1] == ns[i + 2] && cs'[i] == cs[i + 1];
      }
    }
    assert ns'[|ns'| - 1].next == null by {
      if k + 2 < |ns| {
        assert ns'[|ns'| - 1] == ns[|ns| - 1];
      }
    }
    assert ns'[0].data == None by {
      assert ns'[0] == ns[0];
    }
    forall i, j | 0 <= i < j < |ns'|
      ensures ns'[i] != ns'[j]
    {
      ghost var i0 := if i <= k then i else i + 1;
      ghost var j0 := if j <= k then j else j + 1;
      assert ns'[i] == ns[i0] && ns'[j] == ns[j0] && i0 < j0;
    }
  }

  /** One step of the `RemoveIf` walk over the values: `cs` is the list's
      values so far, the kept prefix before `k` and the unvisited input from
      `k` on; visiting the value at `k` either drops it or keeps it. */
  lemma WalkStep<T>(oc: seq<T>, cs: seq<T>, k: nat, i: nat, p: T -> bool)
    requires 1 <= i <= |oc| && k < |cs|
    requires cs[..k] == RemovedIf(oc[..i - 1], p) && cs[k..] == oc[i - 1..]
    ensures cs[k] == oc[i - 1]
    ensures p(cs[k]) ==> var cs' := cs[..k] + cs[k + 1..];
      cs'[..k] == RemovedIf(oc[..i], p) && cs'[k..] == oc[i..]
    ensures !p(cs[k]) ==> cs[..k + 1] == RemovedIf(oc[..i], p) && cs[k + 1..] == oc[i..]
  {
    assert cs[k] == cs[k..][0];
    assert oc[..i][..i - 1] == oc[..i - 1];
    var cs' := cs[..k] + cs[k + 1..];
    assert cs'[..k] == cs[..k];
    assert cs'[k..] == cs[k + 1..] == cs[k..][1..];
    assert cs[..k + 1] == cs[..k] + [cs[k]];
  }

  /** A node: the sentinel holds no data, every other node one value. */
  class LNode<T> {
    var data: Option<T>
    var next: LNode?<T>

    constructor (data: Option<T>)
      ensures this.data == data && next == null
    {
      this.data := data;
      next := null;
    }
  }

  class ThreadsafeList<T> {
    /** The sentinel `head_`. */
    const head: LNode<T>
    /** The sentinel followed by the element nodes, in list order. */
    ghost var nodes: seq<LNode<T>>
    /** The values, front to back. */
    ghost var contents: seq<T>

    /** The list from `head` holds `contents`. */
    ghost predicate Valid()
      reads this, nodes
    {
      |nodes| > 0 && nodes[0] == head && Chain(nodes, contents)
    }

    /** A new list is the sentinel alone. */
    constructor ()
      ensures Valid() && contents == []
      ensures nodes == [head] && fresh(head)
    {
      var sentinel := new LNode(None);
      head := sentinel;
      nodes := [sentinel];
      contents := [];
    }

    /** `PushFront`: a new node holding `value` is linked in right after the
        sentinel. */
    method PushFront(value: T)
      requires Valid()
      modifies this, head
      ensures Valid()
      ensures contents == [value] + old(contents)
      ensures forall n :: n in nodes ==> n in old(nodes) || fresh(n)
    {
      var newNode := new LNode(Some(value));
      newNode.next := head.next;
      head.next := newNode;
      nodes := [head, newNode] + nodes[1..];
      contents := [value] + contents;
    }

    /** `ForEach`: `f` is applied to every element once, front to back; the
        results of the calls are returned in call order. */
    method ForEach<R>(f: T -> R) returns (calls: seq<R>)
      requires Valid()
      ensures |calls| == |contents|
      ensures forall i :: 0 <= i < |contents| ==> calls[i] == f(contents[i])
    {
      var current := head;
      calls := [];
      ghost var k := 0;
      while current.next != null
        invariant 0 <= k <= |contents| && current == nodes[k]
        invariant current.next == if k < |contents| then nodes[k + 1] else null
        invariant |calls| == k
        invariant forall i :: 0 <= i < k ==> calls[i] == f(contents[i])
        decreases |contents| - k
      {
        var next := current.next;
        assert k < |contents| && next == nodes[k + 1] && next.data == Some(contents[k]);
        calls := calls + [f(next.data.value)];
        current := next;
        k := k + 1;
      }
    }

    /** `FindFirstIf`: the first element, front to back, satisfying `p`, or
        nothing when none does; the list is not changed. */
    method FindFirstIf(p: T -> bool) returns (r: Option<T>)
      requires Valid()
      ensures r.None? <==> forall i :: 0 <= i < |contents| ==> !p(contents[i])
      ensures r.Some? ==> exists i :: 0 <= i < |contents| && contents[i] == r.value && p(r.value)
                                        && forall j :: 0 <= j < i ==> !p(contents[j])
    {
      var current := head;
      ghost var k := 0;
      while current.next != null
        invariant 0 <= k <= |contents| && current == nodes[k]
        invariant current.next == if k < |contents| then nodes[k + 1] else null
        invariant forall j :: 0 <= j < k ==> !p(contents[j])
        decreases |contents| - k
      {
        var next := current.next;
        assert k < |contents| && next == nodes[k + 1] && next.data == Some(contents[k]);
        if p(next.data.value) {
          return next.data;
        }
        current := next;
        k := k + 1;
      }
      return None;
    }

    /** `RemoveIf`: every node whose value satisfies `p` is unlinked, the
        others stay in their order. */
    method RemoveIf(p: T -> bool)
      requires Valid()
      modifies this, nodes
      ensures Valid()
      ensures contents == RemovedIf(old(contents), p)
    {
      ghost var ns, cs := UnlinkMatching(head, nodes, contents, p);
      nodes := ns;
      contents := cs;
    }
  }

  /** The walk of `RemoveIf` over the chain `ns0` holding `cs0`: from the
      sentinel on, a successor whose value satisfies `p` is unlinked and the
      walk stays put, any other successor becomes the current node. The
      chain left behind starts at the same sentinel and holds `cs0` without
      the matching values. */
  method UnlinkMatching<T>(head: LNode<T>, ghost ns0: seq<LNode<T>>, ghost cs0: seq<T>, p: T -> bool)
    returns (ghost ns: seq<LNode<T>>, ghost cs: seq<T>)
    requires Chain(ns0, cs0) && ns0[0] == head
    modifies set n | n in ns0
    ensures Chain(ns, cs) && ns[0] == head
    ensures cs == RemovedIf(cs0, p)
  {
    ns, cs := ns0, cs0;
    ghost var footprint := set n | n in ns0;
    var current := head;
    ghost var k := 0;
    ghost var i := 1;
    while current.next != null
      invariant Chain(ns, cs) && ns[0] == head
      invariant 0 <= k < |ns| && current == ns[k]
      invariant current.next == if k < |cs| then ns[k + 1] else null
      invariant 1 <= i <= |cs0| + 1
      invariant cs[..k] == RemovedIf(cs0[..i - 1], p) && cs[k..] == cs0[i - 1..]
      invariant forall j :: 0 <= j < |ns| ==> ns[j] in footprint
      decreases |cs| - k
    {
      var next := current.next;
      assert next.data == Some(cs[k]);
      WalkStep(cs0, cs, k, i, p);
      if p(next.data.value) {
        UnlinkNext(current, ns, cs, k, footprint);
        ns, cs := ns[..k + 1] + ns[k + 2..], cs[..k] + cs[k + 1..];
      } else {
        current := next;
        k := k + 1;
      }
      i := i + 1;
    }
    assert cs0[..i - 1] == cs0;
  }

  /** Pushing 1, 2, 3 at the front makes a traversal see 3, 2, 1. */
  method PushFrontExample() returns (seen: seq<int>)
    ensures seen == [3, 2, 1]
  {
    var l := new ThreadsafeList<int>();
    l.PushFront(1);
    l.PushFront(2);
    l.PushFront(3);
    seen := l.ForEach(x => x);
  }

  /** Removing the even values from 5, 4, 3, 2, 1 leaves 5, 3, 1. */
  lemma RemoveIfExample()
    ensures RemovedIf([5, 4, 3, 2, 1], x => x % 2 == 0) == [5, 3, 1]
  {
    var even := x => x % 2 == 0;
    var s := [5, 4, 3, 2, 1];
    assert RemovedIf([5], even) == [5] by { assert [5][..0] == []; }
    assert RemovedIf([5, 4], even) == [5] by { assert [5, 4][..1] == [5]; }
    assert RemovedIf([5, 4, 3], even) == [5, 3] by { assert [5, 4, 3][..2] == [5, 4]; }
    assert RemovedIf([5, 4, 3, 2], even) == [5, 3] by { assert [5, 4, 3, 2][..3] == [5, 4, 3]; }
    assert s[..4] == [5, 4, 3, 2];
  }
}
