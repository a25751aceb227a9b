/** `ThreadsafeQueue`: a FIFO queue over a singly linked list that always
    ends in an empty dummy node. `head` is the oldest node and `tail` the
    dummy; a push fills the dummy and appends a fresh one, a pop advances
    `head`. The two mutexes and the condition variable are not modelled;
    each operation is one thread's view of the queue. */
module ThreadsafeQueueModel {
  import opened Base

  /** A list node: `data` is empty only in the dummy node at the tail. */
  class QNode<T> {
    var data: Option<T>
    var next: QNode?<T>

    constructor ()
      ensures data == None && next == null
    {
      data := None;
      next := null;
    }
  }

  class ThreadsafeQueue<T> {
    var head: QNode<T>
    var tail: QNode<T>
    /** The nodes from `head` to `tail`, in list order. */
    ghost var nodes: seq<QNode<T>>
    /** The queued values, oldest first. */
    ghost var contents: seq<T>

    /** `tail` is reached from `head` along `next`; every node before the
        tail holds the matching queued value; the tail dummy holds no data
        and has no successor; no node appears twice. */
    ghost predicate Valid()
      reads this, nodes
    {
      && |nodes| == |contents| + 1
      && nodes[0] == head
      && nodes[|nodes| - 1] == tail
      && (forall i :: 0 <= i < |contents| ==> nodes[i].next == nodes[i + 1])
      && (forall i :: 0 <= i < |contents| ==> nodes[i].data == Some(contents[i]))
      && tail.data == None && tail.next == null
      && (forall i, j :: 0 <= i < j < |nodes| ==> nodes[i] != nodes[j])
    }

    /** A new queue is one dummy node that is both head and tail. */
    constructor ()
      ensures Valid() && contents == []
      ensures head == tail && fresh(tail)
    {
      var dummy := new QNode();
      head := dummy;
      tail := dummy;
      nodes := [dummy];
      contents := [];
    }

    /** `push`: the value goes into the current dummy, a fresh dummy is
        linked after it and becomes the tail. */
    method Push(newValue: T)
      requires Valid()
      modifies this, tail
      ensures Valid()
      ensures contents == old(contents) + [newValue]
      ensures fresh(tail)
    {
      var newTail := new QNode();
      tail.data := Some(newValue);
      tail.next := newTail;
      tail := newTail;
      nodes := nodes + [newTail];
      contents := contents + [newValue];
    }

    /** `pop_head`: unlinks the oldest node and returns it. Callers only use
        it on a non-empty queue. */
    method PopHead() returns (oldHead: QNode<T>)
      requires Valid() && contents != []
      modifies this
      ensures Valid()
      ensures contents == old(contents)[1..]
      ensures oldHead.data == Some(old(contents)[0])
      ensures tail == old(tail)
    {
      oldHead := head;
      assert head.next == nodes[1];
      head := head.next;
      nodes := nodes[1..];
      contents := contents[1..];
    }

    /** `try_pop()` returning a shared pointer: nothing when `head == tail`,
        otherwise the oldest value, which leaves the queue. */
    method TryPop() returns (r: Option<T>)
      requires Valid()
      modifies this
      ensures Valid()
      ensures old(contents) == [] ==> r == None && contents == old(contents)
      ensures old(contents) != [] ==> r == Some(old(contents)[0]) && contents == old(contents)[1..]
      ensures tail == old(tail)
    {
      if head == tail {
        return None;
      }
      var oldHead := PopHead();
      r := oldHead.data;
    }

    /** `try_pop(T&)`: false with `value` untouched on an empty queue,
        otherwise true with the oldest value moved into `value`. */
    method TryPopInto(value: T) returns (ok: bool, value': T)
      requires Valid()
      modifies this
      ensures Valid()
      ensures ok <==> old(contents) != []
      ensures !ok ==> value' == value && contents == old(contents)
      ensures ok ==> value' == old(contents)[0] && contents == old(contents)[1..]
    {
      if head == tail {
        return false, value;
      }
      var oldHead := PopHead();
      return true, oldHead.data.value;
    }

    /** `wait_and_pop`, once the wait for data is over: the oldest value
        leaves the queue. */
    method WaitAndPop() returns (value: T)
      requires Valid() && contents != []
      modifies this
      ensures Valid()
      ensures value == old(contents)[0] && contents == old(contents)[1..]
    {
      var oldHead := PopHead();
      value := oldHead.data.value;
    }

    /** `empty`: `head == tail` exactly when no value is queued. */
    method Empty() returns (r: bool)
      requires Valid()
      ensures r <==> contents == []
    {
      r := head == tail;
    }
  }

  /** The sequence tests/test_threadsafe_queue.cpp checks: a new queue
      pops nothing; after pushing 1 a pop gives 1; after pushing 2, 3, 4
      and 5 the pops give them back in that order and then nothing. */
  method FifoExample() returns (popped: seq<Option<int>>)
    ensures popped == [None, Some(1), Some(2), Some(3), Some(4), Some(5), None]
  {
    var q := new ThreadsafeQueue<int>();
    var e := q.TryPop();
    q.Push(1);
    var a := q.TryPop();
    q.Push(2);
    q.Push(3);
    q.Push(4);
    q.Push(5);
    var b := q.TryPop();
    var c := q.TryPop();
    var d := q.TryPop();
    var f := q.TryPop();
    var g := q.TryPop();
    popped := [e, a, b, c, d, f, g];
  }
}
