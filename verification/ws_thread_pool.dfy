/** The work-stealing `ThreadPool`: one global FIFO queue, one
    `WorkStealingQueue` per worker, and a `RunPendingTasks` step that takes
    one task from the caller's own queue, else from the global queue, else
    from another worker's queue. Tasks are opaque values of type `T`;
    running one, the futures tied to them and the worker threads
    themselves are not modelled. The caller's own queue is an explicit
    parameter (`None` for a thread that is not a worker). */
module WorkStealingPoolModel {
  import opened Base

  /** `WorkStealingQueue`: a deque of tasks. Its owner takes the oldest task
      from the front, a thief the newest from the back. */
  class WorkStealingQueue<T> {
    var items: seq<T>

    constructor ()
      ensures items == []
    {
      items := [];
    }

    /** `Push`: the task joins at the back. */
    method Push(task: T)
      modifies this
      ensures items == old(items) + [task]
    {
      items := items + [task];
    }

    /** `Empty`: whether no task is queued. */
    method Empty() returns (b: bool)
      ensures b <==> items == []
    {
      b := items == [];
    }

    /** `TryPop`: nothing when empty; otherwise the front task, removed. */
    method TryPop() returns (r: Option<T>)
      modifies this
      ensures old(items) == [] ==> r == None && items == old(items)
      ensures old(items) != [] ==> r == Some(old(items)[0]) && items == old(items)[1..]
    {
      if items == [] {
        return None;
      }
      r := Some(items[0]);
      items := items[1..];
    }

    /** `TrySteal`: nothing when empty; otherwise the back task, removed. */
    method TrySteal() returns (r: Option<T>)
      modifies this
      ensures old(items) == [] ==> r == None && items == old(items)
      ensures old(items) != [] ==> r == Some(Last(old(items))) && items == DropLast(old(items))
    {
      if items == [] {
        return None;
      }
      r := Some(items[|items| - 1]);
      items := items[..|items| - 1];
    }
  }

  function Last<T>(s: seq<T>): T
    requires s != []
  {
    s[|s| - 1]
  }

  function DropLast<T>(s: seq<T>): seq<T>
    requires s != []
  {
    s[..|s| - 1]
  }

  /** An owner sees its own tasks in the order it pushed them, a thief sees
      them newest first. */
  method DequeEndsExample() returns (popped: Option<int>, stolen: Option<int>, left: seq<int>)
    ensures popped == Some(1) && stolen == Some(3) && left == [2]
  {
    var q := new WorkStealingQueue<int>();
    q.Push(1);
    q.Push(2);
    q.Push(3);
    popped := q.TryPop();
    stolen := q.TrySteal();
    left := q.items;
  }

  /** The constructor's count: the default argument `-1` (`UINT_MAX` as an
      `unsigned`) asks for the hardware concurrency, or 2 when that is
      unknown, so the default never gives an empty pool; any other count is
      used as given, 0 included. */
  function PoolThreadCount(count: uint32, hw: uint32): (n: nat)
    ensures count as int == UINT_MAX ==> n >= 1 && (hw > 0 ==> n == hw as int) && (hw == 0 ==> n == 2)
    ensures count as int != UINT_MAX ==> n == count as int
  {
    if count as int == UINT_MAX then (if hw == 0 then 2 else hw as nat) else count as nat
  }

  /** The queue visited at step `i` of the steal scan of worker `my`:
      `(my + 1 + i) % n`. */
  function StealIndex(my: nat, n: nat, i: nat): (k: nat)
    requires n > 0
    ensures k < n
  {
    (my + 1 + i) % n
  }

  lemma ModOnce(a: nat, n: nat)
    requires 0 < n && a < 2 * n
    ensures a % n == if a < n then a else a - n
  {
    if a >= n {
      assert a == (a - n) + n;
      assert (a - n) % n == a - n;
    }
  }

  /** The step of the steal scan of worker `my` that visits queue `k`. */
  function StealStepOf(my: nat, n: nat, k: nat): nat
    requires my < n && k < n
  {
    if k > my then k - my - 1 else k + n - my - 1
  }

  /** The steal scan of a worker visits every queue exactly once and its
      own queue last. */
  lemma StealScanCoversAll(my: nat, n: nat)
    requires my < n
    ensures forall k :: 0 <= k < n ==> StealStepOf(my, n, k) < n && StealIndex(my, n, StealStepOf(my, n, k)) == k
    ensures forall i, j :: 0 <= i < j < n ==> StealIndex(my, n, i) != StealIndex(my, n, j)
    ensures StealIndex(my, n, n - 1) == my
  {
    forall k | 0 <= k < n
      ensures StealStepOf(my, n, k) < n && StealIndex(my, n, StealStepOf(my, n, k)) == k
    {
      ModOnce(my + 1 + StealStepOf(my, n, k), n);
    }
    forall i, j | 0 <= i < j < n
      ensures StealIndex(my, n, i) != StealIndex(my, n, j)
    {
      ModOnce(my + 1 + i, n);
      ModOnce(my + 1 + j, n);
    }
    ModOnce(my + n, n);
  }

  /** The first step of the steal scan, from step `i` on, that meets a
      non-empty queue, or `|qs|` when there is none. */
  function FirstToSteal<T>(my: nat, qs: seq<seq<T>>, i: nat): (r: nat)
    requires i <= |qs|
    ensures i <= r <= |qs|
    ensures r < |qs| ==> qs[StealIndex(my, |qs|, r)] != []
    ensures forall j :: i <= j < r ==> qs[StealIndex(my, |qs|, j)] == []
    decreases |qs| - i
  {
    if i == |qs| then i
    else if qs[StealIndex(my, |qs|, i)] != [] then i
    else FirstToSteal(my, qs, i + 1)
  }

  /** What the pool holds: the global queue and every worker's queue. */
  datatype PoolState<T> = PoolState(pool: seq<T>, queues: seq<seq<T>>)

  /** The tasks of a list of queues, as a bag. */
  function Bag<T>(qs: seq<seq<T>>): multiset<T>
  {
    if qs == [] then multiset{} else Bag(qs[..|qs| - 1]) + multiset(qs[|qs| - 1])
  }

  /** Every task the pool holds, wherever it is queued. */
  function AllTasks<T>(st: PoolState<T>): multiset<T>
  {
    multiset(st.pool) + Bag(st.queues)
  }

  /** Adding the same bag to both sides of an equation of bags. */
  lemma AddBoth<T>(a: multiset<T>, b: multiset<T>, c: multiset<T>, d: multiset<T>, e: multiset<T>)
    requires a + c == d + e
    ensures a + b + c == d + b + e
  {
    forall x
      ensures (a + b + c)[x] == (d + b + e)[x]
    {
      assert (a + c)[x] == (d + e)[x];
    }
  }
  /** Replacing one queue changes the bag by exactly that queue. */
  lemma {:induction false} BagUpdate<T>(qs: seq<seq<T>>, k: nat, v: seq<T>)
    requires k < |qs|
    ensures Bag(qs[k := v]) + multiset(qs[k]) == Bag(qs) + multiset(v)
    decreases |qs|
  {
    var last := |qs| - 1;
    var qs' := qs[k := v];
    var pre, pre' := qs[..last], qs'[..last];
    assert Bag(qs') == Bag(pre') + multiset(qs'[last]);
    assert Bag(qs) == Bag(pre) + multiset(qs[last]);
    if k == last {
      assert pre' == pre;
      AddBoth(Bag(pre), multiset(qs[k]), multiset(v), Bag(pre), multiset(v));
    } else {
      assert pre' == pre[k := v];
      assert pre[k] == qs[k];
      assert qs'[last] == qs[last];
      BagUpdate(pre, k, v);
      AddBoth(Bag(pre'), multiset(qs[last]), multiset(qs[k]), Bag(pre), multiset(v));
    }
  }

  /** A pool with no task at all has only empty queues. */
  lemma {:induction false} BagEmpty<T>(qs: seq<seq<T>>)
    ensures Bag(qs) == multiset{} <==> forall k :: 0 <= k < |qs| ==> qs[k] == []
    decreases |qs|
  {
    if qs != [] {
      BagEmpty(qs[..|qs| - 1]);
      assert forall k :: 0 <= k < |qs| - 1 ==> qs[..|qs| - 1][k] == qs[k];
    }
  }

  /** `AddTask`: into the caller's own queue when it has one, otherwise
      into the global queue. */
  function AddTaskSpec<T>(local: Option<nat>, task: T, st: PoolState<T>): PoolState<T>
    requires local.Some? ==> local.value < |st.queues|
  {
    if local.Some? then st.(queues := st.queues[local.value := st.queues[local.value] + [task]])
    else st.(pool := st.pool + [task])
  }

  /** `PopTaskFromOtherThread`: the newest task of the first non-empty
      queue in the scan order of worker `my`, or nothing. */
  function StealSpec<T>(my: nat, qs: seq<seq<T>>): (Option<T>, seq<seq<T>>)
  {
    var k := FirstToSteal(my, qs, 0);
    if k == |qs| then (None, qs)
    else
      var idx := StealIndex(my, |qs|, k);
      (Some(Last(qs[idx])), qs[idx := DropLast(qs[idx])])
  }

  /** `RunPendingTasks`: the oldest task of the caller's own queue, else the
      oldest of the global queue, else one stolen; at most one task. */
  function RunPendingSpec<T>(local: Option<nat>, st: PoolState<T>): (Option<T>, PoolState<T>)
    requires local.Some? ==> local.value < |st.queues|
  {
    if local.Some? && st.queues[local.value] != [] then
      var q := st.queues[local.value];
      (Some(q[0]), st.(queues := st.queues[local.value := q[1..]]))
    else if st.pool != [] then
      (Some(st.pool[0]), st.(pool := st.pool[1..]))
    else
      var my := if local.Some? then local.value else 0;
      var (task, qs) := StealSpec(my, st.queues);
      (task, st.(queues := qs))
  }

  /** Adding a task adds exactly that task to the pool. */
  lemma AddTaskAdds<T>(local: Option<nat>, task: T, st: PoolState<T>)
    requires local.Some? ==> local.value < |st.queues|
    ensures AllTasks(AddTaskSpec(local, task, st)) == AllTasks(st) + multiset{task}
  {
    var after := AddTaskSpec(local, task, st);
    if local.Some? {
      var q := st.queues[local.value];
      assert multiset(q + [task]) == multiset(q) + multiset{task};
      QueueConserves(after, local.value, q, task);
      assert after.(queues := after.queues[local.value := q]) == st;
    } else {
      assert multiset(st.pool + [task]) == multiset(st.pool) + multiset{task};
      forall x
        ensures AllTasks(after)[x] == (AllTasks(st) + multiset{task})[x]
      {
      }
    }
  }

  /** Taking the front task of the global queue. */
  lemma PopPoolConserves<T>(st: PoolState<T>)
    requires st.pool != []
    ensures AllTasks(st) == AllTasks(st.(pool := st.pool[1..])) + multiset{st.pool[0]}
  {
    assert st.pool == [st.pool[0]] + st.pool[1..];
    var after := st.(pool := st.pool[1..]);
    assert AllTasks(after) == multiset(st.pool[1..]) + Bag(st.queues);
    assert multiset(st.pool) == multiset(st.pool[1..]) + multiset{st.pool[0]};
    forall x
      ensures AllTasks(st)[x] == (AllTasks(after) + multiset{st.pool[0]})[x]
    {
    }
  }

  /** Replacing worker queue `k` by `q'` when `q'` plus one task is what
      the queue held. */
  lemma QueueConserves<T>(st: PoolState<T>, k: nat, q': seq<T>, task: T)
    requires k < |st.queues| && multiset(st.queues[k]) == multiset(q') + multiset{task}
    ensures AllTasks(st) == AllTasks(st.(queues := st.queues[k := q'])) + multiset{task}
  {
    BagUpdate(st.queues, k, q');
    Rebalance(multiset(st.pool), Bag(st.queues), Bag(st.queues[k := q']),
      multiset(st.queues[k]), multiset(q'), multiset{task});
  }

  /** When one part of a bag loses `t` and nothing else changes, the whole
      bag loses `t`. */
  lemma Rebalance<T>(p: multiset<T>, b: multiset<T>, b': multiset<T>, m: multiset<T>, m': multiset<T>, t: multiset<T>)
    requires b' + m == b + m' && m == m' + t
    ensures p + b == p + b' + t
  {
    forall x
      ensures (p + b)[x] == (p + b' + t)[x]
    {
      assert (b' + m)[x] == (b + m')[x];
      assert m[x] == (m' + t)[x];
    }
  }

  /** Taking the front task of worker queue `k`. */
  lemma PopQueueConserves<T>(st: PoolState<T>, k: nat)
    requires k < |st.queues| && st.queues[k] != []
    ensures var q := st.queues[k];
      AllTasks(st) == AllTasks(st.(queues := st.queues[k := q[1..]])) + multiset{q[0]}
  {
    var q := st.queues[k];
    assert q == [q[0]] + q[1..];
    QueueConserves(st, k, q[1..], q[0]);
  }

  /** Taking the back task of worker queue `k`. */
  lemma StealQueueConserves<T>(st: PoolState<T>, k: nat)
    requires k < |st.queues| && st.queues[k] != []
    ensures var q := st.queues[k];
      AllTasks(st) == AllTasks(st.(queues := st.queues[k := DropLast(q)])) + multiset{Last(q)}
  {
    var q := st.queues[k];
    assert q == DropLast(q) + [Last(q)];
    QueueConserves(st, k, DropLast(q), Last(q));
  }

  /** Running pending tasks loses and duplicates nothing: the task taken
      plus what is left is what was there. */
  lemma RunPendingConserves<T>(local: Option<nat>, st: PoolState<T>)
    requires local.Some? ==> local.value < |st.queues|
    ensures RunPendingSpec(local, st).0.None? ==> RunPendingSpec(local, st).1 == st
    ensures RunPendingSpec(local, st).0.Some? ==>
      AllTasks(st) == AllTasks(RunPendingSpec(local, st).1) + multiset{RunPendingSpec(local, st).0.value}
  {
    if local.Some? && st.queues[local.value] != [] {
      PopQueueConserves(st, local.value);
    } else if st.pool != [] {
      PopPoolConserves(st);
    } else {
      var my := if local.Some? then local.value else 0;
      var k := FirstToSteal(my, st.queues, 0);
      if k < |st.queues| {
        StealQueueConserves(st, StealIndex(my, |st.queues|, k));
      }
    }
  }

  /** A call finds nothing exactly when the whole pool is empty: a worker's
      scan reaches every queue. */
  lemma RunPendingIdle<T>(local: Option<nat>, st: PoolState<T>)
    requires local.Some? ==> local.value < |st.queues|
    ensures RunPendingSpec(local, st).0.None? <==> AllTasks(st) == multiset{}
  {
    BagEmpty(st.queues);
    var my := if local.Some? then local.value else 0;
    if st.queues != [] {
      StealScanCoversAll(my, |st.queues|);
    }
    if RunPendingSpec(local, st).0.None? {
      assert st.pool == [];
      var k := FirstToSteal(my, st.queues, 0);
      assert k == |st.queues|;
      forall q | 0 <= q < |st.queues|
        ensures st.queues[q] == []
      {
        assert st.queues[StealIndex(my, |st.queues|, StealStepOf(my, |st.queues|, q))] == [];
      }
    }
  }

  class ThreadPool<T> {
    /** `done_`, set by the destructor. */
    var done: bool
    /** `pool_work_queue_`, oldest first. */
    var pool: seq<T>
    /** `queues_`: one queue per worker. */
    const queues: seq<WorkStealingQueue<T>>
    /** The `inline static` pair `local_queue_` / `local_queue_index_`,
        which every thread reads and writes (see `AddTaskShared`). */
    var sharedLocal: Option<nat>

    ghost predicate Valid()
      reads this
    {
      && (forall i, j :: 0 <= i < j < |queues| ==> queues[i] != queues[j])
      && (sharedLocal.Some? ==> sharedLocal.value < |queues|)
    }

    /** The contents of every worker's queue. */
    function Items(): (r: seq<seq<T>>)
      reads queues
      ensures |r| == |queues|
    {
      seq(|queues|, i reads queues requires 0 <= i < |queues| => queues[i].items)
    }

    function State(): PoolState<T>
      reads this, queues
    {
      PoolState(pool, Items())
    }

    /** The constructor: `PoolThreadCount` empty worker queues, an empty
        global queue, and `done_` clear. */
    constructor (threadCount: uint32, hw: uint32)
      ensures Valid() && !done && sharedLocal == None
      ensures |queues| == PoolThreadCount(threadCount, hw)
      ensures State() == PoolState([], seq(|queues|, _ => []))
      ensures forall i :: 0 <= i < |queues| ==> fresh(queues[i])
    {
      var n := PoolThreadCount(threadCount, hw);
      var qs: seq<WorkStealingQueue<T>> := [];
      for i := 0 to n
        invariant |qs| == i
        invariant forall j :: 0 <= j < i ==> fresh(qs[j]) && qs[j].items == []
        invariant forall j, k :: 0 <= j < k < i ==> qs[j] != qs[k]
      {
        var q := new WorkStealingQueue<T>();
        qs := qs + [q];
      }
      done := false;
      pool := [];
      queues := qs;
      sharedLocal := None;
    }

    /** `AddTask` from a thread whose own queue is `local`. */
    method AddTask(local: Option<nat>, task: T)
      requires Valid() && (local.Some? ==> local.value < |queues|)
      modifies this, queues
      ensures Valid() && done == old(done) && sharedLocal == old(sharedLocal)
      ensures State() == AddTaskSpec(local, task, old(State()))
    {
      if local.Some? {
        queues[local.value].Push(task);
      } else {
        pool := pool + [task];
      }
    }

    /** `TryPop` on worker queue `k`: the other queues are untouched. */
    method PopFrom(k: nat) returns (task: Option<T>)
      requires Valid() && k < |queues|
      modifies queues[k]
      ensures var q := old(Items())[k];
        if q == [] then task == None && Items() == old(Items())
        else task == Some(q[0]) && Items() == old(Items())[k := q[1..]]
    {
      task := queues[k].TryPop();
    }

    /** `TrySteal` on worker queue `k`: the other queues are untouched. */
    method StealFrom(k: nat) returns (task: Option<T>)
      requires Valid() && k < |queues|
      modifies queues[k]
      ensures var q := old(Items())[k];
        if q == [] then task == None && Items() == old(Items())
        else task == Some(Last(q)) && Items() == old(Items())[k := DropLast(q)]
    {
      task := queues[k].TrySteal();
    }

    /** `PopTaskFromLocal`. */
    method PopTaskFromLocal(local: Option<nat>) returns (task: Option<T>)
      requires Valid() && (local.Some? ==> local.value < |queues|)
      modifies queues
      ensures local.Some? && old(Items())[local.value] != [] ==>
        task == Some(old(Items())[local.value][0]) && Items() == old(Items())[local.value := old(Items())[local.value][1..]]
      ensures !(local.Some? && old(Items())[local.value] != []) ==> task == None && Items() == old(Items())
    {
      if local.None? {
        return None;
      }
      task := PopFrom(local.value);
    }

    /** `PopTaskFromPool`: the global queue's `try_pop`. */
    method PopTaskFromPool() returns (task: Option<T>)
      modifies this
      ensures old(pool) == [] ==> task == None && pool == old(pool)
      ensures old(pool) != [] ==> task == Some(old(pool)[0]) && pool == old(pool)[1..]
      ensures done == old(done) && sharedLocal == old(sharedLocal)
    {
      if pool == [] {
        return None;
      }
      task := Some(pool[0]);
      pool := pool[1..];
    }

    /** `PopTaskFromOtherThread`: the steal scan of worker `my`. */
    method PopTaskFromOtherThread(my: nat) returns (task: Option<T>)
      requires Valid()
      modifies queues
      ensures (task, Items()) == StealSpec(my, old(Items()))
    {
      ghost var qs := Items();
      var n := |queues|;
      for i := 0 to n
        invariant Items() == qs
        invariant FirstToSteal(my, qs, i) == FirstToSteal(my, qs, 0)
      {
        var index := (my + 1 + i) % n;
        assert index == StealIndex(my, n, i);
        task := StealFrom(index);
        if task.Some? {
          return;
        }
      }
      task := None;
    }

    /** `RunPendingTasks` for a thread whose own queue is `local`: the task
        it runs, if any. */
    method RunPendingTasks(local: Option<nat>) returns (task: Option<T>)
      requires Valid() && (local.Some? ==> local.value < |queues|)
      modifies this, queues
      ensures Valid() && done == old(done) && sharedLocal == old(sharedLocal)
      ensures (task, State()) == RunPendingSpec(local, old(State()))
    {
      task := PopTaskFromLocal(local);
      if task.Some? {
        return;
      }
      task := PopTaskFromPool();
      if task.Some? {
        return;
      }
      var my := if local.Some? then local.value else 0;
      task := PopTaskFromOtherThread(my);
    }

    /** The first two lines of `ThreadTask`: worker `myIndex` records its
        queue in the shared `local_queue_` / `local_queue_index_`. */
    method StartWorker(myIndex: nat)
      requires Valid() && myIndex < |queues|
      modifies this
      ensures Valid() && sharedLocal == Some(myIndex)
      ensures done == old(done) && pool == old(pool)
    {
      sharedLocal := Some(myIndex);
    }

    /** `AddTask` as written: the route is taken from the shared
        `local_queue_`, whichever thread calls. */
    method AddTaskShared(task: T)
      requires Valid()
      modifies this, queues
      ensures Valid() && done == old(done) && sharedLocal == old(sharedLocal)
      ensures State() == AddTaskSpec(old(sharedLocal), task, old(State()))
    {
      AddTask(sharedLocal, task);
    }

    /** The destructor sets `done_`; queued tasks stay where they are. */
    method Shutdown()
      modifies this
      ensures done && pool == old(pool) && sharedLocal == old(sharedLocal)
    {
      done := true;
    }
  }

  /** Once two workers have started, a task added by a thread that owns no
      queue lands in the last-started worker's queue instead of the global
      queue. */
  method SharedLocalQueueExample() returns (asWritten: PoolState<int>)
    ensures asWritten == PoolState([], [[], [7]])
  {
    var p := new ThreadPool<int>(2, 8);
    p.StartWorker(0);
    p.StartWorker(1);
    ghost var before: seq<seq<int>> := [[], []];
    assert p.State() == PoolState([], before) && p.sharedLocal == Some(1);
    p.AddTaskShared(7);
    assert p.State() == AddTaskSpec(Some(1), 7, PoolState([], before));
    assert before[1] + [7] == [7];
    assert before[1 := [7]] == [[], [7]];
    asWritten := p.State();
  }

  /** A task added by a thread that owns no queue goes to the global queue
      when the route is the caller's own. */
  method OwnLocalQueueExample() returns (intended: PoolState<int>)
    ensures intended == PoolState([7], [[], []])
  {
    var q := new ThreadPool<int>(2, 8);
    assert q.State() == PoolState([], [[], []]);
    q.AddTask(None, 7);
    intended := q.State();
  }
}
