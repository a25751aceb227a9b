/** The simple `ThreadPool`: one FIFO task list guarded by one mutex, a
    `stop_` flag, and workers that take the oldest task until the pool is
    stopped and the list is empty. Tasks are opaque values of type `T`;
    running them, the futures tied to them and the condition variable are
    not modelled, and a worker's wait is the `Wait` outcome of one step. */
module SimpleThreadPoolModel {
  import opened Base

  /** The number of workers the constructor starts. The default `-1`
      (`UINT_MAX` as an `unsigned`) asks for the hardware concurrency;
      otherwise the count is capped at `2 * hw` (computed in `unsigned`)
      when the hardware concurrency is known; a result of 0 becomes 1. */
  function WorkerCount(num: uint32, hw: uint32): (n: uint32)
    ensures n >= 1
    ensures num as int == UINT_MAX && hw > 0 ==> n == hw
    ensures num as int != UINT_MAX && hw == 0 ==> n == if num == 0 then 1 else num
  {
    var chosen :=
      if num as int == UINT_MAX then hw
      else if hw != 0 && num > ToUint32(hw as int * 2) then ToUint32(hw as int * 2)
      else num;
    if chosen == 0 then 1 else chosen
  }

  /** For any machine with fewer than 2^31 hardware threads, an explicit
      count is kept when it is between 1 and `2 * hw`, and otherwise
      brought into that range. */
  lemma WorkerCountClamp(num: uint32, hw: uint32)
    requires num as int != UINT_MAX && 0 < hw as int <= UINT_MAX / 2
    ensures 1 <= WorkerCount(num, hw) as int <= 2 * hw as int
    ensures 1 <= num as int <= 2 * hw as int ==> WorkerCount(num, hw) == num
    ensures num as int > 2 * hw as int ==> WorkerCount(num, hw) as int == 2 * hw as int
  {
    assert ToUint32(hw as int * 2) as int == 2 * hw as int;
  }

  /** With more than 2^31 hardware threads the doubled cap wraps around in
      `unsigned` arithmetic and falls below the hardware concurrency. */
  lemma WorkerCountWraps()
    ensures WorkerCount(0xFFFF_FFFE, 0x8000_0001) == 2
  {
    assert ToUint32(0x8000_0001 * 2) == 2;
  }

  /** What one worker does after it wakes. */
  datatype WorkerAction<T> = Wait | Exit | Run(task: T)

  class ThreadPool<T> {
    /** `task_list_`, oldest first. */
    var tasks: seq<T>
    /** `stop_`. */
    var stopped: bool
    /** The number of workers started. */
    const workers: uint32

    /** The constructor: `WorkerCount` workers, no task, not stopped. */
    constructor (num: uint32, hw: uint32)
      ensures tasks == [] && !stopped
      ensures workers == WorkerCount(num, hw)
    {
      tasks := [];
      stopped := false;
      workers := WorkerCount(num, hw);
    }

    /** `addTask`: a `logic_error` with nothing queued once the pool is
        stopped; otherwise the task joins the back of the list. */
    method AddTask(task: T) returns (r: Result<()>)
      modifies this
      ensures old(stopped) ==> r == Err(LogicError) && tasks == old(tasks)
      ensures !old(stopped) ==> r == Ok(()) && tasks == old(tasks) + [task]
      ensures stopped == old(stopped)
    {
      if stopped {
        return Err(LogicError);
      }
      tasks := tasks + [task];
      r := Ok(());
    }

    /** One turn of a worker's loop: wait while the list is empty and the
        pool runs; leave once it is stopped and empty; otherwise take the
        oldest task. */
    method WorkerStep() returns (a: WorkerAction<T>)
      modifies this
      ensures old(tasks) == [] && !old(stopped) ==> a == Wait && tasks == old(tasks)
      ensures old(tasks) == [] && old(stopped) ==> a == Exit && tasks == old(tasks)
      ensures old(tasks) != [] ==> a == Run(old(tasks)[0]) && tasks == old(tasks)[1..]
      ensures stopped == old(stopped)
    {
      if tasks == [] && !stopped {
        return Wait;
      }
      if tasks == [] && stopped {
        return Exit;
      }
      a := Run(tasks[0]);
      tasks := tasks[1..];
    }

    /** `stop`: no more tasks are accepted; those queued stay. */
    method Stop()
      modifies this
      ensures stopped && tasks == old(tasks)
    {
      stopped := true;
    }

    /** `abort`: the queued tasks are dropped and no more are accepted. */
    method Abort()
      modifies this
      ensures stopped && tasks == []
    {
      tasks := [];
      stopped := true;
    }

    /** The destructor: `stop`, then workers run until they leave. Every task
        queued before is run, oldest first, and the list ends empty. */
    method Shutdown() returns (ran: seq<T>)
      modifies this
      ensures ran == old(tasks) && tasks == [] && stopped
    {
      Stop();
      ran := [];
      while true
        invariant stopped && ran + tasks == old(tasks)
        decreases |tasks|
      {
        ghost var queued := tasks;
        var a := WorkerStep();
        if a.Exit? {
          return;
        }
        assert queued == [a.task] + tasks;
        ran := ran + [a.task];
      }
    }
  }

  /** Two tasks queued on a running pool are both run, in order, when the
      pool is destroyed; after `abort` nothing is run and adding fails. */
  method ShutdownExample() returns (ran: seq<int>, dropped: seq<int>, late: Result<()>)
    ensures ran == [1, 2] && dropped == [] && late == Err(LogicError)
  {
    var p := new ThreadPool<int>(0xFFFF_FFFF, 4);
    var _ := p.AddTask(1);
    var _ := p.AddTask(2);
    ran := p.Shutdown();
    var q := new ThreadPool<int>(3, 4);
    var _ := q.AddTask(1);
    q.Abort();
    dropped := q.Shutdown();
    late := q.AddTask(3);
  }
}
