/** `HierarchicalMutex`: a mutex with a fixed level. A thread may only lock
    a mutex whose level is strictly below the level of the last mutex it
    locked, and must unlock in the reverse order. The thread-local current
    level is an object passed to each call; the inner `std::mutex` is a
    `locked` flag, and a `lock` that would wait for another thread is
    modelled from the moment the mutex is free. */
module HierarchicalMutexModel {
  import opened Base

  /** What one call reads and writes: the calling thread's current level,
      the mutex's saved previous level and whether the inner mutex is held. */
  datatype Levels = Levels(thread: uint64, previous: uint64, locked: bool)

  /** `lock`: a violation when the thread is not strictly above `level`,
      otherwise the thread's level is saved and replaced by `level`. */
  function LockStep(level: uint64, s: Levels): (r: Result<Levels>)
    ensures r.Err? <==> s.thread <= level
    ensures r.Err? ==> r.error == LogicError
    ensures r.Ok? ==> r.value.thread == level && r.value.previous == s.thread && r.value.locked
  {
    if s.thread <= level then Err(LogicError)
    else Ok(Levels(level, s.thread, true))
  }

  /** `unlock`: a violation unless `level` is the thread's current level,
      otherwise the saved level becomes the thread's level again. */
  function UnlockStep(level: uint64, s: Levels): (r: Result<Levels>)
    ensures r.Err? <==> s.thread != level
    ensures r.Ok? ==> r.value.thread == s.previous && !r.value.locked
  {
    if s.thread != level then Err(LogicError)
    else Ok(Levels(s.previous, s.previous, false))
  }

  /** `try_lock`: the same violation check as `lock`; `false` with nothing
      changed when the inner mutex is held, otherwise the effect of `lock`. */
  function TryLockStep(level: uint64, s: Levels): (r: Result<(bool, Levels)>)
    ensures r.Err? <==> LockStep(level, s).Err?
    ensures r.Ok? && !r.value.0 ==> s.locked && r.value.1 == s
    ensures r.Ok? && r.value.0 ==> !s.locked && r.value.1 == LockStep(level, s).value
  {
    if s.thread <= level then Err(LogicError)
    else if s.locked then Ok((false, s))
    else Ok((true, Levels(level, s.thread, true)))
  }

  /** Locking and then unlocking the same mutex gives the thread back the
      level it had before. */
  lemma LockUnlockRestores(level: uint64, s: Levels)
    requires LockStep(level, s).Ok?
    ensures UnlockStep(level, LockStep(level, s).value).Ok?
    ensures UnlockStep(level, LockStep(level, s).value).value.thread == s.thread
  {
  }

  /** Two nested locks: the inner one must be released first, releasing the
      outer one first is a violation, and releasing both in reverse order
      restores the thread's level. */
  lemma NestedUnlockOrder(t: uint64, outer: uint64, inner: uint64, po: uint64, pi: uint64)
    requires outer < t && inner < outer
    ensures var so := LockStep(outer, Levels(t, po, false)).value;
            var si := LockStep(inner, Levels(so.thread, pi, false)).value;
            && UnlockStep(outer, Levels(si.thread, so.previous, true)).Err?
            && var ui := UnlockStep(inner, si).value;
               UnlockStep(outer, Levels(ui.thread, so.previous, true)).Ok?
               && UnlockStep(outer, Levels(ui.thread, so.previous, true)).value.thread == t
  {
  }

  /** The thread's level after locking fresh mutexes of the given levels in
      order, or nothing when one of the locks throws. */
  function LockAll(t: uint64, levels: seq<uint64>): Option<uint64>
    decreases |levels|
  {
    if levels == [] then Some(t)
    else
      var r := LockStep(levels[0], Levels(t, 0, false));
      if r.Err? then None else LockAll(r.value.thread, levels[1..])
  }

  /** `levels` descend strictly, starting below `t`. */
  predicate StrictlyBelow(t: uint64, levels: seq<uint64>)
  {
    && (|levels| > 0 ==> levels[0] < t)
    && (forall i :: 0 < i < |levels| ==> levels[i] < levels[i - 1])
  }

  /** A run of locks succeeds exactly when the levels strictly decrease from
      the thread's level, and leaves the thread at the last level locked. */
  lemma {:induction false} LockAllSucceeds(t: uint64, levels: seq<uint64>)
    ensures LockAll(t, levels).Some? <==> StrictlyBelow(t, levels)
    ensures LockAll(t, levels).Some? ==> LockAll(t, levels).value == if levels == [] then t else levels[|levels| - 1]
    decreases |levels|
  {
    if levels != [] && levels[0] < t {
      LockAllSucceeds(levels[0], levels[1..]);
      assert StrictlyBelow(levels[0], levels[1..]) <==> StrictlyBelow(t, levels) by {
        if StrictlyBelow(levels[0], levels[1..]) {
          forall i | 0 < i < |levels|
            ensures levels[i] < levels[i - 1]
          {
            assert levels[1..][i - 1] == levels[i];
            if i > 1 {
              assert levels[1..][i - 2] == levels[i - 1];
            }
          }
        }
        if StrictlyBelow(t, levels) {
          forall i | 0 < i < |levels[1..]|
            ensures levels[1..][i] < levels[1..][i - 1]
          {
            assert levels[1..][i] == levels[i + 1];
          }
        }
      }
    }
  }

  /** A thread starts at `ULONG_MAX`, so a mutex of level `ULONG_MAX` can
      never be locked, by `lock` or by `try_lock`, whatever the state. */
  lemma MaxLevelNeverLocks(s: Levels)
    requires s.thread as int == ULONG_MAX
    ensures forall level: uint64 :: LockStep(level, s).Err? <==> level as int == ULONG_MAX
    ensures forall p: uint64, l: bool :: TryLockStep(ULONG_MAX as uint64, Levels(s.thread, p, l)).Err?
  {
  }

  /** The level of the calling thread (`this_thread_hierarchy_value_`). */
  class ThreadState {
    var level: uint64

    /** A thread starts at `ULONG_MAX`. */
    constructor ()
      ensures level as int == ULONG_MAX
    {
      level := ULONG_MAX as uint64;
    }
  }

  class HierarchicalMutex {
    /** `hierarchy_value_`. */
    const level: uint64
    /** `previous_hierarchy_value_`. */
    var previous: uint64
    /** Whether the inner `std::mutex` is held. */
    var locked: bool

    /** A new mutex has the given level, a saved level of 0 and is free. */
    constructor (value: uint64)
      ensures level == value && previous == 0 && !locked
    {
      level := value;
      previous := 0;
      locked := false;
    }

    /** `check_for_hierarchy_violation`. */
    method CheckForHierarchyViolation(t: ThreadState) returns (r: Option<Error>)
      ensures r.Some? <==> t.level <= level
      ensures r.Some? ==> r.value == LogicError
    {
      if t.level <= level {
        return Some(LogicError);
      }
      return None;
    }

    /** `update_hierarchy_value`. */
    method UpdateHierarchyValue(t: ThreadState)
      modifies this, t
      ensures previous == old(t.level) && t.level == level && locked == old(locked)
    {
      previous := t.level;
      t.level := level;
    }

    /** `lock`. */
    method Lock(t: ThreadState) returns (r: Result<()>)
      modifies this, t
      ensures var out := LockStep(level, old(Levels(t.level, previous, locked)));
        && (out.Err? ==> r == Err(out.error) && t.level == old(t.level)
                         && previous == old(previous) && locked == old(locked))
        && (out.Ok? ==> r == Ok(()) && Levels(t.level, previous, locked) == out.value)
    {
      var violation := CheckForHierarchyViolation(t);
      if violation.Some? {
        return Err(violation.value);
      }
      locked := true;
      UpdateHierarchyValue(t);
      r := Ok(());
    }

    /** `unlock`. */
    method Unlock(t: ThreadState) returns (r: Result<()>)
      modifies this, t
      ensures var out := UnlockStep(level, old(Levels(t.level, previous, locked)));
        && (out.Err? ==> r == Err(out.error) && t.level == old(t.level)
                         && previous == old(previous) && locked == old(locked))
        && (out.Ok? ==> r == Ok(()) && Levels(t.level, previous, locked) == out.value)
    {
      if t.level != level {
        return Err(LogicError);
      }
      t.level := previous;
      locked := false;
      r := Ok(());
    }

    /** `try_lock`. */
    method TryLock(t: ThreadState) returns (r: Result<bool>)
      modifies this, t
      ensures var out := TryLockStep(level, old(Levels(t.level, previous, locked)));
        && (out.Err? ==> r == Err(out.error) && t.level == old(t.level)
                         && previous == old(previous) && locked == old(locked))
        && (out.Ok? ==> r == Ok(out.value.0) && Levels(t.level, previous, locked) == out.value.1)
    {
      var violation := CheckForHierarchyViolation(t);
      if violation.Some? {
        return Err(violation.value);
      }
      if locked {
        return Ok(false);
      }
      locked := true;
      UpdateHierarchyValue(t);
      r := Ok(true);
    }
  }

  /** A thread locks a mutex of level 10000, then one of level 5000; taking
      one of level 10000 again is refused, unlocking the outer one first is
      refused, and unlocking in reverse order brings the thread back to
      `ULONG_MAX`. */
  method HierarchyExample() returns (relock: Result<()>, early: Result<()>, restored: bool)
    ensures relock == Err(LogicError) && early == Err(LogicError) && restored
  {
    var t := new ThreadState();
    var high := new HierarchicalMutex(10000);
    var low := new HierarchicalMutex(5000);
    var other := new HierarchicalMutex(10000);
    var _ := high.Lock(t);
    var _ := low.Lock(t);
    relock := other.Lock(t);
    early := high.Unlock(t);
    var _ := low.Unlock(t);
    var _ := high.Unlock(t);
    restored := t.level as int == ULONG_MAX;
  }
}
