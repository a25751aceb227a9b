/** Parallel `Find` and `FindRecursive`: a search for the first element equal
    to a value, split into blocks (or halves) that share a `done` flag. The
    range is a read-only sequence and an iterator is an index into it; the
    blocks are run one after another in the order the source starts them,
    and a halving step runs its lower half first and its upper half only
    when its result is asked for, as a deferred `std::async` does. */
module FindModel {
  import opened Base
  import opened Blocks

  /** The reference search: the first index of `[lo, hi)` holding `val`, or
      `hi` when there is none, as `std::find` answers. */
  function FirstMatch<T(==)>(s: seq<T>, val: T, lo: nat, hi: nat): (r: nat)
    requires lo <= hi <= |s|
    ensures lo <= r <= hi
    ensures r < hi ==> s[r] == val
    ensures forall j :: lo <= j < r ==> s[j] != val
    decreases hi - lo
  {
    if lo == hi then hi
    else if s[lo] == val then lo
    else FirstMatch(s, val, lo + 1, hi)
  }

  /** The three facts of `FirstMatch`'s contract pin down its result. */
  lemma FirstMatchUnique<T>(s: seq<T>, val: T, lo: nat, hi: nat, r: nat)
    requires lo <= r <= hi <= |s|
    requires r < hi ==> s[r] == val
    requires forall j :: lo <= j < r ==> s[j] != val
    ensures r == FirstMatch(s, val, lo, hi)
  {
    var k := FirstMatch(s, val, lo, hi);
  }

  /** Searching `[lo, hi)` is searching `[lo, mid)` and, only when that
      finds nothing, `[mid, hi)`: the rule `FindRecursiveCore` applies at
      its split and `Find` applies from block to block. */
  lemma {:induction false} FirstMatchSplit<T>(s: seq<T>, val: T, lo: nat, mid: nat, hi: nat)
    requires lo <= mid <= hi <= |s|
    ensures var lower := FirstMatch(s, val, lo, mid);
      FirstMatch(s, val, lo, hi) == if lower < mid then lower else FirstMatch(s, val, mid, hi)
  {
    var lower := FirstMatch(s, val, lo, mid);
    if lower < mid {
      FirstMatchUnique(s, val, lo, hi, lower);
    } else {
      FirstMatchUnique(s, val, lo, hi, FirstMatch(s, val, mid, hi));
    }
  }

  /** The `std::atomic<bool>` that tells every searcher to stop. */
  class DoneFlag {
    var done: bool

    constructor ()
      ensures !done
    {
      done := false;
    }
  }

  /** The `std::promise<Iterator>` the finders report to: it holds at most
      one index. */
  class Promise {
    var value: Option<nat>

    constructor ()
      ensures value == None
    {
      value := None;
    }

    /** `set_value`: a `future_error` (a `logic_error`) when a value is
        already there, which is then kept. */
    method SetValue(v: nat) returns (r: Result<()>)
      modifies this
      ensures old(value).Some? ==> r == Err(LogicError) && value == old(value)
      ensures old(value).None? ==> r == Ok(()) && value == Some(v)
    {
      if value.Some? {
        return Err(LogicError);
      }
      value := Some(v);
      r := Ok(());
    }
  }

  /** `Finder`: scans `[begin, end)` until it meets `val` or sees the flag
      set. On a match it stores the index and sets the flag; when the
      promise is already satisfied both throws are swallowed and nothing
      changes. */
  method Finder<T(==)>(s: seq<T>, begin: nat, end: nat, val: T, result: Promise, flag: DoneFlag)
    requires begin <= end <= |s|
    modifies result, flag
    ensures old(flag.done) ==> flag.done && result.value == old(result.value)
    ensures !old(flag.done) ==>
      var k := FirstMatch(s, val, begin, end);
      if k == end || old(result.value).Some? then
        !flag.done && result.value == old(result.value)
      else
        flag.done && result.value == Some(k)
  {
    var i := begin;
    while i != end && !flag.done
      invariant begin <= i <= end
      invariant forall j :: begin <= j < i ==> s[j] != val
      invariant flag.done == old(flag.done) && result.value == old(result.value)
      decreases end - i
    {
      if s[i] == val {
        FirstMatchUnique(s, val, begin, end, i);
        var stored := result.SetValue(i);
        if stored.Ok? {
          flag.done := true;
        }
        return;
      }
      i := i + 1;
    }
    if i == end {
      FirstMatchUnique(s, val, begin, end, end);
    }
  }

  /** `Find`: an empty range gives `last`; otherwise `NumThreads` blocks
      are searched, and `last` is returned unless a finder set the flag, in
      which case the promised index is. The blocks run in order, so the
      first match of the whole range is found. */
  method Find<T(==)>(s: seq<T>, val: T, hw: nat) returns (r: nat)
    ensures r == FirstMatch(s, val, 0, |s|)
    ensures r < |s| ==> s[r] == val
  {
    var length := |s|;
    if length == 0 {
      return length;
    }
    var numThreads := NumThreads(length, hw);
    var blockSize := BlockSize(length, numThreads);
    var res := new Promise();
    var flag := new DoneFlag();
    var blockStart := 0;
    for i := 0 to numThreads - 1
      invariant blockStart == BlockStart(i, blockSize) <= length
      invariant !flag.done ==> res.value == None && FirstMatch(s, val, 0, blockStart) == blockStart
      invariant flag.done ==> res.value == Some(FirstMatch(s, val, 0, length))
    {
      BlockStep(length, numThreads, i);
      var blockEnd := blockStart + blockSize;
      FirstMatchSplit(s, val, 0, blockStart, blockEnd);
      FirstMatchSplit(s, val, 0, blockEnd, length);
      Finder(s, blockStart, blockEnd, val, res, flag);
      blockStart := blockEnd;
    }
    BlockStep(length, numThreads, numThreads - 1);
    FirstMatchSplit(s, val, 0, blockStart, length);
    Finder(s, blockStart, length, val, res, flag);
    if !flag.done {
      return length;
    }
    r := res.value.value;
  }

  /** `FindRecursiveCore`: a range of fewer than 50 elements is scanned
      while the flag is clear; a longer one is split at `length / 2`, and
      the upper half's result is used only when the lower half reports its
      own end. A match always holds `val`; with the flag clear on entry the
      result is the first match and the flag ends up set exactly when one
      was found; with the flag already set nothing is found. */
  method FindRecursiveCore<T(==)>(s: seq<T>, begin: nat, end: nat, val: T, flag: DoneFlag) returns (r: nat)
    requires begin <= end <= |s|
    modifies flag
    ensures begin <= r <= end
    ensures r < end ==> s[r] == val
    ensures !old(flag.done) ==> r == FirstMatch(s, val, begin, end) && (flag.done <==> r < end)
    ensures old(flag.done) ==> r == end && flag.done
    decreases end - begin
  {
    var length := end - begin;
    if length == 0 {
      return end;
    }
    if length < 2 * MinPerThread {
      var i := begin;
      while i != end && !flag.done
        invariant begin <= i <= end
        invariant forall j :: begin <= j < i ==> s[j] != val
        invariant flag.done == old(flag.done)
        decreases end - i
      {
        if s[i] == val {
          FirstMatchUnique(s, val, begin, end, i);
          flag.done := true;
          return i;
        }
        i := i + 1;
      }
      if i == end {
        FirstMatchUnique(s, val, begin, end, end);
      }
      return end;
    }
    var midPoint := begin + length / 2;
    FirstMatchSplit(s, val, begin, midPoint, end);
    var directRes := FindRecursiveCore(s, begin, midPoint, val, flag);
    if directRes == midPoint {
      r := FindRecursiveCore(s, midPoint, end, val, flag);
    } else {
      r := directRes;
    }
  }

  /** `FindRecursive`: the halving search from a clear flag finds the first
      match, or `last`. */
  method FindRecursive<T(==)>(s: seq<T>, val: T) returns (r: nat)
    ensures r == FirstMatch(s, val, 0, |s|)
    ensures r < |s| ==> s[r] == val
  {
    var done := new DoneFlag();
    r := FindRecursiveCore(s, 0, |s|, val, done);
  }

  /** The cases test_find.cpp checks: the earliest of two 2s in
      [1, 2, 3, 2, 1], a miss in [1, 2, 3], a hit at the back of [7, 8, 9],
      and the empty range. */
  method FindExample() returns (dup: nat, miss: nat, back: nat, empty: nat, rec: nat)
    ensures dup == 1 && miss == 3 && back == 2 && empty == 0 && rec == 1
  {
    dup := Find([1, 2, 3, 2, 1], 2, 8);
    miss := Find([1, 2, 3], 5, 8);
    back := Find([7, 8, 9], 9, 0);
    empty := Find([], 1, 4);
    rec := FindRecursive([1, 2, 3, 2, 1], 2);
  }
}
