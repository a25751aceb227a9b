/** `ThreadsafeStack`: a LIFO stack guarded by one mutex. The wrapped
    `std::stack` is the sequence `data`, top last; the mutex is not
    modelled. */
module ThreadsafeStackModel {
  import opened Base

  class ThreadsafeStack<T> {
    /** The stacked values, bottom first; the top is the last element. */
    var data: seq<T>

    /** The default constructor: an empty stack. */
    constructor ()
      ensures data == []
    {
      data := [];
    }

    /** The copy constructor: a new stack with the same contents as
        `other`, which is left as it was. */
    constructor Copy(other: ThreadsafeStack<T>)
      ensures data == other.data
    {
      data := other.data;
    }

    /** `Push`: the value becomes the new top. */
    method Push(newValue: T)
      modifies this
      ensures data == old(data) + [newValue]
      ensures |data| == |old(data)| + 1
    {
      data := data + [newValue];
    }

    /** `Pop()`: nothing, with the stack unchanged, when it is empty;
        otherwise the top value, which leaves the stack. */
    method Pop() returns (r: Option<T>)
      modifies this
      ensures old(data) == [] ==> r == None && data == old(data)
      ensures old(data) != [] ==> r == Some(old(data)[|old(data)| - 1]) && data == old(data)[..|old(data)| - 1]
    {
      if data == [] {
        return None;
      }
      var tmp := data[|data| - 1];
      data := data[..|data| - 1];
      r := Some(tmp);
    }

    /** `Pop(T&)` as written: false with nothing changed when the stack is
        empty; otherwise the top leaves the stack and the result is true,
        but the out-parameter is assigned from itself, so the caller's
        `value` comes back as it went in and the popped value is lost. */
    method PopInto(value: T) returns (ok: bool, value': T)
      modifies this
      ensures ok <==> old(data) != []
      ensures value' == value
      ensures ok ==> data == old(data)[..|old(data)| - 1]
      ensures !ok ==> data == old(data)
    {
      if data == [] {
        return false, value;
      }
      var tmp := data[|data| - 1];
      data := data[..|data| - 1];
      value' := value;
      ok := true;
    }

    /** `Pop(T&)` as evidently intended: the popped top is moved into the
        out-parameter. */
    method PopIntoCorrected(value: T) returns (ok: bool, value': T)
      modifies this
      ensures ok <==> old(data) != []
      ensures ok ==> value' == old(data)[|old(data)| - 1] && data == old(data)[..|old(data)| - 1]
      ensures !ok ==> value' == value && data == old(data)
    {
      if data == [] {
        return false, value;
      }
      var tmp := data[|data| - 1];
      data := data[..|data| - 1];
      value' := tmp;
      ok := true;
    }

    /** `Size`: the number of stacked values. */
    method Size() returns (n: nat)
      ensures n == |data|
    {
      n := |data|;
    }
  }

  /** The lost value: push 7, then `Pop(value)` with `value == 0` reports
      success yet leaves `value` at 0, while the corrected pop delivers 7. */
  method PopIntoLosesValue() returns (ok: bool, value: int, okFixed: bool, valueFixed: int)
    ensures ok && value == 0
    ensures okFixed && valueFixed == 7
  {
    var s := new ThreadsafeStack<int>();
    s.Push(7);
    ok, value := s.PopInto(0);
    var t := new ThreadsafeStack<int>();
    t.Push(7);
    okFixed, valueFixed := t.PopIntoCorrected(0);
  }

  /** Last in, first out: pushing 1, 2, 3 and popping four times gives 3, 2,
      1, then nothing; a copy taken before the pops still holds all three
      and counts three. */
  method LifoExample() returns (popped: seq<Option<int>>, copySize: nat)
    ensures popped == [Some(3), Some(2), Some(1), None]
    ensures copySize == 3
  {
    var s := new ThreadsafeStack<int>();
    s.Push(1);
    s.Push(2);
    s.Push(3);
    var c := new ThreadsafeStack.Copy(s);
    var a := s.Pop();
    var b := s.Pop();
    var d := s.Pop();
    var e := s.Pop();
    popped := [a, b, d, e];
    copySize := c.Size();
  }
}
