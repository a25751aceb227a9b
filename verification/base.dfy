/** Small shared vocabulary: optional values, errors raised by the C++
    code, and the fixed-width unsigned integers it computes with. */
module Base {

  /** A value or nothing: a null `std::shared_ptr`, a `bool` result paired
      with an out-parameter, or an unset field. */
  datatype Option<T> = None | Some(value: T)

  /** The exceptions the modelled code throws. */
  datatype Error = LogicError | RuntimeError

  /** A value or the exception thrown instead of producing it. */
  datatype Result<T> = Ok(value: T) | Err(error: Error)

  const UINT_MAX: int := 0xFFFF_FFFF
  const ULONG_MAX: int := 0xFFFF_FFFF_FFFF_FFFF

  /** C++ `unsigned` (32 bits). */
  newtype uint32 = x: int | 0 <= x <= UINT_MAX

  /** C++ `unsigned long` on an LP64 platform (64 bits). */
  newtype uint64 = x: int | 0 <= x <= ULONG_MAX

  /** Conversion of an arbitrary integer to `unsigned`, as C++ does it: modulo 2^32. */
  function ToUint32(x: int): (r: uint32)
    ensures r as int == x % (UINT_MAX + 1)
  {
    (x % (UINT_MAX + 1)) as uint32
  }

  /** Reduction modulo 2^32 of a value already in range, of one at most
      one period above, and of one at most one period below. */
  lemma WrapSmall(x: int)
    requires 0 <= x <= UINT_MAX
    ensures x % (UINT_MAX + 1) == x
  {
  }

  lemma WrapAbove(x: int)
    requires UINT_MAX + 1 <= x <= 2 * UINT_MAX + 1
    ensures x % (UINT_MAX + 1) == x - (UINT_MAX + 1)
  {
  }

  lemma WrapBelow(x: int)
    requires -UINT_MAX - 1 <= x < 0
    ensures x % (UINT_MAX + 1) == x + (UINT_MAX + 1)
  {
  }
}
