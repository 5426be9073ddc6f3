/** Failure-carrying results for the library's `throw` paths. */
module Wrappers {

  datatype Option<+T> = None | Some(value: T) {
    predicate IsFailure() {
      None?
    }

    function PropagateFailure<U>(): Option<U>
      requires None?
    {
      None
    }

    function Extract(): T
      requires Some?
    {
      value
    }
  }

  /** `Ok` is a normal return; `Err` is an exception leaving the call. */
  datatype Result<+T, +E> = Ok(value: T) | Err(error: E) {
    predicate IsFailure() {
      Err?
    }

    function PropagateFailure<U>(): Result<U, E>
      requires Err?
    {
      Err(error)
    }

    function Extract(): T
      requires Ok?
    {
      value
    }
  }

  /** Unsigned 32-bit range, for the source's `uint32_t` and `unsigned int`. */
  const UINT32_MAX: nat := 0xFFFF_FFFF

  /** A `static_cast<uint32_t>` of a non-negative value: keep the low 32 bits. */
  function ToUint32(n: nat): (r: nat)
    ensures r <= UINT32_MAX
    ensures n <= UINT32_MAX ==> r == n
  {
    n % (UINT32_MAX + 1)
  }
}
