/** Shared machine types and the failure-compatible result types used by the
    codec and the TTL job manager models. */
module Common {

  /** An unsigned 8-bit value, as Go's `byte`. */
  type byte = x: int | 0 <= x < 256

  const TwoTo63: int := 0x8000_0000_0000_0000
  const TwoTo64: int := 0x1_0000_0000_0000_0000

  /** Go's `uint64`. */
  type u64 = x: int | 0 <= x < TwoTo64

  /** Go's `int64` (and `int` on the 64-bit platforms the system targets). */
  type i64 = x: int | -TwoTo63 <= x < TwoTo63

  /** Two's-complement wrap-around of an integer result into `int64`. */
  function WrapInt64(x: int): (r: i64)
    ensures (r - x) % TwoTo64 == 0
    ensures -TwoTo63 <= x < TwoTo63 ==> r == x
  {
    var m := (x + TwoTo63) % TwoTo64;
    m - TwoTo63
  }

  /** Go's `int` addition of two 64-bit values, which wraps around on overflow. */
  function AddInt(a: i64, b: i64): (r: i64)
    ensures -TwoTo63 <= a + b < TwoTo63 ==> r == a + b
    ensures a + b >= TwoTo63 ==> r == a + b - TwoTo64
    ensures a + b < -TwoTo63 ==> r == a + b + TwoTo64
  {
    if a + b >= TwoTo63 then a + b - TwoTo64
    else if a + b < -TwoTo63 then a + b + TwoTo64
    else a + b
  }

  /** Wrap-around of an unsigned addition into `uint64`. */
  function AddU64(a: u64, b: u64): (r: u64)
    ensures a + b < TwoTo64 ==> r == a + b
    ensures a + b >= TwoTo64 ==> r == a + b - TwoTo64
  {
    (a + b) % TwoTo64
  }

  datatype Option<+T> = None | Some(value: T)

  datatype Result<+T, +E> = Ok(value: T) | Err(error: E) {
    predicate IsFailure() {
      Err?
    }

    function PropagateFailure<U>(): Result<U, E>
      requires Err?
    {
      Err(error)
    }

    function Extract(): T
      requires Ok?
    {
      value
    }
  }
}
