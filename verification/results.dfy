/** Failure-carrying values used where the source raises an exception or
    would never return. */
module Results {

  datatype Option<+T> = None | Some(value: T)

  datatype Result<+T, +E> = Success(value: T) | Failure(error: E)

  /** Non-negative part of an integer: the length Python gives `range(n)`
      or a `while len(xs) < n` loop when `n` may be negative. */
  function Max0(n: int): (m: nat)
    ensures n >= 0 ==> m == n
    ensures n < 0 ==> m == 0
  {
    if n < 0 then 0 else n
  }

  function Min(a: int, b: int): (m: int)
    ensures m <= a && m <= b
    ensures m == a || m == b
  {
    if a <= b then a else b
  }
}
