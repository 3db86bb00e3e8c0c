/** Stand-ins for the persistent collection and control types the aggregate uses:
    an optional value, a two-variant Either, and a map lookup that returns an Option. */
module Wrappers {

  /** An optional value; what a persistent map lookup returns. */
  datatype Option<+T> = None | Some(value: T)

  /** Either a failure on the left or a success on the right. */
  datatype Either<+L, +R> = Left(left: L) | Right(right: R)

  /** Looks `k` up in `m`: `Some` of the stored value when the key is present, `None` otherwise. */
  function Get<K, V>(m: map<K, V>, k: K): (r: Option<V>)
    ensures r.Some? <==> k in m
    ensures r.Some? ==> r.value == m[k]
  {
    if k in m then Some(m[k]) else None
  }
}
