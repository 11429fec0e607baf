/** Shared value types: the unsigned byte that a NumPy uint8 array holds, and the
    Option and Result wrappers that stand for Python's None and its exceptions. */
module Bytes {

  /** One element of a NumPy uint8 array. */
  newtype byte = x: int | 0 <= x < 256

  /** A value, or Python's None. */
  datatype Option<T> = None | Some(value: T)

  /** A value, or the exception the Python code raises instead of returning one. */
  datatype Result<T, E> = Ok(value: T) | Err(error: E)

  /** dict.get: the value stored under k, or None when k is not a key. */
  function Get<K, V>(m: map<K, V>, k: K): (r: Option<V>)
    ensures r.Some? <==> k in m
    ensures r.Some? ==> r.value == m[k]
  {
    if k in m then Some(m[k]) else None
  }

  function Min(a: int, b: int): int { if a <= b then a else b }

  function Max(a: int, b: int): int { if a <= b then b else a }
}
