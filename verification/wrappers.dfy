/** Option and Result values used across the model.
    `None` stands for JavaScript's `undefined`/`false` returns and for
    an option the caller did not pass. */
module Wrappers {

  datatype Option<+T> = None | Some(value: T)

  datatype Result<+T, +E> = Success(value: T) | Failure(error: E)

  /** The value looked up under `k`, or `None` when `k` is absent. */
  function Lookup<K, V>(m: map<K, V>, k: K): Option<V>
  {
    if k in m then Some(m[k]) else None
  }
}
