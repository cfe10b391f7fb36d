/** `util.Counter`: a dictionary whose absent keys read as 0. */
module Counter {

  /** The entry of `m` at `k`, or 0 when `k` was never stored. */
  function Get<K>(m: map<K, real>, k: K): real
  {
    if k in m then m[k] else 0.0
  }
}
