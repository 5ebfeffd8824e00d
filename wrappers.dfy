/** Optional values and pass/fail outcomes, used wherever the coordinator
    distinguishes "no value" from a value, or a raised error from success. */
module Wrappers {

  datatype Option<+T> = None | Some(value: T)

  datatype Outcome<+E> = Pass | Fail(error: E)

  datatype Result<+T, +E> = Ok(value: T) | Err(error: E)

  /** Python's `d.get(k, default)` on a dictionary. */
  function GetOr<K, V>(m: map<K, V>, k: K, default: V): V
  {
    if k in m then m[k] else default
  }
}
