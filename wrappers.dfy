/** Optional values (a configuration key that may be absent) and results with an error. */
module Wrappers {

  datatype Option<T> = None | Some(value: T) {

    /** `config.get(key, default)`: the value when present, the default otherwise. */
    function GetOr(default: T): T {
      if Some? then value else default
    }
  }

  datatype Result<T, E> = Ok(value: T) | Err(error: E)
}
