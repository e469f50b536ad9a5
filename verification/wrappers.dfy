/** Optional values, for the fields a callback body may leave out. */
module Wrappers {
  datatype Option<T> = None | Some(value: T)
  {
    /** Python's `d.get(key, default)` once the lookup has been made. */
    function GetOr(default: T): T
    {
      if Some? then value else default
    }
  }
}
