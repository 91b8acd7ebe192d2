/** Optional values: PHP's nullable columns and absent request keys. */
module Wrappers {
  datatype Option<T> = None | Some(value: T)
  {
    /** PHP's `??` operator: the value when present, else the default. */
    function GetOr(default: T): (r: T)
      ensures this.Some? ==> r == value
      ensures this.None? ==> r == default
    {
      match this
      case Some(v) => v
      case None => default
    }
  }
}
