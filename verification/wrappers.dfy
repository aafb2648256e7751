/** Optional values shared by the scheduler and the routing modules. */
module Wrappers {

  /** A value that may be absent: the source's `-1` sentinels and "no route" answers. */
  datatype Option<+T> = None | Some(value: T)
}
