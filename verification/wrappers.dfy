/** Option stands in for the Java sentinels of the simulator (`-1` page
    indices, `Double.MAX_VALUE` / `Long.MAX_VALUE` "nothing seen yet"). */
module Wrappers {

  datatype Option<+T> = None | Some(value: T)
}
