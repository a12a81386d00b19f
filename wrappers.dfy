/** Optional values, used where the planner's C++ code would index out of range or divide by zero. */
module Wrappers {
  datatype Option<+T> = None | Some(value: T)
}
