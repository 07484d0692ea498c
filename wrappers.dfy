/** Optional values: `None` stands for JavaScript's `null` and for a `NaN` statistic. */
module Wrappers {

  datatype Option<+T> = None | Some(value: T)
}
