/** Optional values: JavaScript's `undefined` / `NaN` results are modelled as None. */
module Options {

  datatype Option<+T> = None | Some(value: T)
}
