/** The optional value used wherever the screener produces "no value":
    a NaN metric, a missing prior rank, a stock without a usable ticker. */
module Wrappers {

  datatype Option<+T> = None | Some(value: T)
}
