/** Optional values and error-carrying results shared by the whole model.
    `None` stands for a missing cell (pandas' NaN); `Err` for a raised exception. */
module Outcomes {

  datatype Option<+T> = None | Some(value: T)

  datatype Result<+T, +E> = Ok(value: T) | Err(error: E)
}
