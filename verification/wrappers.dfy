/** Option and Result, the two failure-carrying shapes the plotter uses
    (`Option<T>` for missing values, `anyhow::Result` / `std::io::Result`
    for fallible calls). */
module Wrappers {

  datatype Option<+T> = None | Some(value: T)

  datatype Result<+R, +E> = Ok(value: R) | Err(error: E)
}
