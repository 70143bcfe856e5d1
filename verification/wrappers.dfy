/** Failure-carrying datatypes. `Option` stands for Rust's `Option`; `Result`
    stands both for Rust's `Result` and for the fatal `expect(...)` panics on
    unreadable directories, which here become an `Err` naming the path that
    could not be read. */
module Wrappers {

  datatype Option<+T> = None | Some(value: T)

  datatype Result<+T, +E> = Ok(value: T) | Err(error: E)
}
