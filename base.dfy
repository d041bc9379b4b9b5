/** Value types shared by every layer: Rust's `i32` identities, `Option`, and
    the outcome of a service call that may abort with a panic. */
module Base {

  /** Rust's `i32`, the type of account and tweet identities. */
  newtype i32 = x: int | -0x8000_0000 <= x < 0x8000_0000

  datatype Option<T> = None | Some(value: T)

  /** Why a service call aborted. The source calls `unwrap()` at these points,
      so each of them is a panic of the request. */
  datatype Fault =
    | AccountWithoutId     // `account.id().unwrap()` on an account with no identity
    | SessionStoreFailure  // `store.store_session(..).unwrap().unwrap()` failed

  /** A call that either finished with a value or panicked. */
  datatype Outcome<T> = Done(value: T) | Panicked(fault: Fault)
}
