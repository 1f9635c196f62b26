/** The optional-value type used for Rust's `Option` in the kernel's
    slot lists and for values a syscall may or may not produce. */
module Wrappers {

  datatype Option<+T> = None | Some(value: T)
}
