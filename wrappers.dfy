/** The Option type that the game code uses for "maybe a value" (Rust's `Option`). */
module Wrappers {
  datatype Option<+T> = None | Some(value: T)
}
