/** Option and Result: nullable values and thrown exceptions of the modelled Kotlin code. */
module Wrappers {

  /** A Kotlin nullable value: `None` is `null`. */
  datatype Option<+T> = None | Some(value: T)

  /** A computation that either returns a value or throws. */
  datatype Result<+T, +E> = Success(value: T) | Failure(error: E)
}

/** JVM values that the model treats as opaque. */
module Values {

  /** A non-null JVM object (`Any`); `Option<Value>` stands for `Any?`. */
  type Value

  /** A JVM `Class` reference, used as the target type of deserialization; identified by its name. */
  type Class = string

  newtype byte = x: int | 0 <= x < 256

  type Bytes = seq<byte>
}
