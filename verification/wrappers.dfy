/** An optional value: `Some` for a successful decode, `None` for a failure. */
module Wrappers {

  /** `None` stands for a decode failure (a `parity_scale_codec::Error`, or a
      panic where the source unwraps one). */
  datatype Option<+T> = None | Some(value: T)
}
