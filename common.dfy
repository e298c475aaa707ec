/** Machine integer ranges and failure-carrying wrappers shared by every module. */
module Common {

  /** Rust's fixed-width unsigned integers, as ranges of the unbounded `int`. */
  type u8 = x: int | 0 <= x < 0x100
  type u16 = x: int | 0 <= x < 0x1_0000
  type u64 = x: int | 0 <= x < 0x1_0000_0000_0000_0000

  datatype Option<+T> = None | Some(value: T)

  /** Rust's `Result<T, String>`. */
  datatype Result<+T> = Ok(value: T) | Err(error: string)

  /**
   * How a call of the source ends: it returns a value, it panics (the process
   * aborts with a message), or it never returns (an unbounded loop).
   */
  datatype Outcome<+T> = Returned(value: T) | Panicked(reason: string) | Diverges
}

/** The two shared definitions of the codec: the end-of-data marker and a pixel colour. */
module InjectionExtraction {
  import opened Common

  /** Byte used to pad the last RGB frame; the decoder stops at the first channel holding it. */
  const EOF_CHAR: u8 := 4

  datatype Color = Color(r: u8, g: u8, b: u8)
}
