/** The records the image commands exchange with the front end. */
module Models {

  /** An unsigned 8-bit value (Rust `u8`). */
  type Byte = x: int | 0 <= x < 256

  /** One more than the largest Rust `u32`. */
  const U32_LIMIT: int := 0x1_0000_0000

  /** An unsigned 32-bit value (Rust `u32`). */
  type U32 = x: int | 0 <= x < U32_LIMIT

  /** A decoded image: its size in pixels, its RGBA bytes row by row, and a format tag. */
  datatype ImageData = ImageData(width: U32, height: U32, data: seq<Byte>, format: string)

  /**
   * The four 256-bin histograms of the analysis command. The source's bins are `u32`;
   * here they are `nat`, and Commands.CountersFitU32 bounds them.
   */
  datatype HistogramData = HistogramData(red: seq<nat>, green: seq<nat>, blue: seq<nat>, luminosity: seq<nat>)

  /** The `Result<T, String>` every command returns. */
  datatype Result<T> = Ok(value: T) | Err(message: string)
}
