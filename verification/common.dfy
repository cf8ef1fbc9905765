/** What several modules need. */
module Common {

  datatype Option<+T> = None | Some(value: T)

  /** One more than the largest signed 64-bit integer. */
  const INT64_LIMIT := 0x8000_0000_0000_0000

  /** The number of 64-bit integers. */
  const SPAN64 := 0x1_0000_0000_0000_0000
}
