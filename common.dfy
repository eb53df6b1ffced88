/** Types shared by the driver model: bytes, the error values of the
    driver's fatal checks, and powers of 256. */
module Common {

  /** One unsigned char of the input buffer or of an output stream. */
  newtype byte = x: int | 0 <= x < 256

  datatype Option<T> = None | Some(value: T)

  datatype Result<T, E> = Ok(value: T) | Err(error: E)

  /** The fatal configuration errors the driver reports before any chunk is processed. */
  datatype ConfigError =
    | GapWidthOutOfRange   // -g value outside 0..7
    | GapWiderThanIndex    // -g value wider than sizeof(int_t)
    | PartitionTooLarge    // chunk_size > WORD
    | InputTooLarge        // n > WORD

  /** The range of size_t and uint64_t on the hosts the driver targets. */
  const U64: nat := 0x1_0000_0000_0000_0000

  /** 256^k, the number of values k bytes can hold. */
  function Pow256(k: nat): (p: nat)
    ensures p >= 1
    ensures k >= 1 ==> p % 256 == 0 && p >= 256
  {
    if k == 0 then 1 else 256 * Pow256(k - 1)
  }
}
