/** Machine words and the optional value shared by the other modules. */
module Words {

  const U64_LIMIT: nat := 0x1_0000_0000_0000_0000

  /** A 64-bit unsigned machine word (`u64`, and `usize` on the 64-bit targets). */
  type u64 = n: nat | n < U64_LIMIT

  datatype Option<+T> = None | Some(value: T)
}
