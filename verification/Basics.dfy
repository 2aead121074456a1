/** Fixed-width numbers and the option type shared by every component. */
module Basics {

  type byte = x: int | 0 <= x < 0x100
  type u16 = x: int | 0 <= x < 0x1_0000
  type u32 = x: int | 0 <= x < 0x1_0000_0000

  datatype Option<+T> = None | Some(value: T)

  /** The bytes of one radio message: `struct nrf_raw_msg`, and equally `struct nrf_frame`. */
  const PAYLOADSZ := 16

  type Payload = p: seq<byte> | |p| == PAYLOADSZ witness ZEROS

  const ZEROS: seq<byte> := [0, 0, 0, 0, 0, 0, 0, 0, 0, 0, 0, 0, 0, 0, 0, 0]

  /** `a` is obtained from `b` by deleting elements and keeping the order of the rest. */
  predicate Subsequence<T(==)>(a: seq<T>, b: seq<T>) {
    a == [] ||
    (b != [] &&
     (Subsequence(a, b[..|b|-1]) ||
      (a[|a|-1] == b[|b|-1] && Subsequence(a[..|a|-1], b[..|b|-1]))))
  }
}
