/** What several parts of the model share: an optional value, page and word sizes, and byte sequences. */
module Common {
  datatype Option<T> = None | Some(value: T)

  const PAGE_SIZE: nat := 4096
  const TWO_31: nat := 0x8000_0000
  const TWO_32: nat := 0x1_0000_0000
  const TWO_63: nat := 0x8000_0000_0000_0000
  const TWO_64: nat := 0x1_0000_0000_0000_0000

  /** A 32-bit signed integer holding the low bits of `x`. */
  function ToInt32(x: nat): int {
    var low := x % TWO_32;
    if low < TWO_31 then low else low - TWO_32
  }

  newtype byte = x: int | 0 <= x < 256

  /** `s` with `data` written over it at `at`. */
  function Splice(s: seq<byte>, at: nat, data: seq<byte>): (r: seq<byte>)
    requires at + |data| <= |s|
    ensures |r| == |s|
  {
    s[..at] + data + s[at + |data|..]
  }
}
