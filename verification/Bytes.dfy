/** Octets, fixed-width big-endian integers and the few container types the other modules share. */
module Bytes {

  type byte = b: int | 0 <= b < 0x100
  type uint16 = n: int | 0 <= n < 0x1_0000
  type uint24 = n: int | 0 <= n < 0x100_0000
  type uint32 = n: int | 0 <= n < 0x1_0000_0000
  type uint48 = n: int | 0 <= n < 0x1_0000_0000_0000
  type uint64 = n: int | 0 <= n < 0x1_0000_0000_0000_0000

  const TWO_32 := 0x1_0000_0000
  const TWO_64 := 0x1_0000_0000_0000_0000

  datatype Option<+T> = None | Some(value: T)

  /** Two octets, most significant first. */
  function U16(n: uint16): (r: seq<byte>)
    ensures |r| == 2
  {
    [n / 0x100, n % 0x100]
  }

  /** Three octets, most significant first. */
  function U24(n: uint24): (r: seq<byte>)
    ensures |r| == 3
  {
    [n / 0x1_0000, n / 0x100 % 0x100, n % 0x100]
  }

  function ReadU16(b0: byte, b1: byte): (n: uint16) {
    b0 * 0x100 + b1
  }

  function ReadU24(b0: byte, b1: byte, b2: byte): (n: uint24) {
    b0 * 0x1_0000 + b1 * 0x100 + b2
  }

  lemma ReadU16OfU16(n: uint16)
    ensures ReadU16(U16(n)[0], U16(n)[1]) == n
  {
  }

  lemma ReadU24OfU24(n: uint24)
    ensures ReadU24(U24(n)[0], U24(n)[1], U24(n)[2]) == n
  {
  }

  lemma U16OfReadU16(b0: byte, b1: byte)
    ensures U16(ReadU16(b0, b1)) == [b0, b1]
  {
  }

  lemma U24OfReadU24(b0: byte, b1: byte, b2: byte)
    ensures U24(ReadU24(b0, b1, b2)) == [b0, b1, b2]
  {
    var n := ReadU24(b0, b1, b2);
    var high := b0 * 0x100 + b1;
    assert n / 0x100 == high && n % 0x100 == b2;
    assert high / 0x100 == b0 && high % 0x100 == b1;
    assert n / 0x1_0000 == b0;
  }

  /** No value occurs at two positions of `s`. */
  ghost predicate Distinct<T(!new)>(s: seq<T>) {
    forall i, j :: 0 <= i < j < |s| ==> s[i] != s[j]
  }
}
