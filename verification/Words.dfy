/** Fixed-width words shared by the protocol, the host pipeline and the firmware. */
module Words {

  datatype Option<+T> = None | Some(value: T)

  type byte = bv8

  const TWO_TO_THE_16: int := 0x1_0000
  const TWO_TO_THE_31: int := 0x8000_0000
  const TWO_TO_THE_32: int := 0x1_0000_0000
  const TWO_TO_THE_63: int := 0x8000_0000_0000_0000
  const TWO_TO_THE_64: int := 0x1_0000_0000_0000_0000

  // Exclusive or under a name, so that a proof can hide the bits and keep the group laws.

  function Xor8(a: byte, b: byte): byte {
    a ^ b
  }

  function Xor32(x: bv32, y: bv32): bv32 {
    x ^ y
  }

  /** Bytewise exclusive or of two strings of one length. */
  function XorBytes(a: seq<byte>, b: seq<byte>): (r: seq<byte>)
    requires |a| == |b|
    ensures |r| == |a|
    ensures forall i :: 0 <= i < |r| ==> r[i] == Xor8(a[i], b[i])
  {
    seq(|a|, i requires 0 <= i < |a| => Xor8(a[i], b[i]))
  }

  function Zeros(n: nat): (r: seq<byte>)
    ensures |r| == n && forall i :: 0 <= i < n ==> r[i] == 0
  {
    seq(n, i => 0)
  }

  /** One increment of a `std::uint64_t` counter, which wraps. */
  function Inc64(x: nat): (r: nat)
    ensures r < TWO_TO_THE_64
    ensures x + 1 < TWO_TO_THE_64 ==> r == x + 1
    ensures x + 1 == TWO_TO_THE_64 ==> r == 0
  {
    (x + 1) % TWO_TO_THE_64
  }

  /** A number reduced to a `std::uint32_t`. */
  function Wrap32(n: nat): (r: nat)
    ensures r < TWO_TO_THE_32
  {
    n % TWO_TO_THE_32
  }
}
