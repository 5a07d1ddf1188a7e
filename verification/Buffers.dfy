/** Byte strings that are written over, filled with zeros, or hold numbers in network order. */
module Buffers {
  import opened Wrappers

  /** `octets` written over what was at `at`. */
  function Overwritten(b: bytes, at: nat, octets: bytes): bytes
    requires at + |octets| <= |b|
  {
    b[..at] + octets + b[at + |octets|..]
  }

  function Zeros(n: nat): (z: bytes)
    ensures |z| == n && forall i :: 0 <= i < n ==> z[i] == 0
  {
    seq(n, _ => 0)
  }

  /** The low sixteen bits of a number, most significant octet first. */
  function Octets16(value: nat): (r: bytes)
    ensures |r| == 2
  {
    [value / 256 % 256, value % 256]
  }

  function Octets32(value: nat): (r: bytes)
    ensures |r| == 4
  {
    [value / 0x100_0000 % 256, value / 0x1_0000 % 256, value / 256 % 256, value % 256]
  }

  /** The number whose octets stand at `p`. */
  function Number16(b: bytes, p: nat): (n: nat)
    requires p + 2 <= |b|
    ensures n < 0x1_0000
  {
    b[p] as int * 256 + b[p + 1]
  }

  function Number32(b: bytes, p: nat): (n: nat)
    requires p + 4 <= |b|
    ensures n < 0x1_0000_0000
  {
    b[p] as int * 0x100_0000 + b[p + 1] as int * 0x1_0000 + b[p + 2] as int * 256 + b[p + 3]
  }
}
