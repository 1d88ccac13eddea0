/** The fixed-width types of the target, as far as the library's behaviour depends on them. */
module CTypes {
  type byte = x: nat | x < 0x100
  type uint16 = x: nat | x < 0x1_0000
  type uint32 = x: nat | x < 0x1_0000_0000
  type uint64 = x: nat | x < 0x1_0000_0000_0000_0000

  datatype Option<+T> = None | Some(value: T)

  /** Reduction of an arithmetic result to 16 and to 32 bits. */
  function U16(x: int): uint16 { x % 0x1_0000 }
  function U32(x: int): uint32 { x % 0x1_0000_0000 }

  /** x - 1 on an unsigned 32-bit variable: zero wraps around. */
  function Pred(x: uint32): uint32 { if x == 0 then 0xFFFF_FFFF else x - 1 }

  /** The cast from size_t to int on a 32-bit target. */
  function AsInt(x: uint32): int {
    if x < 0x8000_0000 then x else x - 0x1_0000_0000
  }

  function Min(x: int, y: int): int { if x < y then x else y }

  /** A 16-bit number at position off, most significant byte first, and the two bytes of one. */
  function U2BE(p: seq<byte>, off: nat): (x: uint16)
    requires off + 1 < |p|
  {
    var hi: nat, lo: nat := p[off], p[off + 1];
    hi * 256 + lo
  }

  function Hi(x: nat): byte { (x / 256) % 256 }
  function Lo(x: nat): byte { x % 256 }

  lemma BytesOf(x: nat)
    ensures Hi(x) == x / 256 % 256 && Lo(x) == x % 256
  {
  }

  /** n zero bytes */
  function Fill(n: nat): (z: seq<byte>)
    ensures |z| == n && forall i :: 0 <= i < n ==> z[i] == 0
  {
    seq(n, _ => 0)
  }
}
