/** Byte-level helpers: the big- and little-endian integer layouts that the
    bootloader protocol packs with `struct.pack('>H')`, `struct.pack('>I')` and
    `struct.pack('<I')`, and the reads that undo them. */
module Bytes {

  type Byte = bv8

  function Min(a: nat, b: nat): nat { if a <= b then a else b }

  /** The first `n` bytes of `s`, or all of `s` when it is shorter. */
  function Take(s: seq<Byte>, n: nat): (r: seq<Byte>)
    ensures |r| == Min(n, |s|) && r == s[..|r|]
  {
    s[..Min(n, |s|)]
  }

  /** Big-endian 16-bit field (`struct.pack('>H', x)`). */
  function U16BE(x: bv16): (r: seq<Byte>)
    ensures |r| == 2 && ReadU16BE(r) == x
  {
    [(x >> 8) as bv8, (x & 0xFF) as bv8]
  }

  function ReadU16BE(b: seq<Byte>): bv16
    requires |b| == 2
  {
    ((b[0] as bv16) << 8) | (b[1] as bv16)
  }

  /** Big-endian 32-bit field (`struct.pack('>I', x)`). */
  function U32BE(x: bv32): (r: seq<Byte>)
    ensures |r| == 4 && ReadU32BE(r) == x
  {
    [(x >> 24) as bv8, ((x >> 16) & 0xFF) as bv8, ((x >> 8) & 0xFF) as bv8, (x & 0xFF) as bv8]
  }

  function ReadU32BE(b: seq<Byte>): bv32
    requires |b| == 4
  {
    ((b[0] as bv32) << 24) | ((b[1] as bv32) << 16) | ((b[2] as bv32) << 8) | (b[3] as bv32)
  }

  /** Little-endian 32-bit field (`struct.pack('<I', x)`): the big-endian
      bytes in reverse order. */
  function U32LE(x: bv32): (r: seq<Byte>)
    ensures |r| == 4 && ReadU32BE([r[3], r[2], r[1], r[0]]) == x
  {
    [(x & 0xFF) as bv8, ((x >> 8) & 0xFF) as bv8, ((x >> 16) & 0xFF) as bv8, (x >> 24) as bv8]
  }
}
