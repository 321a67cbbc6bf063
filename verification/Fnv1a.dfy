/** The 32-bit FNV-1a hash of src/fnv1a.h. */
module Fnv1a {
  import opened Bytes

  /** A char is signed: bytes from 128 on are sign-extended to 32 bits. */
  function Widen(b: byte): bv32 {
    if b < 128 then b as bv32 else (b as bv32) | 0xffff_ff00
  }

  function Mix(h: bv32, s: seq<byte>): bv32
    decreases |s|
  {
    if s == [] then h else Mix((h ^ Widen(s[0])) * 0x0100_0193, s[1..])
  }

  function Hash(s: seq<byte>): (h: int)
    ensures 0 <= h < TWO_32
  {
    Mix(0x811c_9dc5, s) as int
  }
}
