/** Java's signed 8-bit `byte` and byte arrays. */
module Bytes {

  newtype JByte = x: int | -128 <= x < 128

  type Bytes = seq<JByte>

  /** `0xff & b`: the byte's bits read as an unsigned value. */
  function Unsigned(b: JByte): (r: nat)
    ensures r < 256
    ensures r % 256 == (b as int) % 256
  {
    if b < 0 then b as int + 256 else b as int
  }

  /** The `(byte)` cast of a value in 0..255. */
  function FromUnsigned(v: nat): (b: JByte)
    requires v < 256
    ensures Unsigned(b) == v
  {
    if v < 128 then v as JByte else (v - 256) as JByte
  }

  lemma UnsignedInjective(a: JByte, b: JByte)
    requires Unsigned(a) == Unsigned(b)
    ensures a == b
  {
  }
}
