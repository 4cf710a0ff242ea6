/** Value types shared by every module: machine integers written as ranges of
    `int`, byte strings, and the conversions C++ performs between them. */
module Prelude {

  datatype Option<+T> = None | Some(value: T) {
    function GetOr(default: T): T
    {
      if None? then default else value
    }
  }

  const TWO_31: int := 0x8000_0000
  const TWO_32: int := 0x1_0000_0000
  const TWO_64: int := 0x1_0000_0000_0000_0000

  type byte = n: int | 0 <= n < 256
  type uint32 = n: int | 0 <= n < 0x1_0000_0000
  type int32 = n: int | -0x8000_0000 <= n < 0x8000_0000
  type uint64 = n: int | 0 <= n < 0x1_0000_0000_0000_0000

  type Bytes = seq<byte>

  /** The outcome of reading a value off the front of a byte string: the value
      and the bytes that follow it. */
  datatype Read<+T> = Fail | Got(value: T, rest: Bytes)

  /** `static_cast<int32>` of a 32-bit pattern. */
  function ToInt32(u: uint32): (v: int32)
    ensures SignExtend(v) % TWO_32 == u
  {
    if u < TWO_31 then u else u - TWO_32
  }

  /** `static_cast<uint64>` of an int32: sign extension to 64 bits. */
  function SignExtend(v: int32): (u: uint64)
  {
    if v >= 0 then v else v + TWO_64
  }

  /** A sign-extended int32 is read back from the low 32 bits. */
  lemma SignExtendRoundTrip(v: int32)
    ensures ToInt32(SignExtend(v) % TWO_32) == v
  {
    assert (v + TWO_64) % TWO_32 == if v >= 0 then v else v + TWO_32;
  }

  /** A member and its has bit, as the accessors show them. */
  function Opt<T>(has: bool, value: T): Option<T>
  {
    if has then Some(value) else None
  }

  /** Last one wins. */
  function Later<T>(a: Option<T>, b: Option<T>): Option<T>
  {
    if b.Some? then b else a
  }

  function Min(a: nat, b: nat): nat
  {
    if a <= b then a else b
  }

  lemma JoinInAnyOrder(a: Bytes, b: Bytes, c: Bytes)
    ensures a + b + c == a + (b + c)
  {
  }
}
