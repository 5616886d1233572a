/** Fixed-width integers of the wire format, the two's-complement
    reinterpretations the decoder performs with Rust's `as`, and the
    errors that stand for the decoder's panics. */
module Wire {
  import opened Wrappers

  type byte = x: int | 0 <= x < 0x100
  type i16 = x: int | -0x8000 <= x < 0x8000
  type i32 = x: int | -0x8000_0000 <= x < 0x8000_0000
  type u32 = x: int | 0 <= x < 0x1_0000_0000

  const TWO_32: int := 0x1_0000_0000
  const TWO_64: int := 0x1_0000_0000_0000_0000

  /** Why a decode stops. Each one replaces a panic of the original. */
  datatype DecodeError =
    | BufferUnderrun            // a `get_*` on a `Bytes` with too few bytes left
    | VarIntTooLong             // the `todo!()` in `get_var_int`
    | CapacityOverflow          // `Vec::with_capacity` of a negative length cast to `usize`
    | InvalidUtf8               // `String::from_utf8(..).unwrap()`
    | IndexOutOfRange           // indexing the string table out of bounds
    | UnknownValueTag(tag: byte) // the `todo!("error")` arm of the value match

  /** A decoded item and the position just after it. */
  datatype Parsed<+T> = Parsed(val: T, next: nat)

  type Read<T> = Result<Parsed<T>, DecodeError>

  /** The i16 whose 16-bit pattern is `u`. */
  function Signed16(u: int): (r: i16)
    requires 0 <= u < 0x1_0000
  {
    if u < 0x8000 then u else u - 0x1_0000
  }

  /** The i32 whose 32-bit pattern is `u`. */
  function Signed32(u: int): (r: i32)
    requires 0 <= u < TWO_32
  {
    if u < 0x8000_0000 then u else u - TWO_32
  }

  /** An i16 pattern is read as itself, or as itself minus 2^16 when its
      top bit is set. */
  lemma Signed16Range(u: int)
    requires 0 <= u < 0x1_0000
    ensures Signed16(u) == u || Signed16(u) == u - 0x1_0000
    ensures Signed16(u) < 0 <==> u >= 0x8000
  {
  }

  /** An i32 pattern is read as itself, or as itself minus 2^32 when its
      top bit is set. */
  lemma Signed32Range(u: int)
    requires 0 <= u < TWO_32
    ensures Signed32(u) == u || Signed32(u) == u - TWO_32
    ensures Signed32(u) < 0 <==> u >= 0x8000_0000
  {
  }

  /** `v as u32` in Rust: the same 32 bits read as unsigned. */
  function U32Of(v: i32): (r: u32)
    ensures r % TWO_32 == v % TWO_32
    ensures r == v <==> v >= 0
  {
    if v < 0 then v + TWO_32 else v
  }

  /** `v as usize` for an i16 on a 64-bit target: sign extension. */
  function UsizeOf(v: i16): (r: nat)
    ensures r < TWO_64 && (r == v || r == v + TWO_64)
    ensures v < 0 ==> r >= TWO_64 - 0x8000
  {
    if v < 0 then v + TWO_64 else v
  }

  /** Rust's `/` on integers: the quotient truncated toward zero, so the
      remainder takes the sign of the dividend and is smaller than the
      divisor. */
  function TruncDiv(a: int, b: int): (q: int)
    requires b > 0
    ensures 0 <= a ==> 0 <= a - q * b < b
    ensures a < 0 ==> -b < a - q * b <= 0
  {
    if a >= 0 then a / b else -((-a) / b)
  }

  /** The unsigned value of two bytes, least significant first. */
  function Le16(b0: byte, b1: byte): int {
    b0 as int + 0x100 * b1 as int
  }

  /** The unsigned value of four bytes, least significant first. */
  function Le32(b0: byte, b1: byte, b2: byte, b3: byte): int {
    b0 as int + 0x100 * b1 as int + 0x1_0000 * b2 as int + 0x100_0000 * b3 as int
  }

  /** The little-endian bytes of an i16 (as `i16::to_le_bytes`). */
  function LeBytes16(v: i16): (bs: seq<byte>)
    ensures |bs| == 2
    ensures Signed16(Le16(bs[0], bs[1])) == v
  {
    var u := if v < 0 then v + 0x1_0000 else v;
    [u % 0x100, u / 0x100]
  }

  /** The little-endian bytes of a u32 (as `u32::to_le_bytes`). */
  function LeBytesU32(u: u32): (bs: seq<byte>)
    ensures |bs| == 4
    ensures Le32(bs[0], bs[1], bs[2], bs[3]) == u
  {
    var q1 := u / 0x100;
    var q2 := q1 / 0x100;
    var q3 := q2 / 0x100;
    assert u == u % 0x100 + 0x100 * (q1 % 0x100 + 0x100 * (q2 % 0x100 + 0x100 * q3));
    [u % 0x100, q1 % 0x100, q2 % 0x100, q3]
  }

  /** The little-endian bytes of an i32 (as `i32::to_le_bytes`). */
  function LeBytes32(v: i32): (bs: seq<byte>)
    ensures |bs| == 4
    ensures Signed32(Le32(bs[0], bs[1], bs[2], bs[3])) == v
  {
    LeBytesU32(U32Of(v))
  }

  /** Two bytes read as an i16 and written back are the same two bytes. */
  lemma LeBytes16Of(b0: byte, b1: byte)
    ensures LeBytes16(Signed16(Le16(b0, b1))) == [b0, b1]
  {
  }

  /** Four bytes read as a u32 and written back are the same four bytes. */
  lemma LeBytesU32Of(b0: byte, b1: byte, b2: byte, b3: byte)
    ensures LeBytesU32(Le32(b0, b1, b2, b3)) == [b0, b1, b2, b3]
  {
    var u := Le32(b0, b1, b2, b3);
    assert u / 0x100 == b1 as int + 0x100 * b2 as int + 0x1_0000 * b3 as int;
    assert u / 0x1_0000 == b2 as int + 0x100 * b3 as int;
    assert u / 0x100 / 0x100 == u / 0x1_0000;
    assert u / 0x100 / 0x100 / 0x100 == b3;
  }

  /** Four bytes read as an i32 and written back are the same four bytes. */
  lemma LeBytes32Of(b0: byte, b1: byte, b2: byte, b3: byte)
    ensures LeBytes32(Signed32(Le32(b0, b1, b2, b3))) == [b0, b1, b2, b3]
  {
    LeBytesU32Of(b0, b1, b2, b3);
  }
}
