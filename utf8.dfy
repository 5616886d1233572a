/** UTF-8 as `String::from_utf8` accepts it: the well-formed byte
    sequences of the Unicode standard (table 3-7 of chapter 3), which
    exclude overlong forms, surrogates and code points above U+10FFFF. */
module Utf8 {
  import opened Wrappers
  import opened Wire

  predicate IsCont(b: int) { 0x80 <= b <= 0xBF }

  /** The scalar value at the head of `bs` and the number of bytes it takes. */
  function DecodeScalar(bs: seq<byte>): (r: Option<(char, nat)>)
    requires |bs| > 0
    ensures r.Some? ==> 1 <= r.value.1 <= |bs| && r.value.1 <= 4
  {
    var b0 := bs[0] as int;
    var b1 := if |bs| > 1 then bs[1] as int else 0;
    var b2 := if |bs| > 2 then bs[2] as int else 0;
    var b3 := if |bs| > 3 then bs[3] as int else 0;
    if b0 < 0x80 then
      Some((b0 as char, 1))
    else if 0xC2 <= b0 <= 0xDF then
      if |bs| >= 2 && IsCont(b1) then
        Some((((b0 - 0xC0) * 0x40 + (b1 - 0x80)) as char, 2))
      else None
    else if 0xE0 <= b0 <= 0xEF then
      var lo := if b0 == 0xE0 then 0xA0 else 0x80;
      var hi := if b0 == 0xED then 0x9F else 0xBF;
      if |bs| >= 3 && lo <= b1 <= hi && IsCont(b2) then
        Some((((b0 - 0xE0) * 0x1000 + (b1 - 0x80) * 0x40 + (b2 - 0x80)) as char, 3))
      else None
    else if 0xF0 <= b0 <= 0xF4 then
      var lo := if b0 == 0xF0 then 0x90 else 0x80;
      var hi := if b0 == 0xF4 then 0x8F else 0xBF;
      if |bs| >= 4 && lo <= b1 <= hi && IsCont(b2) && IsCont(b3) then
        Some((((b0 - 0xF0) * 0x4_0000 + (b1 - 0x80) * 0x1000
               + (b2 - 0x80) * 0x40 + (b3 - 0x80)) as char, 4))
      else None
    else None
  }

  /** `String::from_utf8`: the text `bs` encodes, or None when it is not UTF-8. */
  function Decode(bs: seq<byte>): (r: Option<string>)
    ensures r.Some? ==> |r.value| <= |bs|
    decreases |bs|, 1
  {
    if bs == [] then Some([]) else DecodeFirst(bs)
  }

  /** A non-empty `bs`: its first scalar value, then the rest. */
  function DecodeFirst(bs: seq<byte>): (r: Option<string>)
    requires |bs| > 0
    ensures r.Some? ==> |r.value| <= |bs|
    decreases |bs|, 0
  {
    match DecodeScalar(bs)
    case None => None
    case Some((c, n)) =>
      match Decode(bs[n..])
      case None => None
      case Some(s) => Some([c] + s)
  }

  /** The UTF-8 encoding of one scalar value. */
  function EncodeChar(c: char): (bs: seq<byte>)
    ensures 1 <= |bs| <= 4
  {
    var cp := c as int;
    if cp < 0x80 then [cp]
    else if cp < 0x800 then [0xC0 + cp / 0x40, 0x80 + cp % 0x40]
    else if cp < 0x1_0000 then
      [0xE0 + cp / 0x1000, 0x80 + (cp / 0x40) % 0x40, 0x80 + cp % 0x40]
    else
      [0xF0 + cp / 0x4_0000, 0x80 + (cp / 0x1000) % 0x40,
       0x80 + (cp / 0x40) % 0x40, 0x80 + cp % 0x40]
  }

  /** The UTF-8 encoding of a text (what `String::into_bytes` gives). */
  function Encode(s: string): (bs: seq<byte>)
    ensures |bs| >= |s|
  {
    if s == [] then [] else EncodeChar(s[0]) + Encode(s[1..])
  }

  lemma DecodeScalarEncodeChar(c: char, rest: seq<byte>)
    ensures DecodeScalar(EncodeChar(c) + rest) == Some((c, |EncodeChar(c)|))
  {
    var cp := c as int;
    if cp < 0x80 {
    } else if cp < 0x800 {
      TwoBytes(cp);
      DecodeTwo(cp, EncodeChar(c) + rest);
    } else if cp < 0x1_0000 {
      ThreeBytes(cp);
      DecodeThree(cp, EncodeChar(c) + rest);
    } else {
      FourBytes(cp);
      DecodeFour(cp, EncodeChar(c) + rest);
    }
  }

  /** The two bytes `EncodeChar` writes for `cp` in [0x80, 0x800) are a
      lead byte and a continuation byte that carry `cp`. */
  lemma TwoBytes(cp: int)
    requires 0x80 <= cp < 0x800
    ensures 0xC2 <= 0xC0 + cp / 0x40 <= 0xDF && IsCont(0x80 + cp % 0x40)
    ensures (cp / 0x40) * 0x40 + cp % 0x40 == cp
  {
  }

  lemma ThreeBytes(cp: int)
    requires 0x800 <= cp < 0x1_0000 && (cp < 0xD800 || 0xE000 <= cp)
    ensures var b0, b1 := 0xE0 + cp / 0x1000, 0x80 + (cp / 0x40) % 0x40;
      && 0xE0 <= b0 <= 0xEF
      && (if b0 == 0xE0 then 0xA0 else 0x80) <= b1 <= (if b0 == 0xED then 0x9F else 0xBF)
    ensures IsCont(0x80 + cp % 0x40)
    ensures (cp / 0x1000) * 0x1000 + ((cp / 0x40) % 0x40) * 0x40 + cp % 0x40 == cp
  {
    assert cp / 0x40 == (cp / 0x1000) * 0x40 + (cp / 0x40) % 0x40;
  }

  lemma FourBytes(cp: int)
    requires 0x1_0000 <= cp < 0x11_0000
    ensures var b0, b1 := 0xF0 + cp / 0x4_0000, 0x80 + (cp / 0x1000) % 0x40;
      && 0xF0 <= b0 <= 0xF4
      && (if b0 == 0xF0 then 0x90 else 0x80) <= b1 <= (if b0 == 0xF4 then 0x8F else 0xBF)
    ensures IsCont(0x80 + (cp / 0x40) % 0x40) && IsCont(0x80 + cp % 0x40)
    ensures (cp / 0x4_0000) * 0x4_0000 + ((cp / 0x1000) % 0x40) * 0x1000
            + ((cp / 0x40) % 0x40) * 0x40 + cp % 0x40 == cp
  {
    assert cp / 0x1000 == (cp / 0x4_0000) * 0x40 + (cp / 0x1000) % 0x40;
    assert cp / 0x40 == (cp / 0x1000) * 0x40 + (cp / 0x40) % 0x40;
  }

  lemma DecodeTwo(cp: int, bs: seq<byte>)
    requires 0x80 <= cp < 0x800 && |bs| >= 2
    requires bs[0] == 0xC0 + cp / 0x40 && bs[1] == 0x80 + cp % 0x40
    requires 0xC2 <= bs[0] <= 0xDF && IsCont(bs[1])
    requires (cp / 0x40) * 0x40 + cp % 0x40 == cp
    ensures DecodeScalar(bs) == Some((cp as char, 2))
  {
  }

  lemma DecodeThree(cp: int, bs: seq<byte>)
    requires 0x800 <= cp < 0x1_0000 && (cp < 0xD800 || 0xE000 <= cp) && |bs| >= 3
    requires bs[0] == 0xE0 + cp / 0x1000 && bs[1] == 0x80 + (cp / 0x40) % 0x40
    requires bs[2] == 0x80 + cp % 0x40
    requires 0xE0 <= bs[0] <= 0xEF && IsCont(bs[2])
    requires (if bs[0] == 0xE0 then 0xA0 else 0x80) <= bs[1] <= (if bs[0] == 0xED then 0x9F else 0xBF)
    requires (cp / 0x1000) * 0x1000 + ((cp / 0x40) % 0x40) * 0x40 + cp % 0x40 == cp
    ensures DecodeScalar(bs) == Some((cp as char, 3))
  {
  }

  lemma DecodeFour(cp: int, bs: seq<byte>)
    requires 0x1_0000 <= cp < 0x11_0000 && |bs| >= 4
    requires bs[0] == 0xF0 + cp / 0x4_0000 && bs[1] == 0x80 + (cp / 0x1000) % 0x40
    requires bs[2] == 0x80 + (cp / 0x40) % 0x40 && bs[3] == 0x80 + cp % 0x40
    requires 0xF0 <= bs[0] <= 0xF4 && IsCont(bs[2]) && IsCont(bs[3])
    requires (if bs[0] == 0xF0 then 0x90 else 0x80) <= bs[1] <= (if bs[0] == 0xF4 then 0x8F else 0xBF)
    requires (cp / 0x4_0000) * 0x4_0000 + ((cp / 0x1000) % 0x40) * 0x1000
             + ((cp / 0x40) % 0x40) * 0x40 + cp % 0x40 == cp
    ensures DecodeScalar(bs) == Some((cp as char, 4))
  {
  }

  /** The code point of a two-byte sequence gives back its bytes. */
  lemma TwoInverse(b0: int, b1: int)
    requires 0xC2 <= b0 <= 0xDF && IsCont(b1)
    ensures var cp := (b0 - 0xC0) * 0x40 + (b1 - 0x80);
      0x80 <= cp < 0x800 && cp / 0x40 == b0 - 0xC0 && cp % 0x40 == b1 - 0x80
  {
  }

  lemma ThreeInverse(b0: int, b1: int, b2: int)
    requires 0xE0 <= b0 <= 0xEF && IsCont(b2)
    requires (if b0 == 0xE0 then 0xA0 else 0x80) <= b1 <= (if b0 == 0xED then 0x9F else 0xBF)
    ensures var cp := (b0 - 0xE0) * 0x1000 + (b1 - 0x80) * 0x40 + (b2 - 0x80);
      && 0x800 <= cp < 0x1_0000 && (cp < 0xD800 || 0xE000 <= cp)
      && cp / 0x1000 == b0 - 0xE0 && (cp / 0x40) % 0x40 == b1 - 0x80 && cp % 0x40 == b2 - 0x80
  {
    var cp := (b0 - 0xE0) * 0x1000 + (b1 - 0x80) * 0x40 + (b2 - 0x80);
    assert cp / 0x40 == (b0 - 0xE0) * 0x40 + (b1 - 0x80);
  }

  lemma FourInverse(b0: int, b1: int, b2: int, b3: int)
    requires 0xF0 <= b0 <= 0xF4 && IsCont(b2) && IsCont(b3)
    requires (if b0 == 0xF0 then 0x90 else 0x80) <= b1 <= (if b0 == 0xF4 then 0x8F else 0xBF)
    ensures var cp := (b0 - 0xF0) * 0x4_0000 + (b1 - 0x80) * 0x1000 + (b2 - 0x80) * 0x40 + (b3 - 0x80);
      && 0x1_0000 <= cp < 0x11_0000
      && cp / 0x4_0000 == b0 - 0xF0 && (cp / 0x1000) % 0x40 == b1 - 0x80
      && (cp / 0x40) % 0x40 == b2 - 0x80 && cp % 0x40 == b3 - 0x80
  {
    var cp := (b0 - 0xF0) * 0x4_0000 + (b1 - 0x80) * 0x1000 + (b2 - 0x80) * 0x40 + (b3 - 0x80);
    assert cp / 0x1000 == (b0 - 0xF0) * 0x40 + (b1 - 0x80);
    assert cp / 0x40 == ((b0 - 0xF0) * 0x40 + (b1 - 0x80)) * 0x40 + (b2 - 0x80);
  }

  lemma EncodeCharDecodeScalar(bs: seq<byte>)
    requires |bs| > 0 && DecodeScalar(bs).Some?
    ensures EncodeChar(DecodeScalar(bs).value.0) == bs[..DecodeScalar(bs).value.1]
  {
    var b0 := bs[0] as int;
    if b0 < 0x80 {
    } else if b0 <= 0xDF {
      TwoInverse(b0, bs[1]);
    } else if b0 <= 0xEF {
      ThreeInverse(b0, bs[1], bs[2]);
    } else {
      FourInverse(b0, bs[1], bs[2], bs[3]);
    }
  }

  /** Decoding undoes encoding: every text survives a trip through UTF-8. */
  lemma {:induction false} DecodeEncode(s: string)
    ensures Decode(Encode(s)) == Some(s)
  {
    if s != [] {
      var e := EncodeChar(s[0]);
      var bs := e + Encode(s[1..]);
      DecodeScalarEncodeChar(s[0], Encode(s[1..]));
      assert bs[|e|..] == Encode(s[1..]);
      DecodeEncode(s[1..]);
      assert Encode(s) == bs && bs != [];
      assert [s[0]] + s[1..] == s;
    }
  }

  lemma DecodeCons(bs: seq<byte>, c: char, n: nat, s: string)
    requires |bs| > 0 && DecodeScalar(bs) == Some((c, n)) && Decode(bs[n..]) == Some(s)
    ensures Decode(bs) == Some([c] + s)
  {
  }

  lemma EncodeCons(c: char, s: string)
    ensures Encode([c] + s) == EncodeChar(c) + Encode(s)
  {
    assert ([c] + s)[1..] == s;
  }

  /** Encoding undoes decoding: a byte sequence that decodes is the
      encoding of its text, so no two byte sequences decode alike. */
  lemma {:induction false} EncodeDecode(bs: seq<byte>)
    requires Decode(bs).Some?
    ensures Encode(Decode(bs).value) == bs
    decreases |bs|
  {
    if bs != [] {
      var (c, n) := DecodeScalar(bs).value;
      var s := Decode(bs[n..]).value;
      DecodeCons(bs, c, n, s);
      EncodeCharDecodeScalar(bs);
      EncodeDecode(bs[n..]);
      EncodeCons(c, s);
      assert bs == bs[..n] + bs[n..];
    }
  }

  /** The char whose code point is the byte (Rust's `u8 as char`). */
  function ByteChar(b: byte): char {
    b as char
  }

  /** Each byte read as the char with the same code point. */
  function Latin1(bs: seq<byte>): (s: string)
    ensures |s| == |bs| && forall i :: 0 <= i < |bs| ==> s[i] as int == bs[i]
  {
    if bs == [] then [] else [ByteChar(bs[0])] + Latin1(bs[1..])
  }

  /** ASCII bytes decode one char per byte, each with the byte's code point. */
  lemma {:induction false} DecodeAscii(bs: seq<byte>)
    requires forall i :: 0 <= i < |bs| ==> bs[i] < 0x80
    ensures Decode(bs) == Some(Latin1(bs))
  {
    if bs != [] {
      DecodeAscii(bs[1..]);
    }
  }
}
