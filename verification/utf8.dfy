/**
 * Strings as they are stored in a DIDI file: the UTF-8 bytes of a string
 * (Rust's `str::as_bytes`) and the strict validating decoder that turns bytes
 * back into a string (Rust's `String::from_utf8`, also used by
 * `read_to_string`). Dafny's `char` is a Unicode scalar value, as Rust's is.
 */
module Utf8 {
  import opened Wrappers

  type Byte = b: int | 0 <= b < 256

  predicate IsContinuation(b: Byte) { 0x80 <= b <= 0xBF }

  /** The UTF-8 encoding of one scalar value: 1 to 4 bytes. */
  function EncodeChar(c: char): (b: seq<Byte>)
    ensures 1 <= |b| <= 4
  {
    var cp := c as int;
    if cp < 0x80 then [cp]
    else if cp < 0x800 then [0xC0 + cp / 64, 0x80 + cp % 64]
    else if cp < 0x1_0000 then [0xE0 + cp / 4096, 0x80 + (cp / 64) % 64, 0x80 + cp % 64]
    else [0xF0 + cp / 0x4_0000, 0x80 + (cp / 4096) % 64, 0x80 + (cp / 64) % 64, 0x80 + cp % 64]
  }

  /** The bytes of a string, as `as_bytes` gives them. */
  function Encode(s: string): (b: seq<Byte>)
    ensures |s| <= |b| <= 4 * |s|
  {
    if s == [] then [] else EncodeChar(s[0]) + Encode(s[1..])
  }

  /**
   * The scalar value that starts `b` and the number of bytes it takes, or None
   * when `b` does not start with a well-formed UTF-8 sequence (Table 3-7 of the
   * Unicode Standard: no overlong forms, no surrogates, nothing above U+10FFFF).
   */
  function DecodeFirst(b: seq<Byte>): (r: Option<(char, nat)>)
    requires b != []
    ensures r.Some? ==> 1 <= r.value.1 <= |b| && r.value.1 <= 4
  {
    var b0 := b[0] as int;
    if b0 < 0x80 then
      Some((b0 as char, 1))
    else if 0xC2 <= b0 <= 0xDF then
      if |b| >= 2 && IsContinuation(b[1])
      then Some((((b0 - 0xC0) * 64 + (b[1] as int - 0x80)) as char, 2))
      else None
    else if 0xE0 <= b0 <= 0xEF then
      var lo := if b0 == 0xE0 then 0xA0 else 0x80;
      var hi := if b0 == 0xED then 0x9F else 0xBF;
      if |b| >= 3 && lo <= b[1] <= hi && IsContinuation(b[2])
      then Some((((b0 - 0xE0) * 4096 + (b[1] as int - 0x80) * 64 + (b[2] as int - 0x80)) as char, 3))
      else None
    else if 0xF0 <= b0 <= 0xF4 then
      var lo := if b0 == 0xF0 then 0x90 else 0x80;
      var hi := if b0 == 0xF4 then 0x8F else 0xBF;
      if |b| >= 4 && lo <= b[1] <= hi && IsContinuation(b[2]) && IsContinuation(b[3])
      then Some((((b0 - 0xF0) * 0x4_0000 + (b[1] as int - 0x80) * 4096 + (b[2] as int - 0x80) * 64 + (b[3] as int - 0x80)) as char, 4))
      else None
    else
      None
  }

  /** `String::from_utf8`: the string whose bytes are `b`, or None if `b` is not valid UTF-8. */
  function Decode(b: seq<Byte>): (r: Option<string>)
    ensures r.Some? ==> |r.value| <= |b| <= 4 * |r.value|
    decreases |b|
  {
    if b == [] then Some([])
    else match DecodeFirst(b)
      case None => None
      case Some((c, w)) =>
        match Decode(b[w..])
        case None => None
        case Some(s) => Some([c] + s)
  }

  /** Decoding the encoding of one scalar value gives it back, consuming exactly its bytes. */
  lemma {:induction false} DecodeFirstEncodeChar(c: char, rest: seq<Byte>)
    ensures DecodeFirst(EncodeChar(c) + rest) == Some((c, |EncodeChar(c)|))
  {
    var cp := c as int;
    if cp < 0x80 {
    } else if cp < 0x800 {
      DecodeTwo(c, rest);
    } else if cp < 0x1_0000 {
      DecodeThree(c, rest);
    } else {
      DecodeFour(c, rest);
    }
  }

  lemma {:induction false} DecodeTwo(c: char, rest: seq<Byte>)
    requires 0x80 <= c as int < 0x800
    ensures DecodeFirst(EncodeChar(c) + rest) == Some((c, 2))
  {
    var cp := c as int;
    var b := EncodeChar(c) + rest;
    assert b[0] == 0xC0 + cp / 64 && b[1] == 0x80 + cp % 64;
    assert (cp / 64) * 64 + cp % 64 == cp;
  }

  lemma {:induction false} DecodeThree(c: char, rest: seq<Byte>)
    requires 0x800 <= c as int < 0x1_0000
    ensures DecodeFirst(EncodeChar(c) + rest) == Some((c, 3))
  {
    var cp := c as int;
    var b := EncodeChar(c) + rest;
    var hi, mid, lo := cp / 4096, (cp / 64) % 64, cp % 64;
    assert cp / 64 == hi * 64 + mid;
    assert cp == hi * 4096 + mid * 64 + lo;
    assert b[0] == 0xE0 + hi && b[1] == 0x80 + mid && b[2] == 0x80 + lo;
    assert hi == 0 ==> mid >= 32;
    assert hi == 13 ==> mid < 32;
  }

  lemma {:induction false} DecodeFour(c: char, rest: seq<Byte>)
    requires 0x1_0000 <= c as int
    ensures DecodeFirst(EncodeChar(c) + rest) == Some((c, 4))
  {
    var cp := c as int;
    var b := EncodeChar(c) + rest;
    var top, hi, mid, lo := cp / 0x4_0000, (cp / 4096) % 64, (cp / 64) % 64, cp % 64;
    FourDigits(cp);
    assert b[0] == 0xF0 + top && b[1] == 0x80 + hi && b[2] == 0x80 + mid && b[3] == 0x80 + lo;
  }

  /** The four six-bit groups of a supplementary scalar value, as the four-byte form stores them. */
  lemma FourDigits(cp: int)
    requires 0x1_0000 <= cp < 0x11_0000
    ensures cp == (cp / 0x4_0000) * 0x4_0000 + ((cp / 4096) % 64) * 4096 + ((cp / 64) % 64) * 64 + cp % 64
    ensures cp / 0x4_0000 == 0 ==> (cp / 4096) % 64 >= 16
    ensures cp / 0x4_0000 == 4 ==> (cp / 4096) % 64 < 16
    ensures cp / 0x4_0000 <= 4
  {
    var top, hi, mid := cp / 0x4_0000, (cp / 4096) % 64, (cp / 64) % 64;
    assert cp / 4096 == top * 64 + hi;
    assert cp / 64 == (cp / 4096) * 64 + mid;
  }

  /** Round trip: `from_utf8(s.as_bytes())` always succeeds and gives `s` back. */
  lemma {:induction false} DecodeEncode(s: string)
    ensures Decode(Encode(s)) == Some(s)
  {
    if s != [] {
      var e, rest := EncodeChar(s[0]), Encode(s[1..]);
      assert Encode(s) == e + rest;
      DecodeFirstEncodeChar(s[0], rest);
      assert (e + rest)[|e|..] == rest;
      DecodeEncode(s[1..]);
      assert [s[0]] + s[1..] == s;
    }
  }

  /** Re-encoding the scalar value that DecodeFirst reads gives back exactly the bytes it consumed. */
  lemma {:induction false} EncodeCharDecodeFirst(b: seq<Byte>)
    requires b != [] && DecodeFirst(b).Some?
    ensures EncodeChar(DecodeFirst(b).value.0) == b[..DecodeFirst(b).value.1]
  {
    var b0 := b[0] as int;
    if b0 < 0x80 {
    } else if b0 <= 0xDF {
      ReencodeTwo(b);
    } else if b0 <= 0xEF {
      ReencodeThree(b);
    } else {
      ReencodeFour(b);
    }
  }

  lemma {:induction false} ReencodeTwo(b: seq<Byte>)
    requires b != [] && 0xC2 <= b[0] <= 0xDF && DecodeFirst(b).Some?
    ensures EncodeChar(DecodeFirst(b).value.0) == b[..2]
  {
    var b0, b1 := b[0] as int, b[1] as int;
    var cp := DecodeFirst(b).value.0 as int;
    assert cp == (b0 - 0xC0) * 64 + (b1 - 0x80);
    assert cp / 64 == b0 - 0xC0 && cp % 64 == b1 - 0x80;
  }

  lemma {:induction false} ReencodeThree(b: seq<Byte>)
    requires b != [] && 0xE0 <= b[0] <= 0xEF && DecodeFirst(b).Some?
    ensures EncodeChar(DecodeFirst(b).value.0) == b[..3]
  {
    var b0, b1, b2 := b[0] as int, b[1] as int, b[2] as int;
    var cp := DecodeFirst(b).value.0 as int;
    var q := (b0 - 0xE0) * 64 + (b1 - 0x80);
    assert cp == q * 64 + (b2 - 0x80);
    assert cp / 64 == q && cp % 64 == b2 - 0x80;
    assert q / 64 == b0 - 0xE0 && q % 64 == b1 - 0x80;
    assert cp / 4096 == q / 64;
  }

  lemma {:induction false} ReencodeFour(b: seq<Byte>)
    requires b != [] && 0xF0 <= b[0] <= 0xF4 && DecodeFirst(b).Some?
    ensures EncodeChar(DecodeFirst(b).value.0) == b[..4]
  {
    var b0, b1, b2, b3 := b[0] as int, b[1] as int, b[2] as int, b[3] as int;
    var cp := DecodeFirst(b).value.0 as int;
    var q1 := (b0 - 0xF0) * 64 + (b1 - 0x80);
    var q2 := q1 * 64 + (b2 - 0x80);
    assert cp == q2 * 64 + (b3 - 0x80);
    assert cp / 64 == q2 && cp % 64 == b3 - 0x80;
    assert q2 / 64 == q1 && q2 % 64 == b2 - 0x80;
    assert q1 / 64 == b0 - 0xF0 && q1 % 64 == b1 - 0x80;
    assert cp / 4096 == q1;
    assert cp / 0x4_0000 == b0 - 0xF0;
  }

  /** The decoder accepts only encodings of strings: whatever it returns re-encodes to its input. */
  lemma {:induction false} EncodeDecode(b: seq<Byte>)
    requires Decode(b).Some?
    ensures Encode(Decode(b).value) == b
    decreases |b|
  {
    if b != [] {
      var c, w := DecodeStep(b);
      var t := Decode(b[w..]).value;
      EncodeDecode(b[w..]);
      EncodeCharDecodeFirst(b);
      EncodeCons(c, t);
      Split(b, w, EncodeChar(c), Encode(t));
    }
  }

  lemma {:induction false} EncodeCons(c: char, t: string)
    ensures Encode([c] + t) == EncodeChar(c) + Encode(t)
  {
    assert ([c] + t)[1..] == t;
  }

  lemma Split(b: seq<Byte>, w: nat, x: seq<Byte>, y: seq<Byte>)
    requires w <= |b| && x == b[..w] && y == b[w..]
    ensures x + y == b
  {
  }

  /** One step of a successful decoding: the first scalar value, then the decoding of the rest. */
  lemma {:induction false} DecodeStep(b: seq<Byte>) returns (c: char, w: nat)
    requires b != [] && Decode(b).Some?
    ensures DecodeFirst(b) == Some((c, w)) && 1 <= w <= |b|
    ensures Decode(b[w..]).Some? && Decode(b).value == [c] + Decode(b[w..]).value
  {
    c, w := DecodeFirst(b).value.0, DecodeFirst(b).value.1;
  }
}
