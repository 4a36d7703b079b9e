/**
 * A Rust `str` is stored as its UTF-8 encoding (RFC 3629), and `as_bytes`
 * exposes exactly those bytes. A Dafny `char` is a Unicode scalar value, so a
 * `string` here stands for a Rust string and `Encode` for `as_bytes`.
 * `Decode` is the strict RFC 3629 decoder; it serves as the inverse that
 * shows the encoding loses nothing.
 */
module Utf8 {
  import opened Primitives

  /** Code points that are not UTF-16 surrogates and lie below 0x110000. */
  predicate IsScalarValue(cp: int) {
    (0 <= cp < 0xD800) || (0xE000 <= cp < 0x11_0000)
  }

  predicate IsContinuation(b: u8) {
    0x80 <= b < 0xC0
  }

  /** The one- to four-byte sequence for one scalar value (section 3 of RFC 3629). */
  function EncodeChar(c: char): (r: seq<u8>)
    ensures 1 <= |r| <= 4
    ensures DecodeChar(r) == Some((c, |r|))
  {
    var cp := c as int;
    if cp < 0x80 then
      [cp]
    else if cp < 0x800 then
      TwoBytes(cp)
    else if cp < 0x1_0000 then
      ThreeBytes(cp)
    else
      FourBytes(cp)
  }

  function TwoBytes(cp: int): (r: seq<u8>)
    requires 0x80 <= cp < 0x800 && IsScalarValue(cp)
    ensures |r| == 2 && DecodeChar(r) == Some((cp as char, 2))
  {
    var r := [0xC0 + cp / 0x40, 0x80 + cp % 0x40];
    assert Bits(r[0], 0xC0) * 0x40 + Bits(r[1], 0x80) == cp;
    r
  }

  function ThreeBytes(cp: int): (r: seq<u8>)
    requires 0x800 <= cp < 0x1_0000 && IsScalarValue(cp)
    ensures |r| == 3 && DecodeChar(r) == Some((cp as char, 3))
  {
    var q := cp / 0x40;
    var r := [0xE0 + q / 0x40, 0x80 + q % 0x40, 0x80 + cp % 0x40];
    assert (Bits(r[0], 0xE0) * 0x40 + Bits(r[1], 0x80)) * 0x40 + Bits(r[2], 0x80) == cp;
    r
  }

  function FourBytes(cp: int): (r: seq<u8>)
    requires 0x1_0000 <= cp < 0x11_0000 && IsScalarValue(cp)
    ensures |r| == 4 && DecodeChar(r) == Some((cp as char, 4))
  {
    var q1 := cp / 0x40;
    var q2 := q1 / 0x40;
    var r := [0xF0 + q2 / 0x40, 0x80 + q2 % 0x40, 0x80 + q1 % 0x40, 0x80 + cp % 0x40];
    assert ((Bits(r[0], 0xF0) * 0x40 + Bits(r[1], 0x80)) * 0x40 + Bits(r[2], 0x80)) * 0x40 + Bits(r[3], 0x80) == cp;
    r
  }

  /**
   * Reads one scalar value from the front of b: its value and the number of
   * bytes it occupies, or None if the front of b is not well-formed UTF-8
   * (a stray continuation byte, a truncated sequence, an overlong form, a
   * surrogate or a value above 0x10FFFF).
   */
  function DecodeChar(b: seq<u8>): (r: Option<(char, nat)>)
    ensures r.Some? ==> 1 <= r.value.1 <= |b| && r.value.1 <= 4
  {
    if |b| == 0 then None
    else if b[0] < 0x80 then Some((b[0] as char, 1))
    else if 0xC2 <= b[0] < 0xE0 && |b| >= 2 && IsContinuation(b[1]) then
      Some(((Bits(b[0], 0xC0) * 0x40 + Bits(b[1], 0x80)) as char, 2))
    else if 0xE0 <= b[0] < 0xF0 && |b| >= 3 && IsContinuation(b[1]) && IsContinuation(b[2]) then
      var cp := (Bits(b[0], 0xE0) * 0x40 + Bits(b[1], 0x80)) * 0x40 + Bits(b[2], 0x80);
      if 0x800 <= cp && IsScalarValue(cp) then Some((cp as char, 3)) else None
    else if 0xF0 <= b[0] < 0xF5 && |b| >= 4 && IsContinuation(b[1]) && IsContinuation(b[2]) && IsContinuation(b[3]) then
      var cp := ((Bits(b[0], 0xF0) * 0x40 + Bits(b[1], 0x80)) * 0x40 + Bits(b[2], 0x80)) * 0x40 + Bits(b[3], 0x80);
      if 0x1_0000 <= cp && IsScalarValue(cp) then Some((cp as char, 4)) else None
    else None
  }

  /** The payload bits of a byte once its marker bits `marker` are removed. */
  function Bits(b: u8, marker: int): int {
    b as int - marker
  }

  /** `str::as_bytes`: the concatenated encodings of the characters. */
  function Encode(s: string): (r: seq<u8>)
    ensures |s| <= |r| <= 4 * |s|
  {
    if s == [] then [] else EncodeChar(s[0]) + Encode(s[1..])
  }

  /** Strict decoding of a whole byte sequence; None if any part is malformed. */
  function Decode(b: seq<u8>): (r: Option<string>)
    ensures r.Some? ==> |r.value| <= |b|
    decreases |b|
  {
    if b == [] then Some([])
    else match DecodeChar(b)
      case None => None
      case Some((c, n)) =>
        match Decode(b[n..])
        case None => None
        case Some(rest) => Some([c] + rest)
  }

  /** A character's decoding only looks at the bytes of its own encoding. */
  lemma DecodeCharPrefix(c: char, rest: seq<u8>)
    ensures DecodeChar(EncodeChar(c) + rest) == Some((c, |EncodeChar(c)|))
  {
    var e := EncodeChar(c);
    assert (e + rest)[..|e|] == e;
    DecodeCharLooksAtPrefix(e, rest);
  }

  lemma DecodeCharLooksAtPrefix(e: seq<u8>, rest: seq<u8>)
    requires DecodeChar(e).Some? && DecodeChar(e).value.1 == |e|
    ensures DecodeChar(e + rest) == DecodeChar(e)
  {
    var b := e + rest;
    assert b[0] == e[0];
    assert |e| >= 2 ==> b[1] == e[1];
    assert |e| >= 3 ==> b[2] == e[2];
    assert |e| >= 4 ==> b[3] == e[3];
  }

  /** Decoding the bytes of a string gives the string back. */
  lemma {:induction false} DecodeEncode(s: string)
    ensures Decode(Encode(s)) == Some(s)
  {
    if s != [] {
      var e := EncodeChar(s[0]);
      var tail := Encode(s[1..]);
      DecodeCharPrefix(s[0], tail);
      assert (e + tail)[|e|..] == tail;
      DecodeEncode(s[1..]);
      assert [s[0]] + s[1..] == s;
    }
  }

  /** A byte sequence that decodes is the encoding of what it decodes to: the decoder is strict. */
  lemma {:induction false} EncodeDecode(b: seq<u8>)
    requires Decode(b).Some?
    ensures Encode(Decode(b).value) == b
    decreases |b|
  {
    if b != [] {
      DecodeStep(b);
      var c, n := DecodeChar(b).value.0, DecodeChar(b).value.1;
      var rest := Decode(b[n..]).value;
      EncodeDecode(b[n..]);
      EncodeCharOfDecodeChar(b);
      EncodeSplit(b, n, c, rest);
    }
  }

  /** Bytes split after n into one character's encoding and a string's encoding are the encoding of both. */
  lemma EncodeSplit(b: seq<u8>, n: nat, c: char, rest: string)
    requires n <= |b| && EncodeChar(c) == b[..n] && Encode(rest) == b[n..]
    ensures Encode([c] + rest) == b
  {
    EncodeCons(c, rest);
    assert b == b[..n] + b[n..];
  }

  lemma EncodeCons(c: char, rest: string)
    ensures Encode([c] + rest) == EncodeChar(c) + Encode(rest)
  {
    var s := [c] + rest;
    assert s[0] == c && s[1..] == rest;
  }

  /** A nonempty byte sequence decodes as its first character followed by the decoding of the rest. */
  lemma DecodeStep(b: seq<u8>)
    requires b != [] && Decode(b).Some?
    ensures DecodeChar(b).Some?
    ensures Decode(b[DecodeChar(b).value.1..]).Some?
    ensures Decode(b).value == [DecodeChar(b).value.0] + Decode(b[DecodeChar(b).value.1..]).value
  {
  }

  /** The bytes a character is read from are exactly its encoding. */
  lemma EncodeCharOfDecodeChar(b: seq<u8>)
    requires DecodeChar(b).Some?
    ensures EncodeChar(DecodeChar(b).value.0) == b[..DecodeChar(b).value.1]
  {
    var n := DecodeChar(b).value.1;
    if n == 2 {
      TwoByteForm(b[0], b[1]);
      assert b[..2] == [b[0], b[1]];
    } else if n == 3 {
      ThreeByteForm(b[0], b[1], b[2]);
      assert b[..3] == [b[0], b[1], b[2]];
    } else if n == 4 {
      FourByteForm(b[0], b[1], b[2], b[3]);
      assert b[..4] == [b[0], b[1], b[2], b[3]];
    }
  }

  lemma TwoByteForm(b0: u8, b1: u8)
    requires 0xC2 <= b0 < 0xE0 && IsContinuation(b1)
    ensures var cp := Bits(b0, 0xC0) * 0x40 + Bits(b1, 0x80);
      0x80 <= cp < 0x800 && EncodeChar(cp as char) == [b0, b1]
  {
  }

  lemma ThreeByteForm(b0: u8, b1: u8, b2: u8)
    requires 0xE0 <= b0 < 0xF0 && IsContinuation(b1) && IsContinuation(b2)
    requires var cp := (Bits(b0, 0xE0) * 0x40 + Bits(b1, 0x80)) * 0x40 + Bits(b2, 0x80);
      0x800 <= cp && IsScalarValue(cp)
    ensures var cp := (Bits(b0, 0xE0) * 0x40 + Bits(b1, 0x80)) * 0x40 + Bits(b2, 0x80);
      cp < 0x1_0000 && EncodeChar(cp as char) == [b0, b1, b2]
  {
    var q := Bits(b0, 0xE0) * 0x40 + Bits(b1, 0x80);
    var cp := q * 0x40 + Bits(b2, 0x80);
    assert cp / 0x40 == q && cp % 0x40 == Bits(b2, 0x80);
    assert q / 0x40 == Bits(b0, 0xE0) && q % 0x40 == Bits(b1, 0x80);
  }

  lemma FourByteForm(b0: u8, b1: u8, b2: u8, b3: u8)
    requires 0xF0 <= b0 < 0xF5 && IsContinuation(b1) && IsContinuation(b2) && IsContinuation(b3)
    requires var cp := ((Bits(b0, 0xF0) * 0x40 + Bits(b1, 0x80)) * 0x40 + Bits(b2, 0x80)) * 0x40 + Bits(b3, 0x80);
      0x1_0000 <= cp && IsScalarValue(cp)
    ensures var cp := ((Bits(b0, 0xF0) * 0x40 + Bits(b1, 0x80)) * 0x40 + Bits(b2, 0x80)) * 0x40 + Bits(b3, 0x80);
      EncodeChar(cp as char) == [b0, b1, b2, b3]
  {
    var q2 := Bits(b0, 0xF0) * 0x40 + Bits(b1, 0x80);
    var q1 := q2 * 0x40 + Bits(b2, 0x80);
    var cp := q1 * 0x40 + Bits(b3, 0x80);
    assert cp / 0x40 == q1 && cp % 0x40 == Bits(b3, 0x80);
    assert q1 / 0x40 == q2 && q1 % 0x40 == Bits(b2, 0x80);
    assert q2 / 0x40 == Bits(b0, 0xF0) && q2 % 0x40 == Bits(b1, 0x80);
  }

  /** Distinct strings have distinct bytes. */
  lemma EncodeInjective(s: string, t: string)
    requires Encode(s) == Encode(t)
    ensures s == t
  {
    DecodeEncode(s);
    DecodeEncode(t);
  }
}
