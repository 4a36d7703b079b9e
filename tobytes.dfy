/**
 * The `ToBytes` trait: how each element type the sketch accepts is turned
 * into the bytes that are hashed, and the `TYPE_ID` tag each type declares.
 * Integers become their fixed-width little-endian bytes (two's complement for
 * the signed types); `&str` and `String` become their UTF-8 bytes.
 * `f32` and `f64` keep only their tags here (their native-endian float
 * encodings are not part of this model).
 */
module ToBytes {
  import opened Primitives
  import Utf8

  /** The types that implement `ToBytes`. */
  datatype ElementType =
    | U8 | U16 | U32 | U64 | U128
    | I8 | I16 | I32 | I64 | I128
    | F32 | F64
    | Str | OwnedString

  /** The bytes of an ASCII string literal such as `b"u8"`. */
  function Ascii(s: string): (r: seq<u8>)
    requires forall i :: 0 <= i < |s| ==> s[i] as int < 0x80
    ensures |r| == |s|
    ensures forall i :: 0 <= i < |s| ==> r[i] == s[i] as int
  {
    if s == [] then [] else [s[0] as int] + Ascii(s[1..])
  }

  /** The text of each `TYPE_ID` literal. */
  function TypeName(t: ElementType): string {
    match t
    case U8 => "u8"
    case U16 => "u16"
    case U32 => "u32"
    case U64 => "u64"
    case U128 => "u128"
    case I8 => "i8"
    case I16 => "i16"
    case I32 => "i32"
    case I64 => "i64"
    case I128 => "i128"
    case F32 => "f32"
    case F64 => "f64"
    case Str => "&str"
    case OwnedString => "String"
  }

  /** `TYPE_ID`, the byte-string tag each implementation declares. */
  function TypeId(t: ElementType): (r: seq<u8>)
    ensures 2 <= |r| <= 6
  {
    Ascii(TypeName(t))
  }

  /** No two element types share a `TYPE_ID`, in particular not `&str` and `String`. */
  lemma TypeIdInjective(s: ElementType, t: ElementType)
    requires TypeId(s) == TypeId(t)
    ensures s == t
  {
    var a, b := TypeName(s), TypeName(t);
    assert |a| == |b|;
    assert a[0] == b[0] && a[|a| - 1] == b[|b| - 1] by {
      assert TypeId(s)[0] == TypeId(t)[0];
      assert TypeId(s)[|a| - 1] == TypeId(t)[|b| - 1];
    }
  }

  /** `u8::to_bytes`: the value itself as the only byte. */
  function U8ToBytes(x: u8): (r: seq<u8>)
    ensures |r| == 1 && FromLeBytes(r) == x
  {
    [x]
  }

  function U16ToBytes(x: u16): (r: seq<u8>)
    ensures |r| == 2 && FromLeBytes(r) == x
  {
    Pow256Widths();
    LeBytes(x, 2)
  }

  function U32ToBytes(x: u32): (r: seq<u8>)
    ensures |r| == 4 && FromLeBytes(r) == x
  {
    Pow256Widths();
    LeBytes(x, 4)
  }

  function U64ToBytes(x: u64): (r: seq<u8>)
    ensures |r| == 8 && FromLeBytes(r) == x
  {
    Pow256Widths();
    LeBytes(x, 8)
  }

  function U128ToBytes(x: u128): (r: seq<u8>)
    ensures |r| == 16 && FromLeBytes(r) == x
  {
    Pow256Widths();
    LeBytes(x, 16)
  }

  /** `i8::to_bytes`: the value cast to `u8` as the only byte. */
  function I8ToBytes(x: i8): (r: seq<u8>)
    ensures |r| == 1 && AsSigned(FromLeBytes(r), 1) == x
  {
    Pow256Widths();
    [AsUnsigned(x, 1)]
  }

  function I16ToBytes(x: i16): (r: seq<u8>)
    ensures |r| == 2 && AsSigned(FromLeBytes(r), 2) == x
  {
    Pow256Widths();
    LeBytes(AsUnsigned(x, 2), 2)
  }

  function I32ToBytes(x: i32): (r: seq<u8>)
    ensures |r| == 4 && AsSigned(FromLeBytes(r), 4) == x
  {
    Pow256Widths();
    LeBytes(AsUnsigned(x, 4), 4)
  }

  function I64ToBytes(x: i64): (r: seq<u8>)
    ensures |r| == 8 && AsSigned(FromLeBytes(r), 8) == x
  {
    Pow256Widths();
    LeBytes(AsUnsigned(x, 8), 8)
  }

  function I128ToBytes(x: i128): (r: seq<u8>)
    ensures |r| == 16 && AsSigned(FromLeBytes(r), 16) == x
  {
    Pow256Widths();
    LeBytes(AsUnsigned(x, 16), 16)
  }

  /** `<&str>::to_bytes`: the UTF-8 bytes of the text. */
  function StrToBytes(s: string): (r: seq<u8>)
    ensures Utf8.Decode(r) == Some(s)
  {
    Utf8.DecodeEncode(s);
    Utf8.Encode(s)
  }

  /** `String::to_bytes`: the UTF-8 bytes of the text. */
  function StringToBytes(s: string): (r: seq<u8>)
    ensures Utf8.Decode(r) == Some(s)
  {
    Utf8.DecodeEncode(s);
    Utf8.Encode(s)
  }

  /** The same text gives the same bytes whether it is borrowed or owned. */
  lemma StrAndStringAgree(s: string)
    ensures StrToBytes(s) == StringToBytes(s)
  {
  }

  /** The special-cased single-byte impls agree with the little-endian rule of the others. */
  lemma SingleByteImplsAreLittleEndian(x: u8, y: i8)
    ensures U8ToBytes(x) == LeBytes(x, 1)
    ensures I8ToBytes(y) == LeBytes(AsUnsigned(y, 1), 1)
  {
  }

  /**
   * Within each signed type every byte string of the right width is the
   * encoding of exactly one value: the encoding is a bijection, so no two
   * values of one type are merged by the sketch.
   */
  lemma {:induction false} SignedEncodingOnto(b: seq<u8>)
    ensures |b| == 1 ==> I8ToBytes(AsSigned(FromLeBytes(b), 1)) == b
    ensures |b| == 2 ==> I16ToBytes(AsSigned(FromLeBytes(b), 2)) == b
    ensures |b| == 4 ==> I32ToBytes(AsSigned(FromLeBytes(b), 4)) == b
    ensures |b| == 8 ==> I64ToBytes(AsSigned(FromLeBytes(b), 8)) == b
    ensures |b| == 16 ==> I128ToBytes(AsSigned(FromLeBytes(b), 16)) == b
  {
    Pow256Widths();
    if |b| in {1, 2, 4, 8, 16} {
      AsUnsignedOfAsSigned(FromLeBytes(b), |b|);
      LeBytesOfFromLeBytes(b);
    }
  }

  /** Within each unsigned type every byte string of the right width is the encoding of exactly one value. */
  lemma {:induction false} UnsignedEncodingOnto(b: seq<u8>)
    ensures |b| == 1 ==> U8ToBytes(FromLeBytes(b)) == b
    ensures |b| == 2 ==> U16ToBytes(FromLeBytes(b)) == b
    ensures |b| == 4 ==> U32ToBytes(FromLeBytes(b)) == b
    ensures |b| == 8 ==> U64ToBytes(FromLeBytes(b)) == b
    ensures |b| == 16 ==> U128ToBytes(FromLeBytes(b)) == b
  {
    Pow256Widths();
    LeBytesOfFromLeBytes(b);
  }
}
