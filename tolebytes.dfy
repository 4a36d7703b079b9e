/**
 * The `ToLeBytes` trait: `as_le_bytes` returns the little-endian bytes of a
 * 32-, 64- or 128-bit integer (two's complement for the signed types). It is
 * implemented for u32, u64, u128, i32, i64 and i128 only, so those are the
 * only six functions here.
 */
module ToLeBytes {
  import opened Primitives
  import ToBytes

  function U32AsLeBytes(x: u32): (r: seq<u8>)
    ensures |r| == 4 && FromLeBytes(r) == x
  {
    Pow256Widths();
    LeBytes(x, 4)
  }

  function U64AsLeBytes(x: u64): (r: seq<u8>)
    ensures |r| == 8 && FromLeBytes(r) == x
  {
    Pow256Widths();
    LeBytes(x, 8)
  }

  function U128AsLeBytes(x: u128): (r: seq<u8>)
    ensures |r| == 16 && FromLeBytes(r) == x
  {
    Pow256Widths();
    LeBytes(x, 16)
  }

  function I32AsLeBytes(x: i32): (r: seq<u8>)
    ensures |r| == 4 && AsSigned(FromLeBytes(r), 4) == x
  {
    Pow256Widths();
    LeBytes(AsUnsigned(x, 4), 4)
  }

  function I64AsLeBytes(x: i64): (r: seq<u8>)
    ensures |r| == 8 && AsSigned(FromLeBytes(r), 8) == x
  {
    Pow256Widths();
    LeBytes(AsUnsigned(x, 8), 8)
  }

  function I128AsLeBytes(x: i128): (r: seq<u8>)
    ensures |r| == 16 && AsSigned(FromLeBytes(r), 16) == x
  {
    Pow256Widths();
    LeBytes(AsUnsigned(x, 16), 16)
  }

  /** For each of the six types, `as_le_bytes` and `ToBytes::to_bytes` give the same bytes. */
  lemma AsLeBytesAgreesWithToBytes(a: u32, b: u64, c: u128, d: i32, e: i64, f: i128)
    ensures U32AsLeBytes(a) == ToBytes.U32ToBytes(a)
    ensures U64AsLeBytes(b) == ToBytes.U64ToBytes(b)
    ensures U128AsLeBytes(c) == ToBytes.U128ToBytes(c)
    ensures I32AsLeBytes(d) == ToBytes.I32ToBytes(d)
    ensures I64AsLeBytes(e) == ToBytes.I64ToBytes(e)
    ensures I128AsLeBytes(f) == ToBytes.I128ToBytes(f)
  {
  }
}
