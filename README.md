# HyperLogLog: a Dafny model

This project models the core of the `hyperloglog` Rust crate, a
HyperLogLog cardinality sketch, and proves its properties:

- **`HyperLogLog<T>`** (`Hll.HyperLogLog`, file `hll.dfy`) is a class.
  It holds the precision `p`, the register count `m = 2^p` and an array of
  `u32` registers ("buckets").
  - `Insert` hashes an item. The top `p` bits of the 64-bit hash pick a
    register. The register takes the larger of its value and the rank.
    The rank is one more than the number of leading zeros of `hash << p`.
    `Insert` is proved against the value-level function `Hll.Update`.
  - `CalculateCardinality` returns the integer part of the estimator: the
    exact answer 0 for an empty sketch, or else the number of zero
    registers and the alpha constant the floating-point formula uses.
  - Lemmas about `Update` and `InsertAll` (a fold of `Update` over a
    sequence of hashes) state what the registers hold after any sequence
    of inserts. They show the result does not depend on the order or
    repetition of the inserts.
- **`ToBytes`** (`tobytes.dfy`) turns each element type into the bytes
  that get hashed, and gives each type its `TYPE_ID` tag. Integers become
  their little-endian bytes; signed integers use two's complement.
  `&str` and `String` become their UTF-8 bytes, modelled in `utf8.dfy`
  after RFC 3629. Each encoding is proved injective: it has a decoder as
  left inverse. The fixed-width ones are also onto.
- **`ToLeBytes`** (`tolebytes.dfy`) implements `as_le_bytes` for six
  integer types. It agrees with `to_bytes`.
- **`HyperLogLogError`** (`error.dfy`) covers the error variants and
  their `Display` messages. Distinct errors have distinct messages.
- **`primitives.dfy`** holds the Rust integer operations the rest uses:
  - the shifts `>>` and `<<` on `u64`, with the bits `<<` drops written
    out;
  - `leading_zeros`;
  - `to_le_bytes`;
  - `as` casts between signed and unsigned.

The hash function `xxh3_64` and the element type's `to_bytes` are
parameters of the class, given to its constructor. `HashInput` is their
composition. Nothing is assumed about the hash function, so what the model
states about hashing is only that equal bytes hash alike
(`InsertColliding`).

Points where the code behaves in a way a reader of HyperLogLog might not
expect, and which the model follows:

- **Rank of an all-zero remainder.** When the low `64 - p` bits of a
  hash are all zero, `hash << p` is 0. `leading_zeros` then returns 64,
  so the rank is 65. The code has no clamp. `Hll.Rank` and
  `Hll.ReachableRegister` state the 65 case.
- **`new` accepts any precision.** It does not check `p` against the
  `PrecisionBelowThreshold` and `PrecisionTooLarge` errors, and no code
  in `src/lib.rs` returns those errors.
  - With `p < 4`, `calculate_cardinality` panics once any register is
    nonzero, because no alpha constant exists for that register count.
    This is the precondition of `CalculateCardinality`.
  - With `p >= 64`, `2_usize.pow(p)` overflows. This is the precondition
    of the constructor. From `p = 61` on, the register vector is already
    too large to allocate; the model does not capture allocation limits.
  - `insert` with `p = 0` shifts a `u64` right by 64. With overflow
    checks on, that shift panics. With them off, the shift amount is
    masked to 0, so `bucket_index` is the hash itself. The single-register
    vector then panics on the index at `src/lib.rs:73` for every nonzero
    hash, and a zero hash sets register 0 to 65. The `p >= 1` in the
    precondition of `Insert` excludes both paths.
- **Small-range correction.** `src/lib.rs:60-61` uses `m * m / ln(zeros)`
  when the raw estimate is at most `2.5 * m * m`. This is not the usual
  `m * ln(m / zeros)` when the raw estimate is at most `2.5 * m`. The
  model keeps only the integer inputs of that formula; see Left out.

## Model

| member | source | states |
|---|---|---|
| Hll.HyperLogLog.constructor | src/lib.rs:21-27 | `m = 2^p` registers, all zero; the sketch invariant holds (needs `p < 64`, where `2_usize.pow` does not overflow) |
| Hll.HyperLogLog.Insert | src/lib.rs:68-74 | the new registers are `Update` of the old ones with the item's hash; the invariant is kept |
| Hll.HyperLogLog.CalculateCardinality | src/lib.rs:35-56 | result is exactly 0 iff every register is zero; otherwise it carries the number of zero registers (fewer than `m`) and the alpha for `m` (16, 32, 64 or at least 128) |
| Hll.BucketIndex | src/lib.rs:70 | the index is below `2^p` and is the top `p` bits: `idx * 2^(64-p) <= hash < (idx+1) * 2^(64-p)` |
| Hll.LowBits | src/lib.rs:71 | the part of the hash left after the index bits is below `2^(64-p)` |
| Hll.Rank | src/lib.rs:71-72 | 65 when the low `64-p` bits are zero; otherwise in `[1, 64-p]` and the position of their leftmost one-bit |
| Hll.ShiftedRemainder | src/lib.rs:71-72 | `leading_zeros(hash << p) + 1` equals the leading zeros of the `(64-p)`-bit remainder plus one, or 65 if the remainder is zero |
| Hll.ZeroHashTarget | src/lib.rs:70-72 | the hash 0 goes to bucket 0 with rank 65 |
| Hll.Update | src/lib.rs:73 | one insert keeps the register count |
| Hll.UpdateFrame | src/lib.rs:73 | one insert sets the target register to the max of its value and the rank, changes no other register and lowers none |
| Hll.UpdateKeepsRegistersReachable | src/lib.rs:72-73 | every register stays 0, 65 or in `[1, 64-p]` |
| Hll.UpdateIdempotent | src/lib.rs:73 | inserting the same hash twice equals inserting it once |
| Hll.UpdateCommutes | src/lib.rs:73 | two inserts commute |
| Hll.InsertAll | src/lib.rs:68-74 | a sequence of inserts keeps the register count |
| Hll.InsertAllRegister | src/lib.rs:68-74 | after any sequence of inserts a register is the max of its old value and the ranks of the hashes sent to it: at least each, and equal to one of them |
| Hll.InsertAllDependsOnlyOnHashes | src/lib.rs:68-74 | two hash sequences with the same elements give the same registers, whatever the order and repetition |
| Hll.InsertAllPermutation | src/lib.rs:68-74 | a permutation of the inserts gives the same registers |
| Hll.ConstantZeroHash | src/lib.rs:68-74 | with a hash that is always 0, any nonempty run of inserts leaves register 0 at 65 and every other register at 0 |
| Hll.ConstantZeroHashRegister | src/lib.rs:68-74 | with a hash that is always 0, register 0 ends at 65 and every other register at 0 |
| Hll.InsertAllLeavesNonzeroRegister | src/lib.rs:40-46 | after at least one insert fewer than `m` registers are zero, so the estimator does not take the early return |
| Hll.ZeroBuckets | src/lib.rs:40 | the count of zero registers equals the multiplicity of 0 among them; it is `m` exactly when all are zero |
| Hll.AlphaFor | src/lib.rs:50-56 | the alpha arm is the one for 16, 32 or 64 exactly when `m` is that count, and the large-`m` arm exactly when `m >= 128` |
| Hll.HyperLogLog.InsertColliding | src/lib.rs:30-32 | two items whose `to_bytes` are equal get the same `hash_input`, so inserting both leaves the registers of one insert (the colliding-item scenario of tests/integer_tests.rs:178-192) |
| Hll.CollidingInserts | src/lib.rs:68-74 | any nonempty run of inserts of one and the same hash gives the registers of a single insert |
| Hll.SupportedRegisterCountIffPrecisionAtLeast4 | src/lib.rs:50-56 | for `m = 2^p` an alpha constant exists exactly when `p >= 4` |
| Primitives.ShiftRight | src/lib.rs:70 | `x >> k` is the quotient of `x` by `2^k` |
| Primitives.ShiftLeft | src/lib.rs:71 | `x << k` on `u64` drops the top `k` bits: `(x mod 2^(64-k)) * 2^k` |
| Primitives.LeadingZerosIn | src/lib.rs:72 | the count is `w` iff the value is 0; otherwise the leftmost one-bit of the value is at bit `w-n-1` |
| Primitives.LeadingZerosScaled | src/lib.rs:71-72 | shifting a nonzero value left by `k` inside a word `k` bits wider keeps its leading-zero count |
| Primitives.LeadingZeros | src/lib.rs:72 | `u64::leading_zeros` is at most 64, and 64 iff the value is 0 |
| Primitives.Max | src/lib.rs:73 | `max` is one of its arguments and at least both |
| Primitives.LeBytes | src/tobytes.rs:16-46 | `to_le_bytes` has `n` bytes that read back to the value |
| Primitives.LeBytesOfFromLeBytes | src/tobytes.rs:16-46 | every byte string is the little-endian encoding of the number it denotes |
| Primitives.AsUnsigned | src/tobytes.rs:48-87 | the `as` cast of a signed value to the unsigned type of the same width is below `256^n` and casts back to the value |
| Primitives.AsSigned | src/tobytes.rs:48-87 | the reverse cast lands in the signed range |
| Primitives.AsUnsignedOfAsSigned | src/tobytes.rs:48-87 | the two casts are inverse in the other direction too |
| ToBytes.Ascii | src/tobytes.rs:13 | a byte-string literal has one byte per character, equal to its code |
| ToBytes.TypeId | src/tobytes.rs:4 | each `TYPE_ID` has 2 to 6 bytes |
| ToBytes.TypeIdInjective | src/tobytes.rs:4-120 | no two element types share a `TYPE_ID` |
| ToBytes.U8ToBytes | src/tobytes.rs:8-14 | one byte, the value itself |
| ToBytes.U16ToBytes | src/tobytes.rs:16-22 | two bytes that read back little-endian to the value |
| ToBytes.U32ToBytes | src/tobytes.rs:24-30 | four bytes that read back little-endian to the value |
| ToBytes.U64ToBytes | src/tobytes.rs:32-38 | eight bytes that read back little-endian to the value |
| ToBytes.U128ToBytes | src/tobytes.rs:40-46 | sixteen bytes that read back little-endian to the value |
| ToBytes.I8ToBytes | src/tobytes.rs:48-55 | one byte, which casts back to the value |
| ToBytes.I16ToBytes | src/tobytes.rs:57-63 | two bytes that read back, as two's complement, to the value |
| ToBytes.I32ToBytes | src/tobytes.rs:65-71 | four bytes that read back, as two's complement, to the value |
| ToBytes.I64ToBytes | src/tobytes.rs:73-79 | eight bytes that read back, as two's complement, to the value |
| ToBytes.I128ToBytes | src/tobytes.rs:81-87 | sixteen bytes that read back, as two's complement, to the value |
| ToBytes.StrToBytes | src/tobytes.rs:107-113 | the bytes of a `&str` decode as UTF-8 back to the text |
| ToBytes.StringToBytes | src/tobytes.rs:115-121 | the bytes of a `String` decode as UTF-8 back to the text |
| ToBytes.StrAndStringAgree | src/tobytes.rs:107-121 | borrowed and owned text give the same bytes |
| ToBytes.SingleByteImplsAreLittleEndian | src/tobytes.rs:8-14 | the `u8` and `i8` impls agree with the one-byte little-endian rule |
| ToBytes.SignedEncodingOnto | src/tobytes.rs:48-87 | every byte string of a signed type's width encodes exactly one value of that type |
| ToBytes.UnsignedEncodingOnto | src/tobytes.rs:8-46 | every byte string of an unsigned type's width encodes exactly one value of that type |
| Utf8.EncodeChar | src/tobytes.rs:109 | a character has a 1- to 4-byte encoding that decodes back to it |
| Utf8.Encode | src/tobytes.rs:109 | a string of `k` characters has between `k` and `4k` bytes |
| Utf8.DecodeEncode | src/tobytes.rs:109 | decoding the UTF-8 bytes of a string gives the string back |
| Utf8.EncodeDecode | src/tobytes.rs:109 | every byte sequence that decodes is the encoding of its decoding, so the decoder is a two-sided inverse on its domain |
| Utf8.EncodeInjective | src/tobytes.rs:107-121 | distinct texts are hashed from distinct bytes |
| ToLeBytes.U32AsLeBytes | src/tolebytes.rs:5-17 | four bytes that read back little-endian to the value |
| ToLeBytes.U64AsLeBytes | src/tolebytes.rs:5-17 | eight bytes that read back little-endian to the value |
| ToLeBytes.U128AsLeBytes | src/tolebytes.rs:5-17 | sixteen bytes that read back little-endian to the value |
| ToLeBytes.I32AsLeBytes | src/tolebytes.rs:5-17 | four bytes that read back, as two's complement, to the value |
| ToLeBytes.I64AsLeBytes | src/tolebytes.rs:5-17 | eight bytes that read back, as two's complement, to the value |
| ToLeBytes.I128AsLeBytes | src/tolebytes.rs:5-17 | sixteen bytes that read back, as two's complement, to the value |
| ToLeBytes.AsLeBytesAgreesWithToBytes | src/tolebytes.rs:17 | for all six types `as_le_bytes` equals `to_bytes` |
| Error.Decimal | src/error.rs:16 | `{}` of an integer gives nonempty decimal digits, with no leading zero, that parse back to the number |
| Error.Display | src/error.rs:12-30 | a mismatch message is "Precision mismatch: expected ", the expected precision in decimal, ", found " and the found precision in decimal, in that order; a merge failure is "Merge failed " followed by the caller's text; the two remaining variants print their fixed texts |
| Error.Source | src/error.rs:33-35 | `source` is `None` for every variant |
| Error.Cause | src/error.rs:32-40 | `cause` is `None` for every variant |
| Error.MergeFailedMessage | src/error.rs:18-20 | a merge-failure message is the fixed prefix followed by the caller's text, verbatim |
| Error.DecimalInjective | src/error.rs:16 | distinct numbers print differently |
| Error.LeadingDigitsOf | src/error.rs:16 | the digit run at the front of digits-then-non-digit is exactly the digits |
| Error.SplitAtSeparator | src/error.rs:16 | the two numbers of a mismatch message are split unambiguously at the separator |
| Error.MismatchMessageInjective | src/error.rs:15-17 | the expected and found precisions can be read back from the mismatch message |
| Error.MessageShape | src/error.rs:14-28 | the first and eleventh characters tell the four message forms apart |
| Error.DisplayInjective | src/error.rs:12-30 | distinct errors have distinct messages |

## Left out

- The floating-point estimate of `calculate_cardinality` (`src/lib.rs:36-38`, `48` and `58-64`) is left out. This is floating-point arithmetic: powers of 2, `ln`, rounding and the cast to `u64`. `CalculateCardinality` returns only its integer inputs: the zero-register count and which alpha constant applies.
- Hll.HyperLogLog.CalculateCardinality: the panic for a register count without an alpha constant is a precondition, not an error path.
- The `f32` and `f64` impls of `to_bytes` (`src/tobytes.rs:90-104`) are left out, because `to_ne_bytes` depends on the platform's byte order and float encodings are outside the model. Their `TYPE_ID` tags are modelled.
- The `xxh3_64` hash function is a parameter of the class and its internals are not modelled, because it comes from the `xxhash_rust` crate.
- The `usize` width of `m` and `bucket_index` is not modelled. Under the constructor's precondition `m` is at most `2^63` and every bucket index is below `m`.
- Hll.HyperLogLog.constructor: `requires p < 64` leaves out the overflow of `2_usize.pow(p)` for `p >= 64` (a panic with overflow checks on, a wrapped `m` without). Allocation limits are not modelled either: `Vec::with_capacity(m)` of `u32` panics with "capacity overflow" once `4 * 2^p` bytes exceed `isize::MAX`, that is for every `p >= 61`, and a real allocator fails well before that; the model's array allocation succeeds for every `p < 64`.
- Hll.HyperLogLog.Insert: `requires p >= 1` leaves out `p = 0`, where the shift by 64 panics with overflow checks on, and otherwise the index panics for every nonzero hash while a zero hash sets register 0 to 65.
- `src/main.rs`, the `examples/` programs and the test files are not part of this model. Their scenarios appear as lemmas where the library promises something: `ConstantZeroHash` and `InsertAllLeavesNonzeroRegister`.
- Merging, resetting, custom hasher builders (`with_hasher`), getters, serialization and a fallible constructor are used by the tests but are not in `src/lib.rs`, so they are not part of this model.
- `Debug` formatting of the error type is not modelled, because it is derived and not part of the library's behaviour.
