/**
 * The HyperLogLog sketch of Flajolet, Fusy, Gandouet and Meunier (2007): a
 * precision p, m = 2^p registers ("buckets"), and the insertion rule that
 * splits a 64-bit hash into a bucket index (its top p bits) and a rank (one
 * more than the number of leading zeros of the remaining 64 - p bits).
 *
 * The first half of the module states the register arithmetic on values; the
 * class at the end is the sketch object, whose `Insert` updates one array cell
 * in place and is proved against `Update`.
 */
module Hll {
  import opened Primitives

  /** The rank of a hash whose low 64 - p bits are all zero (there is no clamp). */
  const ZeroRemainderRank := 65

  /** The precisions for which `insert` is defined: the shift by 64 - p must stay below 64. */
  predicate InsertablePrecision(p: nat) {
    1 <= p <= 63
  }

  /** `hash >> (64 - p)`: the top p bits of the hash select the bucket. */
  function BucketIndex(hash: u64, p: nat): (idx: nat)
    requires InsertablePrecision(p)
    ensures idx < Pow2(p)
    ensures idx * Pow2(64 - p) <= hash < (idx + 1) * Pow2(64 - p)
  {
    var idx := ShiftRight(hash, 64 - p);
    TopBitsBelowBucketCount(hash, idx, p);
    idx
  }

  lemma TopBitsBelowBucketCount(hash: u64, idx: nat, p: nat)
    requires InsertablePrecision(p)
    requires idx * Pow2(64 - p) <= hash
    ensures idx < Pow2(p)
  {
    Pow2Add(64 - p, p);
    Pow2Of64();
    if idx >= Pow2(p) {
      MulMonotone(Pow2(p), idx, Pow2(64 - p));
    }
  }

  /** The 64 - p low bits of the hash, the part that is left once the index is taken. */
  function LowBits(hash: u64, p: nat): (w: nat)
    requires InsertablePrecision(p)
    ensures w < Pow2(64 - p)
  {
    hash % Pow2(64 - p)
  }

  /**
   * `(hash << p).leading_zeros() + 1`. For a nonzero remainder this is the
   * position of its leftmost one-bit, counted from the top of the 64 - p bit
   * word; an all-zero remainder gives 65.
   */
  function Rank(hash: u64, p: nat): (r: nat)
    requires InsertablePrecision(p)
    ensures LowBits(hash, p) == 0 ==> r == ZeroRemainderRank
    ensures LowBits(hash, p) != 0 ==> 1 <= r <= 64 - p
    ensures LowBits(hash, p) != 0 ==> r == LeadingZerosIn(LowBits(hash, p), 64 - p) + 1
    ensures LowBits(hash, p) != 0 ==> Pow2(64 - p - r) <= LowBits(hash, p) < Pow2(64 - p + 1 - r)
  {
    var remaining := ShiftLeft(hash, p);
    ShiftedRemainder(hash, p);
    LeftmostOneBit(LowBits(hash, p), 64 - p, LeadingZeros(remaining) + 1);
    LeadingZeros(remaining) + 1
  }

  /** Shifting out the index bits leaves the remainder at the top of the 64-bit word. */
  lemma ShiftedRemainder(hash: u64, p: nat)
    requires InsertablePrecision(p)
    ensures var low, r := LowBits(hash, p), LeadingZeros(ShiftLeft(hash, p)) + 1;
      && (low == 0 ==> r == ZeroRemainderRank)
      && (low != 0 ==> r == LeadingZerosIn(low, 64 - p) + 1)
  {
    var low := LowBits(hash, p);
    RankOfRemainder(low, p, ShiftLeft(hash, p));
  }

  /** The rank read off a remainder once it has been shifted to the top of the 64-bit word. */
  lemma RankOfRemainder(low: nat, p: nat, shifted: u64)
    requires InsertablePrecision(p) && low < Pow2(64 - p) && shifted == low * Pow2(p)
    ensures var r := LeadingZeros(shifted) + 1;
      && (low == 0 ==> r == ZeroRemainderRank)
      && (low != 0 ==> r == LeadingZerosIn(low, 64 - p) + 1)
  {
    if low != 0 {
      ScaledRemainder(low, p, shifted);
    }
  }

  /** One more than the leading-zero count of a nonzero w-bit word is the position of its leftmost one-bit, counted from the top. */
  lemma LeftmostOneBit(x: nat, w: nat, r: nat)
    requires x < Pow2(w)
    requires x != 0 ==> r == LeadingZerosIn(x, w) + 1
    ensures x != 0 ==> 1 <= r <= w && Pow2(w - r) <= x < Pow2(w + 1 - r)
  {
  }

  lemma ScaledRemainder(low: nat, p: nat, shifted: u64)
    requires InsertablePrecision(p) && 0 < low < Pow2(64 - p) && shifted == low * Pow2(p)
    ensures LeadingZeros(shifted) == LeadingZerosIn(low, 64 - p)
  {
    LeadingZerosScaled(low, 64 - p, p);
    assert 64 - p + p == 64;
    Pow2Of64();
  }

  /** A register value that some sequence of inserts at precision p can produce. */
  predicate ReachableRegister(v: int, p: nat) {
    v == 0 || v == ZeroRemainderRank || 1 <= v <= 64 - p
  }

  predicate RegistersReachable(regs: seq<u32>, p: nat) {
    forall i :: 0 <= i < |regs| ==> ReachableRegister(regs[i], p)
  }

  /** m registers that are all zero. */
  function Zeros(m: nat): (r: seq<u32>)
    ensures |r| == m
    ensures forall i :: 0 <= i < m ==> r[i] == 0
  {
    seq(m, _ => 0)
  }

  /** The registers after inserting one hash: the target register becomes the larger of its value and the rank. */
  function Update(regs: seq<u32>, hash: u64, p: nat): (r: seq<u32>)
    requires InsertablePrecision(p) && |regs| == Pow2(p)
    ensures |r| == |regs|
  {
    var idx := BucketIndex(hash, p);
    regs[idx := Max(regs[idx], Rank(hash, p))]
  }

  /** An insert touches one register, never lowers it, and leaves every other register as it was. */
  lemma UpdateFrame(regs: seq<u32>, hash: u64, p: nat)
    requires InsertablePrecision(p) && |regs| == Pow2(p)
    ensures var r, idx := Update(regs, hash, p), BucketIndex(hash, p);
      && r[idx] == Max(regs[idx], Rank(hash, p))
      && (forall i :: 0 <= i < |regs| && i != idx ==> r[i] == regs[i])
      && (forall i :: 0 <= i < |regs| ==> regs[i] <= r[i])
  {
  }

  /** The register values an insert can produce keep to 0, 65 and [1, 64 - p]. */
  lemma UpdateKeepsRegistersReachable(regs: seq<u32>, hash: u64, p: nat)
    requires InsertablePrecision(p) && |regs| == Pow2(p)
    requires RegistersReachable(regs, p)
    ensures RegistersReachable(Update(regs, hash, p), p)
  {
  }

  /** Inserting a hash a second time changes nothing. */
  lemma UpdateIdempotent(regs: seq<u32>, hash: u64, p: nat)
    requires InsertablePrecision(p) && |regs| == Pow2(p)
    ensures Update(Update(regs, hash, p), hash, p) == Update(regs, hash, p)
  {
  }

  /** Two inserts give the same registers in either order. */
  lemma UpdateCommutes(regs: seq<u32>, h1: u64, h2: u64, p: nat)
    requires InsertablePrecision(p) && |regs| == Pow2(p)
    ensures Update(Update(regs, h1, p), h2, p) == Update(Update(regs, h2, p), h1, p)
  {
  }

  /** The registers after inserting the hashes one after another, first to last. */
  function InsertAll(regs: seq<u32>, hashes: seq<u64>, p: nat): (r: seq<u32>)
    requires InsertablePrecision(p) && |regs| == Pow2(p)
    ensures |r| == |regs|
    decreases |hashes|
  {
    if hashes == [] then regs else InsertAll(Update(regs, hashes[0], p), hashes[1..], p)
  }

  /**
   * After a sequence of inserts each register holds the largest of its old
   * value and the ranks of the hashes that went to it.
   */
  lemma {:induction false} InsertAllRegister(regs: seq<u32>, hashes: seq<u64>, p: nat, i: nat)
    requires InsertablePrecision(p) && |regs| == Pow2(p) && i < |regs|
    ensures var v := InsertAll(regs, hashes, p)[i];
      && regs[i] <= v
      && (forall h :: h in hashes && BucketIndex(h, p) == i ==> Rank(h, p) <= v)
      && (v == regs[i] || exists h :: h in hashes && BucketIndex(h, p) == i && Rank(h, p) == v)
    decreases |hashes|
  {
    if hashes != [] {
      var next := Update(regs, hashes[0], p);
      InsertAllRegister(next, hashes[1..], p, i);
      assert forall h :: h in hashes ==> h == hashes[0] || h in hashes[1..];
      var v := InsertAll(regs, hashes, p)[i];
      if v == next[i] && v != regs[i] {
        assert BucketIndex(hashes[0], p) == i && Rank(hashes[0], p) == v;
      }
    }
  }

  /**
   * The registers after a sequence of inserts depend only on which hashes
   * were inserted: not on their order, nor on how often each was inserted.
   */
  lemma InsertAllDependsOnlyOnHashes(regs: seq<u32>, hs1: seq<u64>, hs2: seq<u64>, p: nat)
    requires InsertablePrecision(p) && |regs| == Pow2(p)
    requires forall h :: h in hs1 <==> h in hs2
    ensures InsertAll(regs, hs1, p) == InsertAll(regs, hs2, p)
  {
    var a, b := InsertAll(regs, hs1, p), InsertAll(regs, hs2, p);
    forall i | 0 <= i < |regs|
      ensures a[i] == b[i]
    {
      InsertAllRegister(regs, hs1, p, i);
      InsertAllRegister(regs, hs2, p, i);
    }
  }

  /** Inserts can be reordered freely: a permutation of the hashes gives the same registers. */
  lemma InsertAllPermutation(regs: seq<u32>, hs1: seq<u64>, hs2: seq<u64>, p: nat)
    requires InsertablePrecision(p) && |regs| == Pow2(p)
    requires multiset(hs1) == multiset(hs2)
    ensures InsertAll(regs, hs1, p) == InsertAll(regs, hs2, p)
  {
    assert forall h :: h in hs1 <==> h in multiset(hs1);
    assert forall h :: h in hs2 <==> h in multiset(hs2);
    InsertAllDependsOnlyOnHashes(regs, hs1, hs2, p);
  }

  /**
   * Inserting any nonempty run of one and the same hash gives the registers of
   * a single insert of it.
   */
  lemma CollidingInserts(regs: seq<u32>, hashes: seq<u64>, p: nat)
    requires InsertablePrecision(p) && |regs| == Pow2(p)
    requires |hashes| > 0 && forall j :: 0 <= j < |hashes| ==> hashes[j] == hashes[0]
    ensures InsertAll(regs, hashes, p) == Update(regs, hashes[0], p)
  {
    var once := [hashes[0]];
    assert InsertAll(regs, once, p) == InsertAll(Update(regs, hashes[0], p), [], p);
    InsertAllDependsOnlyOnHashes(regs, hashes, once, p);
  }

  /**
   * With a hash function that always returns 0, every insert goes to bucket 0
   * with rank 65 and all other buckets stay zero.
   */
  lemma ConstantZeroHash(hashes: seq<u64>, p: nat)
    requires InsertablePrecision(p) && |hashes| > 0
    requires forall h :: h in hashes ==> h == 0
    ensures InsertAll(Zeros(Pow2(p)), hashes, p) == Zeros(Pow2(p))[0 := ZeroRemainderRank]
  {
    var target := Zeros(Pow2(p))[0 := ZeroRemainderRank];
    var r := InsertAll(Zeros(Pow2(p)), hashes, p);
    forall i | 0 <= i < Pow2(p)
      ensures r[i] == target[i]
    {
      ConstantZeroHashRegister(hashes, p, i);
    }
    assert |r| == |target|;
  }

  lemma ConstantZeroHashRegister(hashes: seq<u64>, p: nat, i: nat)
    requires InsertablePrecision(p) && |hashes| > 0 && i < Pow2(p)
    requires forall h :: h in hashes ==> h == 0
    ensures InsertAll(Zeros(Pow2(p)), hashes, p)[i] == if i == 0 then ZeroRemainderRank else 0
  {
    ZeroHashTarget(p);
    InsertAllRegister(Zeros(Pow2(p)), hashes, p, i);
    if i == 0 {
      assert hashes[0] in hashes && hashes[0] == 0;
    } else {
      assert forall h :: h in hashes ==> BucketIndex(h, p) == 0;
    }
  }

  /** The hash 0 goes to bucket 0 with rank 65. */
  lemma ZeroHashTarget(p: nat)
    requires InsertablePrecision(p)
    ensures BucketIndex(0, p) == 0 && Rank(0, p) == ZeroRemainderRank
  {
    assert LowBits(0, p) == 0;
  }

  /** Every rank is at least 1, so once anything is inserted some register is no longer zero. */
  lemma InsertAllLeavesNonzeroRegister(regs: seq<u32>, hashes: seq<u64>, p: nat)
    requires InsertablePrecision(p) && |regs| == Pow2(p) && |hashes| > 0
    ensures ZeroBuckets(InsertAll(regs, hashes, p)) < |regs|
  {
    var i := BucketIndex(hashes[0], p);
    InsertAllRegister(regs, hashes, p, i);
    assert hashes[0] in hashes;
  }

  /** The number of registers still at zero (`filter(|v| v == 0).count()`). */
  function ZeroBuckets(regs: seq<u32>): (n: nat)
    ensures n == multiset(regs)[0]
    ensures n <= |regs|
    ensures n == |regs| <==> forall i :: 0 <= i < |regs| ==> regs[i] == 0
  {
    if regs == [] then 0
    else
      assert regs == [regs[0]] + regs[1..];
      (if regs[0] == 0 then 1 else 0) + ZeroBuckets(regs[1..])
  }

  /** The register counts for which the estimator has an alpha constant. */
  predicate SupportedRegisterCount(m: nat) {
    m == 16 || m == 32 || m == 64 || m >= 128
  }

  /** With m = 2^p, the alpha constant exists exactly when p >= 4. */
  lemma SupportedRegisterCountIffPrecisionAtLeast4(p: nat)
    ensures SupportedRegisterCount(Pow2(p)) <==> p >= 4
  {
    assert Pow2(3) == 8 && Pow2(4) == 16 && Pow2(5) == 32 && Pow2(6) == 64 && Pow2(7) == 128;
    if p < 4 {
      Pow2Monotone(p, 3);
    } else if p > 7 {
      Pow2Monotone(7, p);
    }
  }

  /** Which of the alpha constants of the estimator is used. */
  datatype Alpha =
    | Alpha16    // 0.673
    | Alpha32    // 0.697
    | Alpha64    // 0.709
    | AlphaLarge // 0.7213 / (1 + 1.079 / m)

  /** The arm of the alpha `match` that a supported register count selects. */
  function AlphaFor(m: nat): (a: Alpha)
    requires SupportedRegisterCount(m)
    ensures a == Alpha16 <==> m == 16
    ensures a == Alpha32 <==> m == 32
    ensures a == Alpha64 <==> m == 64
    ensures a == AlphaLarge <==> m >= 128
  {
    if m == 16 then Alpha16
    else if m == 32 then Alpha32
    else if m == 64 then Alpha64
    else AlphaLarge
  }

  /**
   * The integer part of `calculate_cardinality`: either the exact answer 0, or
   * the inputs of the floating-point estimate (the number of zero registers
   * and the alpha constant).
   */
  datatype Cardinality =
    | ExactZero
    | FloatEstimate(zeroBuckets: nat, alpha: Alpha)

  /** The sketch (`HyperLogLog<T>`). */
  class HyperLogLog<T> {
    const p: u32
    const m: nat
    /** The array is fixed at construction; only its cells change. */
    const buckets: array<u32>
    /** The `ToBytes` implementation of the element type. */
    const encode: T -> seq<u8>
    /** The `xxh3_64` hash function. */
    const xxh3: seq<u8> -> u64

    ghost predicate Valid()
      reads this, buckets
    {
      && p < 64
      && m == Pow2(p)
      && buckets.Length == m
      && RegistersReachable(buckets[..], p)
    }

    ghost function Registers(): seq<u32>
      reads this, buckets
    {
      buckets[..]
    }

    /** `new(p)`: m = 2^p registers, all zero. `2_usize.pow(p)` overflows for p >= 64. */
    constructor (p: u32, encode: T -> seq<u8>, xxh3: seq<u8> -> u64)
      requires p < 64
      ensures Valid() && fresh(buckets)
      ensures this.p == p && m == Pow2(p)
      ensures Registers() == Zeros(Pow2(p))
      ensures this.encode == encode && this.xxh3 == xxh3
    {
      this.p := p;
      this.encode := encode;
      this.xxh3 := xxh3;
      m := Pow2(p);
      buckets := new u32[Pow2(p)](_ => 0);
    }

    /** `hash_input`: the hash of the item's bytes. */
    function HashInput(item: T): u64 {
      xxh3(encode(item))
    }

    /**
     * `insert`: the bucket selected by the top p bits of the hash takes the
     * larger of its value and the rank of the remaining bits.
     */
    method Insert(item: T)
      requires Valid() && p >= 1
      modifies buckets
      ensures Valid()
      ensures Registers() == Update(old(Registers()), HashInput(item), p)
    {
      var hash := HashInput(item);
      var bucketIndex := ShiftRight(hash, 64 - p);
      var remaining := ShiftLeft(hash, p);
      var leading := LeadingZeros(remaining) + 1;
      assert bucketIndex == BucketIndex(hash, p) && leading == Rank(hash, p);
      UpdateKeepsRegistersReachable(buckets[..], hash, p);
      buckets[bucketIndex] := Max(buckets[bucketIndex], leading);
    }

    /**
     * Two items whose bytes are equal hash alike, so inserting both leaves the
     * registers of a single insert: a collision counts once.
     */
    method InsertColliding(a: T, b: T)
      requires Valid() && p >= 1
      requires encode(a) == encode(b)
      modifies buckets
      ensures Valid()
      ensures Registers() == Update(old(Registers()), HashInput(a), p)
    {
      Insert(a);
      Insert(b);
      UpdateIdempotent(old(Registers()), HashInput(a), p);
    }

    /**
     * The integer part of `calculate_cardinality`. The estimator panics for a
     * register count without an alpha constant, but only after the all-zero
     * early return, so a sketch with every register at zero gives 0 for any p.
     */
    function CalculateCardinality(): (r: Cardinality)
      reads this, buckets
      requires Valid()
      requires ZeroBuckets(buckets[..]) == m || SupportedRegisterCount(m)
      ensures r == ExactZero <==> forall i :: 0 <= i < buckets.Length ==> buckets[i] == 0
      ensures r.FloatEstimate? ==> r.zeroBuckets < m && r.zeroBuckets == multiset(buckets[..])[0]
      ensures r.FloatEstimate? ==> SupportedRegisterCount(m) && r.alpha == AlphaFor(m)
    {
      var zeroBuckets := ZeroBuckets(buckets[..]);
      if zeroBuckets == m then ExactZero
      else FloatEstimate(zeroBuckets, AlphaFor(m))
    }
  }
}
