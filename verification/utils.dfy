/** Model of utils.go: the bit-smearing floor-power-of-two routine.

    Go's `int` is 32 or 64 bits wide depending on the platform; the model
    assumes a 64-bit platform, so the routine is modelled on `bv64` and
    restricted to the non-negative ints, the words below 2^63.  Dafny's
    `>>` on a bit-vector is a logical shift while Go's `>>` on a signed int is
    arithmetic; the two agree on every non-negative value.

    The routine as written smears the highest set bit across 31 lower
    positions only, which is enough on a 32-bit platform but not for the
    64-bit `int` of a 64-bit platform.  FloorPowerOfTwo models it as written, and is the one the iterator
    calls, as in Go; FloorPowerOfTwo64 adds the missing 32-position step, and
    the two agree below 2^32. */
module Utils {

  /** A non-zero word with exactly one bit set. */
  predicate IsPowerOfTwo(p: bv64) {
    p != 0 && p & (p - 1) == 0
  }

  /** The OR-shift chain of lines 7-11: copies the highest set bit into the
      lower positions, across 1 + 2 + 4 + 8 + 16 = 31 positions. */
  function Smear(x: bv64): bv64 {
    var x1 := x | (x >> 1);
    var x2 := x1 | (x1 >> 2);
    var x3 := x2 | (x2 >> 4);
    var x4 := x3 | (x3 >> 8);
    x4 | (x4 >> 16)
  }

  /** FloorPowerOfTwo as written: 0 exactly for 0, and the largest power of
      two not above `value` for values below 2^32. */
  function FloorPowerOfTwo(value: bv64): (p: bv64)
    requires value < 0x8000_0000_0000_0000
    ensures value == 0 <==> p == 0
    ensures value < 0x1_0000_0000 && value != 0 ==> IsPowerOfTwo(p) && p <= value < p + p
  {
    var x := Smear(value);
    x - (x >> 1)
  }

  /** As written, the routine fails from 2^32 on: for 2^33 it returns
      2^33 - 2, which is not a power of two. */
  lemma FloorPowerOfTwoAsWrittenAbove32Bits()
    ensures FloorPowerOfTwo(0x2_0000_0000) == 0x1_FFFF_FFFE
    ensures !IsPowerOfTwo(0x1_FFFF_FFFE)
  {
  }

  /** The chain with the step a 64-bit word needs: after the 16-position
      step, one more across 32 positions. */
  function Smear64(x: bv64): bv64 {
    var y := Smear(x);
    y | (y >> 32)
  }

  /** The corrected routine: the largest power of two not above `value`, and
      0 for 0, for every non-negative int. */
  function FloorPowerOfTwo64(value: bv64): (p: bv64)
    requires value < 0x8000_0000_0000_0000
    ensures value == 0 <==> p == 0
    ensures value != 0 ==> IsPowerOfTwo(p) && p <= value && value - p < p
  {
    var x := Smear64(value);
    x - (x >> 1)
  }

  /** Below 2^32 the corrected routine and the routine as written agree. */
  lemma FloorPowerOfTwoAgreesBelow32Bits(value: bv64)
    requires value < 0x1_0000_0000
    ensures FloorPowerOfTwo64(value) == FloorPowerOfTwo(value)
  {
  }

  /** The exact result: a value whose highest set bit is bit k yields 2^k. */
  lemma FloorPowerOfTwo64Band(value: bv64, k: bv64)
    requires k < 63
    requires (1 << k) <= value < (1 << (k + 1))
    ensures FloorPowerOfTwo64(value) == 1 << k
  {
  }

  /** The examples of the doc comment: 63 -> 32 and 64 -> 64. */
  lemma FloorPowerOfTwoExamples()
    ensures FloorPowerOfTwo(63) == 32 && FloorPowerOfTwo(64) == 64
    ensures FloorPowerOfTwo64(63) == 32 && FloorPowerOfTwo64(64) == 64
  {
  }

  /** A power of two is returned unchanged. */
  lemma FloorPowerOfTwo64FixesPowers(p: bv64)
    requires IsPowerOfTwo(p) && p < 0x8000_0000_0000_0000
    ensures FloorPowerOfTwo64(p) == p
  {
  }

  /** Below 2^32 the routine as written also returns a power of two unchanged. */
  lemma FloorPowerOfTwoFixesPowersBelow32Bits(p: bv64)
    requires IsPowerOfTwo(p) && p < 0x1_0000_0000
    ensures FloorPowerOfTwo(p) == p
  {
    FloorPowerOfTwoAgreesBelow32Bits(p);
    FloorPowerOfTwo64FixesPowers(p);
  }

  /** Hence the routine is idempotent. */
  lemma FloorPowerOfTwo64Idempotent(value: bv64)
    requires value < 0x8000_0000_0000_0000
    ensures FloorPowerOfTwo64(FloorPowerOfTwo64(value)) == FloorPowerOfTwo64(value)
  {
    if value != 0 {
      FloorPowerOfTwo64FixesPowers(FloorPowerOfTwo64(value));
    }
  }
}
