/** Model of the balanced block-size iterator of wikisort.go.

    One level of the iterator cuts [0, size) into `denominator` contiguous
    ranges.  Its state holds the exact block length as a mixed fraction
    `decimalStep + numeratorStep / denominator`, and the current position as
    `decimal + numerator / denominator`; both fractions are kept proper
    (`numerator` and `numeratorStep` stay below `denominator`), so no
    rounding error accumulates. */
module BlockIterator {
  import opened Ranges
  import Utils

  /** 2^n. */
  function Pow2(n: nat): (p: nat)
    ensures p >= 1
  {
    if n == 0 then 1 else 2 * Pow2(n - 1)
  }

  /** Where the k-th range of a level starts when the exact block length is
      `scaled / den`: the exact position k * scaled / den, rounded down. */
  function Boundary(k: nat, scaled: nat, den: nat): nat
    requires den > 0
  {
    k * scaled / den
  }

  /** The k-th range of a level, as the reference for what the iterator emits. */
  function Slice(k: nat, scaled: nat, den: nat): Range
    requires den > 0
  {
    Range(Boundary(k, scaled, den), Boundary(k + 1, scaled, den))
  }

  /** All `den` ranges of the first level over [0, size). */
  function LevelRanges(size: nat, den: nat): (rs: seq<Range>)
    requires den > 0
    ensures |rs| == den
    ensures forall k :: 0 <= k < den ==> rs[k] == Slice(k, size, den)
  {
    seq(den, k requires 0 <= k < den => Slice(k, size, den))
  }

  /** The sum of the lengths of a list of ranges. */
  function TotalLength(rs: seq<Range>): int
  {
    if rs == [] then 0 else TotalLength(rs[..|rs| - 1]) + rs[|rs| - 1].Length()
  }

  /** Integer division by a positive number is determined by quotient and
      remainder: d * den + n == p with 0 <= n < den forces d == p / den. */
  lemma DivisionUnique(d: int, n: int, den: int, p: int)
    requires den > 0 && 0 <= n < den
    requires d * den + n == p
    ensures d == p / den && n == p % den
  {
    var q, m := p / den, p % den;
    assert q * den + m == p;
    assert (d - q) * den == m - n;
    if d > q {
      assert (d - q) * den >= den by { MultiplyAtLeast(d - q, den); }
    } else if d < q {
      assert (q - d) * den >= den by { MultiplyAtLeast(q - d, den); }
    }
  }

  lemma QuotientRemainder(p: int, den: int)
    requires den > 0
    ensures (p / den) * den + p % den == p && 0 <= p % den < den
  {
  }

  lemma MultiplyAtLeast(a: int, b: int)
    requires a >= 1 && b >= 0
    ensures a * b >= b
  {
  }

  /** Consecutive boundaries are `scaled / den` or `scaled / den + 1` apart:
      the ranges of one level differ in length by at most one. */
  lemma {:induction false} BoundaryStep(k: nat, scaled: nat, den: nat)
    requires den > 0
    ensures var len := Boundary(k + 1, scaled, den) - Boundary(k, scaled, den);
            len == scaled / den || len == scaled / den + 1
  {
    var q, s := scaled / den, scaled % den;
    var p := k * scaled;
    var b, rest := p / den, p % den;
    assert (k + 1) * scaled == p + scaled;
    if rest + s < den {
      DivisionUnique(b + q, rest + s, den, p + scaled);
    } else {
      DivisionUnique(b + q + 1, rest + s - den, den, p + scaled);
    }
  }

  /** The first level starts at 0 and its last range ends at `size`. */
  lemma LevelEnds(size: nat, den: nat)
    requires den > 0
    ensures Boundary(0, size, den) == 0
    ensures Boundary(den, size, den) == size
  {
    DivisionUnique(size, 0, den, den * size);
  }

  lemma MultiplyMonotone(a: int, b: int, c: int)
    requires a <= b && c >= 0
    ensures a * c <= b * c
  {
  }

  /** Before the k-th boundary with k < den, the level has not reached `size`. */
  lemma BoundaryBelowSize(k: nat, size: nat, den: nat)
    requires den > 0 && size > 0
    ensures Boundary(k, size, den) < size <==> k < den
  {
    var b, rest := k * size / den, k * size % den;
    DivisionUnique(b, rest, den, k * size);
    if k < den {
      MultiplyMonotone(k, den - 1, size);
      assert k * size < den * size;
      if b >= size {
        MultiplyMonotone(size, b, den);
        assert false;
      }
    } else {
      MultiplyMonotone(den, k, size);
      assert k * size >= den * size;
      if b < size {
        MultiplyMonotone(b, size - 1, den);
        assert false;
      }
    }
  }

  /** The first level is a partition of [0, size) into `den` contiguous,
      balanced ranges whose lengths add up to `size`. */
  lemma {:induction false} LevelRangesPartition(size: nat, den: nat)
    requires den > 0
    ensures var rs := LevelRanges(size, den);
      && rs[0].start == 0 && rs[den - 1].end == size
      && (forall k :: 0 <= k < den - 1 ==> rs[k].end == rs[k + 1].start)
      && (forall k :: 0 <= k < den ==>
            rs[k].Length() == size / den || rs[k].Length() == size / den + 1)
      && TotalLength(rs) == size
  {
    var rs := LevelRanges(size, den);
    LevelEnds(size, den);
    forall k | 0 <= k < den
      ensures rs[k].Length() == size / den || rs[k].Length() == size / den + 1
    {
      BoundaryStep(k, size, den);
    }
    PrefixTotal(size, den, den);
    assert rs[..den] == rs;
  }

  lemma {:induction false} PrefixTotal(size: nat, den: nat, n: nat)
    requires den > 0 && n <= den
    ensures TotalLength(LevelRanges(size, den)[..n]) == Boundary(n, size, den)
  {
    var rs := LevelRanges(size, den);
    if n > 0 {
      PrefixTotal(size, den, n - 1);
      assert rs[..n][..n - 1] == rs[..n - 1];
    }
  }

  /** Whether the block length after `level` doublings, rounded down, is
      still below `size`: exactly while 2^level < den. */
  lemma LevelBelowSize(level: nat, size: nat, den: nat)
    requires den > 0 && size > 0
    ensures Pow2(level) * size / den < size <==> Pow2(level) < den
  {
    BoundaryBelowSize(Pow2(level), size, den);
  }

  /** One step of exact-fraction addition, as NextRange and IsNextLevel do it:
      add the whole parts and the numerators, then carry one unit when the
      numerator reaches the denominator.  The result is the exact sum, again
      with the numerator below the denominator. */
  lemma StepForward(d: int, n: int, d': int, n': int, dStep: int, nStep: int, den: int)
    requires den > 0 && 0 <= n < den && 0 <= nStep < den
    requires if n + nStep >= den then d' == d + dStep + 1 && n' == n + nStep - den
             else d' == d + dStep && n' == n + nStep
    ensures d' * den + n' == (d * den + n) + (dStep * den + nStep)
    ensures 0 <= n' < den
  {
  }

  lemma DoubleBlock(level: nat, size: int)
    requires level > 0
    ensures Pow2(level) * size == 2 * (Pow2(level - 1) * size)
  {
  }

  /** The arithmetic of NextRange: adding the block length to a position
      that is `e` block lengths past `start` makes it `e + 1` past, moves the
      whole part by `dStep` or `dStep + 1`, and on the first level moves it
      from one Boundary to the next. */
  lemma AdvanceRange(d: int, n: int, d': int, n': int, dStep: int, nStep: int, den: int,
                     start: int, e: nat, size: int, level: nat)
    requires den > 0 && 0 <= n < den && 0 <= nStep < den && size > 0
    requires dStep * den + nStep == Pow2(level) * size
    requires d * den + n == start + e * (dStep * den + nStep)
    requires level == 0 ==> start == 0
    requires if n + nStep >= den then d' == d + dStep + 1 && n' == n + nStep - den
             else d' == d + dStep && n' == n + nStep
    ensures 0 <= n' < den
    ensures d' * den + n' == (d * den + n) + (dStep * den + nStep)
    ensures d' * den + n' == start + (e + 1) * (dStep * den + nStep)
    ensures d' - d == dStep || d' - d == dStep + 1
    ensures level == 0 ==> d == Boundary(e, size, den) && d' == Boundary(e + 1, size, den)
  {
    StepForward(d, n, d', n', dStep, nStep, den);
    assert (e + 1) * (dStep * den + nStep) == e * (dStep * den + nStep) + (dStep * den + nStep);
    if level == 0 {
      DivisionUnique(d, n, den, e * size);
      DivisionUnique(d', n', den, (e + 1) * size);
    }
  }

  /** The arithmetic of IsNextLevel: doubling the exact block length of
      level `level` gives that of level `level + 1`, whose rounded-down value
      is below `size` exactly while 2^(level + 1) is below `den`. */
  lemma DoubleStep(d: int, n: int, d': int, n': int, den: int, size: int, level: nat)
    requires den > 0 && 0 <= n < den && size > 0
    requires d * den + n == Pow2(level) * size
    requires if n + n >= den then d' == d + d + 1 && n' == n + n - den
             else d' == d + d && n' == n + n
    ensures 0 <= n' < den
    ensures d' * den + n' == 2 * (d * den + n) == Pow2(level + 1) * size
    ensures d' == Pow2(level + 1) * size / den
    ensures d' < size <==> Pow2(level + 1) < den
  {
    StepForward(d, n, d', n', d, n, den);
    DoubleBlock(level + 1, size);
    DivisionUnique(d', n', den, Pow2(level + 1) * size);
    LevelBelowSize(level + 1, size, den);
  }

  /** The floor power of two of 0 is 0, so a positive one means a positive size. */
  lemma PositiveFloorMeansPositiveSize(size: bv64)
    requires size < 0x8000_0000_0000_0000
    ensures Utils.FloorPowerOfTwo(size) as int > 0 ==> size as int > 0
  {
    if size != 0 {
      assert size as int != 0;
    }
  }

  /** The arithmetic of NewIterator: the size is positive, and splitting it
      by the denominator gives a whole part and a remainder below the
      denominator that together are exactly size / denominator. */
  lemma InitialStep(size: bv64, minLevel: int, p: int, n: int, den: int, ds: int, ns: int)
    requires size < 0x8000_0000_0000_0000 && 0 < minLevel
    requires p == Utils.FloorPowerOfTwo(size) as int && n == size as int
    requires den == p / minLevel && den > 0
    requires ds == n / den && ns == n % den
    ensures n > 0
    ensures ds * den + ns == n == Pow2(0) * n
    ensures 0 <= ns < den
  {
    PositiveFloorMeansPositiveSize(size);
    QuotientRemainder(n, den);
  }

  /** The iterator.  Besides Go's fields it carries ghost fields that say
      how many times the block length has been doubled (`level`), where the
      current level began (`levelStart`, an exact position times
      `denominator`) and how many ranges it has emitted since (`emitted`). */
  class Iterator {
    var size: int
    var powerOfTwo: int
    var decimal: int
    var numerator: int
    var denominator: int
    var decimalStep: int
    var numeratorStep: int

    ghost var level: nat
    ghost var levelStart: int
    ghost var emitted: nat

    /** The exact position, times `denominator`. */
    ghost function Position(): int
      reads this
    {
      decimal * denominator + numerator
    }

    /** The exact block length, times `denominator`. */
    ghost function Step(): int
      reads this
    {
      decimalStep * denominator + numeratorStep
    }

    ghost predicate Valid()
      reads this
    {
      && size > 0
      && denominator > 0
      && 0 <= numerator < denominator
      && 0 <= numeratorStep < denominator
      && Step() == Pow2(level) * size
      && (level == 0 ==> levelStart == 0)
      && Position() == levelStart + emitted * Step()
    }

    /** On the first level the position is exactly emitted * size / denominator. */
    lemma FirstLevelPosition()
      requires Valid() && level == 0
      ensures decimal == Boundary(emitted, size, denominator)
    {
      DivisionUnique(decimal, numerator, denominator, emitted * size);
    }

    /** On the first level the position reaches `size` exactly once all
        `denominator` ranges have been emitted. */
    lemma FirstLevelFinished()
      requires Valid()
      ensures level == 0 ==> (decimal >= size <==> emitted >= denominator)
    {
      if level == 0 {
        FirstLevelPosition();
        BoundaryBelowSize(emitted, size, denominator);
      }
    }

    /** After `denominator` ranges the first level ends exactly at `size`,
        with no fraction left over. */
    lemma FirstLevelEnd()
      requires Valid() && level == 0 && emitted == denominator
      ensures decimal == size && numerator == 0
    {
      DivisionUnique(decimal, numerator, denominator, denominator * size);
      LevelEnds(size, denominator);
    }

    /** NewIterator.  `size` is Go's int on a 64-bit platform, taken non-negative,
        and powerOfTwo comes from FloorPowerOfTwo as written, as in Go.  The
        block length of the first level is size / denominator exactly, where
        denominator = powerOfTwo / minLevel; Go divides by zero when that
        quotient is 0. */
    constructor (size: bv64, minLevel: int)
      requires size < 0x8000_0000_0000_0000 && 0 < minLevel
      requires Utils.FloorPowerOfTwo(size) as int / minLevel > 0
      ensures Valid()
      ensures this.size == size as int
      ensures powerOfTwo == Utils.FloorPowerOfTwo(size) as int
      ensures denominator == powerOfTwo / minLevel
      ensures decimalStep * denominator + numeratorStep == size as int
      ensures 0 <= numeratorStep < denominator
      ensures decimal == 0 && numerator == 0
      ensures level == 0 && emitted == 0
    {
      var p := Utils.FloorPowerOfTwo(size) as int;
      var n := size as int;
      var den := p / minLevel;
      var ds, ns := n / den, n % den;
      InitialStep(size, minLevel, p, n, den, ds, ns);
      this.size := n;
      powerOfTwo := p;
      denominator := den;
      numeratorStep := ns;
      decimalStep := ds;
      numerator := 0;
      decimal := 0;
      level, levelStart, emitted := 0, 0, 0;
      new;
      assert Step() == n;
    }

    /** Emits the next range, which starts where the previous one ended and
        is `decimalStep` or `decimalStep + 1` long; on the first level it is
        exactly the reference range Slice. */
    method NextRange() returns (r: Range)
      requires Valid()
      modifies this
      ensures Valid()
      ensures r.start == old(decimal) && r.end == decimal
      ensures r.Length() == decimalStep || r.Length() == decimalStep + 1
      ensures Position() == old(Position()) + Step()
      ensures emitted == old(emitted) + 1
      ensures size == old(size) && powerOfTwo == old(powerOfTwo) && denominator == old(denominator)
      ensures decimalStep == old(decimalStep) && numeratorStep == old(numeratorStep)
      ensures level == old(level) && levelStart == old(levelStart)
      ensures level == 0 ==> r == Slice(emitted - 1, size, denominator)
    {
      var start, num := decimal, numerator;
      ghost var e := emitted;
      decimal := decimal + decimalStep;
      numerator := numerator + numeratorStep;
      if numerator >= denominator {
        numerator := numerator - denominator;
        decimal := decimal + 1;
      }
      r := Range(start, decimal);
      emitted := emitted + 1;
      AdvanceRange(start, num, decimal, numerator, decimalStep, numeratorStep, denominator,
                   levelStart, e, size, level);
    }

    /** Doubles the exact block length and reports whether its rounded-down
        value is still below `size`, which holds exactly while 2^level is
        below `denominator`. */
    method IsNextLevel() returns (more: bool)
      requires Valid()
      modifies this
      ensures Valid()
      ensures Step() == 2 * old(Step())
      ensures decimalStep == Step() / denominator
      ensures more <==> decimalStep < size
      ensures more <==> Pow2(level) < denominator
      ensures level == old(level) + 1 && emitted == 0
      ensures size == old(size) && powerOfTwo == old(powerOfTwo) && denominator == old(denominator)
      ensures decimal == old(decimal) && numerator == old(numerator)
    {
      var ds, ns := decimalStep, numeratorStep;
      decimalStep := decimalStep + decimalStep;
      numeratorStep := numeratorStep + numeratorStep;
      if numeratorStep >= denominator {
        numeratorStep := numeratorStep - denominator;
        decimalStep := decimalStep + 1;
      }
      more := decimalStep < size;
      DoubleStep(ds, ns, decimalStep, numeratorStep, denominator, size, level);
      level := level + 1;
      levelStart, emitted := Position(), 0;
    }

    /** Whether the current position has reached `size`; on the first level,
        exactly once all `denominator` ranges have been emitted. */
    function IsFinished(): (finished: bool)
      requires Valid()
      reads this
      ensures level == 0 ==> (finished <==> emitted >= denominator)
    {
      FirstLevelFinished();
      decimal >= size
    }

    /** The current block length: the exact one rounded down. */
    function Length(): (len: int)
      requires Valid()
      reads this
      ensures len == Step() / denominator
    {
      DivisionUnique(decimalStep, numeratorStep, denominator, Step());
      decimalStep
    }
  }
}
