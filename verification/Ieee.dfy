/** Binary interchange formats and correct rounding, stated without reference to any algorithm.
    A non-negative float is its bit pattern read as a number (IEEE 754-2008, section 3.4): consecutive
    patterns are consecutive floats, and the pattern of infinity follows that of the largest finite float. */
module Ieee {
  import opened Bits

  datatype Format = Format(
    mantissaBits: nat,
    minimumExponent: int,
    infinitePower: nat,
    maxDigits: nat,
    smallestPowerOfTen: int,
    largestPowerOfTen: int)
  {
    /** Exponent fields are stored with this offset, counted from the lowest mantissa bit. */
    function Bias(): int {
      mantissaBits - minimumExponent
    }

    /** The bit pattern of infinity. */
    function Infinity(): nat {
      Shl(infinitePower, mantissaBits)
    }

    /** What the algorithms need of a format. */
    ghost predicate Regular() {
      && 1 <= mantissaBits <= 61
      && Bias() >= 64
      && exists k :: k >= 2 && infinitePower + 1 == Pow(2, k)
    }
  }

  const BINARY64 := Format(52, -1023, 0x7FF, 769, -342, 308)
  const BINARY32 := Format(23, -127, 0xFF, 114, -65, 38)

  lemma {:induction false} BothRegular()
    ensures BINARY64.Regular() && BINARY32.Regular()
  {
    assert Pow(2, 8) == 256;
    PowAdd(2, 8, 3);
    assert Pow(2, 3) == 8;
  }

  /** The value of a bit pattern, in units of the smallest subnormal, 2^(1 - bias). Infinity's pattern
      is given the value its exponent would have if it were finite, which is the overflow rule
      of IEEE 754-2008, section 4.3.1. */
  ghost function Units(f: Format, c: nat): nat {
    var e, m := Shr(c, f.mantissaBits), LowBits(c, f.mantissaBits);
    if e == 0 then m else Shl(Pow(2, f.mantissaBits) + m, e - 1)
  }

  /** Twice-scaled distance between num/den and the float `c`, in the units above times `den`. */
  ghost function Distance(f: Format, num: nat, den: nat, c: nat): int
    requires f.Bias() >= 1
  {
    var d := Shl(num, f.Bias() - 1) - den * Units(f, c);
    if d < 0 then -d else d
  }

  /** roundTiesToEven of num/den: no float is nearer, and a float as near forces `c` to be even. */
  ghost predicate IsNearest(f: Format, num: nat, den: nat, c: nat)
    requires f.Bias() >= 1
  {
    && c <= f.Infinity()
    && (forall k: nat :: k <= f.Infinity() ==> Distance(f, num, den, c) <= Distance(f, num, den, k))
    && (forall k: nat :: k <= f.Infinity() && k != c && Distance(f, num, den, k) == Distance(f, num, den, c)
                       ==> c % 2 == 0)
  }

  // ---------- consecutive floats ----------

  /** A significand of mantissaBits + 1 bits (or the next power of two) at exponent field `p`. */
  lemma {:induction false} NormalUnits(f: Format, q: nat, p: nat)
    requires p >= 1 && Pow(2, f.mantissaBits) <= q <= 2 * Pow(2, f.mantissaBits)
    ensures Units(f, Shl(p, f.mantissaBits) + q - Pow(2, f.mantissaBits)) == Shl(q, p - 1)
  {
    var n := f.mantissaBits;
    var h := Pow(2, n);
    ShlOne(n);
    if q < 2 * h {
      ShrUnique(p, q - h, n);
    } else {
      ShlAdd(p, 1, n);
      ShrUnique(p + 1, 0, n);
      ShlShl(q, 0, p - 1);
      ShlShl(h, 1, p - 1);
    }
  }

  lemma {:induction false} SubnormalUnits(f: Format, q: nat)
    requires q <= Pow(2, f.mantissaBits)
    ensures Units(f, q) == q
  {
    var n := f.mantissaBits;
    ShlOne(n);
    ShlZero(n);
    if q < Pow(2, n) { ShrUnique(0, q, n); } else { ShrUnique(1, 0, n); }
  }

  /** Every float is one of the two shapes, and so is its successor. */
  lemma {:induction false} UnitsStep(f: Format, c: nat)
    ensures Units(f, c) < Units(f, c + 1)
  {
    var n := f.mantissaBits;
    var e, m := Shr(c, n), LowBits(c, n);
    ShrLow(c, n);
    ShlZero(n);
    if e == 0 {
      SubnormalUnits(f, c);
      SubnormalUnits(f, c + 1);
    } else {
      var q := Pow(2, n) + m;
      NormalUnits(f, q, e);
      NormalUnits(f, q + 1, e);
      ShlMonotone(q + 1, q, e - 1);
    }
  }

  lemma {:induction false} UnitsMonotone(f: Format, b: nat, c: nat)
    requires b <= c
    ensures Units(f, b) <= Units(f, c)
    ensures b < c ==> Units(f, b) < Units(f, c)
    decreases c - b
  {
    if b < c {
      UnitsMonotone(f, b, c - 1);
      UnitsStep(f, c - 1);
    }
  }

  lemma {:induction false} ScaledMonotone(f: Format, den: nat, b: nat, c: nat)
    requires den > 0 && b <= c
    ensures den * Units(f, b) <= den * Units(f, c)
    ensures b < c ==> den * Units(f, b) < den * Units(f, c)
  {
    hide Units;
    UnitsMonotone(f, b, c);
    MulLessEqLeft(den, Units(f, b), Units(f, c));
    if b < c { MulLess(Units(f, b), Units(f, c), den); }
  }

  // ---------- deciding by the halfway point ----------

  /** `c` is the neighbour of num/den on its side of the point halfway between `b` and its successor,
      and from the halfway point the even one. */
  ghost predicate SplitAtHalfway(f: Format, num: nat, den: nat, b: nat, c: nat) {
    && f.Bias() >= 1 && b < f.Infinity() && c in {b, b + 1}
    && (Shl(num, f.Bias()) > den * (Units(f, b) + Units(f, b + 1)) ==> c == b + 1)
    && (Shl(num, f.Bias()) < den * (Units(f, b) + Units(f, b + 1)) ==> c == b)
    && (Shl(num, f.Bias()) == den * (Units(f, b) + Units(f, b + 1)) ==> c % 2 == 0)
  }

  /** num/den is strictly nearer to `b` or to its successor than to every other float. */
  ghost predicate CloseTo(f: Format, num: nat, den: nat, b: nat) {
    && f.Bias() >= 1 && b < f.Infinity()
    && (b > 0 ==> Shl(num, f.Bias()) > den * (Units(f, b - 1) + Units(f, b)))
    && Shl(num, f.Bias()) < den * (Units(f, b + 1) + Units(f, b + 2))
  }

  /** In particular a number between the two is close to them. */
  lemma {:induction false} BetweenIsClose(f: Format, num: nat, den: nat, b: nat)
    requires f.Bias() >= 1 && b < f.Infinity() && den > 0
    requires den * Units(f, b) <= Shl(num, f.Bias() - 1) <= den * Units(f, b + 1)
    ensures CloseTo(f, num, den, b)
  {
    hide Units, Shl;
    ShlShl(num, f.Bias() - 1, 1);
    ShlFirst(Shl(num, f.Bias() - 1));
    if b > 0 {
      ScaledMonotone(f, den, b - 1, b);
      Distribute(Units(f, b - 1), Units(f, b), den);
    }
    ScaledMonotone(f, den, b + 1, b + 2);
    Distribute(Units(f, b + 1), Units(f, b + 2), den);
  }

  /** Rounding a number close to two neighbours is deciding by their halfway point. */
  lemma {:induction false} HalfwayDecides(f: Format, num: nat, den: nat, b: nat, c: nat)
    requires den > 0 && CloseTo(f, num, den, b) && SplitAtHalfway(f, num, den, b, c)
    ensures IsNearest(f, num, den, c)
  {
    hide Units, Shl;
    ShlShl(num, f.Bias() - 1, 1);
    ShlFirst(Shl(num, f.Bias() - 1));
    Distribute(Units(f, b), Units(f, b + 1), den);
    Distribute(Units(f, b + 1), Units(f, b + 2), den);
    if b > 0 { Distribute(Units(f, b - 1), Units(f, b), den); }
    ScaledMonotone(f, den, b, b + 1);
    forall k: nat | k <= f.Infinity()
      ensures Distance(f, num, den, c) <= Distance(f, num, den, k)
      ensures k != c && Distance(f, num, den, k) == Distance(f, num, den, c) ==> c % 2 == 0
    {
      if k < b {
        ScaledMonotone(f, den, k, b - 1);
        ScaledMonotone(f, den, b - 1, b);
      } else if k > b + 1 {
        ScaledMonotone(f, den, b + 2, k);
        ScaledMonotone(f, den, b + 1, b + 2);
      }
    }
  }

  lemma ShlFirst(a: nat)
    ensures Shl(a, 1) == 2 * a
  {}

  /** What is at least infinity's notional value rounds to infinity. */
  lemma {:induction false} OverflowDecides(f: Format, num: nat, den: nat)
    requires f.Bias() >= 1 && den > 0
    requires den * Units(f, f.Infinity()) <= Shl(num, f.Bias() - 1)
    ensures IsNearest(f, num, den, f.Infinity())
  {
    hide Units, Shl;
    forall k: nat | k <= f.Infinity()
      ensures Distance(f, num, den, f.Infinity()) <= Distance(f, num, den, k)
      ensures k != f.Infinity() ==> Distance(f, num, den, k) != Distance(f, num, den, f.Infinity())
    {
      ScaledMonotone(f, den, k, f.Infinity());
    }
  }

  /** What is at most half the smallest float rounds to zero, and nothing else does. */
  lemma {:induction false} UnderflowIff(f: Format, num: nat, den: nat)
    requires f.Bias() >= 1 && den > 0 && f.Infinity() >= 1
    ensures IsNearest(f, num, den, 0) <==> Shl(num, f.Bias()) <= den
  {
    hide Units, Shl;
    ShlShl(num, f.Bias() - 1, 1);
    var x := Shl(num, f.Bias() - 1);
    ShlFirst(x);
    Smallest(f);
    assert Distance(f, num, den, 0) == x;
    if 2 * x <= den {
      forall k: nat | k <= f.Infinity() ensures k > 0 ==> Distance(f, num, den, k) >= x {
        if k > 0 { ScaledMonotone(f, den, 1, k); }
      }
    } else {
      assert Distance(f, num, den, 1) < x;
    }
  }

  lemma Smallest(f: Format)
    ensures Units(f, 0) == 0 && Units(f, 1) == 1
  {
    SubnormalUnits(f, 0);
    SubnormalUnits(f, 1);
  }

  /** Correct rounding has only one answer. */
  lemma {:induction false} NearestUnique(f: Format, num: nat, den: nat, b: nat, c: nat)
    requires f.Bias() >= 1 && den > 0
    requires IsNearest(f, num, den, b) && IsNearest(f, num, den, c)
    ensures b == c
  {
    NearestNotAbove(f, num, den, b, c);
    NearestNotAbove(f, num, den, c, b);
  }

  lemma {:induction false} NearestNotAbove(f: Format, num: nat, den: nat, b: nat, c: nat)
    requires f.Bias() >= 1 && den > 0
    requires IsNearest(f, num, den, b) && IsNearest(f, num, den, c)
    ensures c <= b
  {
    hide Units, Shl;
    if b < c {
      // equally near, so both even: the float after `b` lies strictly between them
      assert Distance(f, num, den, b) == Distance(f, num, den, c) <= Distance(f, num, den, b + 1);
      ScaledMonotone(f, den, b, b + 1);
      ScaledMonotone(f, den, b + 1, c);
    }
  }

  /** And it always has one. */
  lemma {:induction false} NearestExists(f: Format, num: nat, den: nat) returns (c: nat)
    requires f.Bias() >= 1 && den > 0
    ensures IsNearest(f, num, den, c)
  {
    hide Units, Shl, IsNearest;
    var b := Below(f, num, den, f.Infinity());
    if b == f.Infinity() {
      OverflowDecides(f, num, den);
      return b;
    }
    var x, mid := Shl(num, f.Bias()), den * (Units(f, b) + Units(f, b + 1));
    c := if x > mid || (x == mid && b % 2 == 1) then b + 1 else b;
    BetweenIsClose(f, num, den, b);
    HalfwayDecides(f, num, den, b, c);
  }

  /** The largest float up to `top` that is not above num/den. */
  lemma {:induction false} Below(f: Format, num: nat, den: nat, top: nat) returns (b: nat)
    requires f.Bias() >= 1 && den > 0
    ensures b <= top && den * Units(f, b) <= Shl(num, f.Bias() - 1)
    ensures b < top ==> Shl(num, f.Bias() - 1) < den * Units(f, b + 1)
  {
    hide Shl;
    if den * Units(f, top) <= Shl(num, f.Bias() - 1) {
      b := top;
    } else if top == 0 {
      SubnormalUnits(f, 0);
      b := 0;
    } else {
      b := Below(f, num, den, top - 1);
    }
  }

  // ---------- known floats ----------

  /** What a float stands for exactly rounds to it. */
  lemma {:induction false} ExactReads(f: Format, num: nat, den: nat, c: nat)
    requires f.Bias() >= 1 && den > 0 && c <= f.Infinity() && Shl(num, f.Bias() - 1) == den * Units(f, c)
    ensures IsNearest(f, num, den, c)
  {
    hide Units, Shl;
    forall k: nat | k <= f.Infinity()
      ensures Distance(f, num, den, c) <= Distance(f, num, den, k)
      ensures k != c ==> Distance(f, num, den, k) != Distance(f, num, den, c)
    {
      if k < c { ScaledMonotone(f, den, k, c); }
      if c < k { ScaledMonotone(f, den, c, k); }
    }
  }

  /** A power of two has mantissa zero and its exponent, offset, in the exponent field. */
  lemma {:induction false} PowersOfTwo(f: Format, k: int)
    requires f.Regular() && f.infinitePower + 2 * f.minimumExponent == 1 && f.minimumExponent < k <= -f.minimumExponent
    ensures IsNearest(f, if k >= 0 then Pow(2, k) else 1, if k >= 0 then 1 else Pow(2, -k),
                      (k - f.minimumExponent) * Pow(2, f.mantissaBits))
  {
    hide Units, Shl, IsNearest, Pow;
    var n, p, b := f.mantissaBits, k - f.minimumExponent, f.Bias() - 1;
    ShlIsPow(p, n);
    NormalUnits(f, Pow(2, n), p);
    ShlMonotone(p, f.infinitePower, n);
    ShlOne(n);
    ShlShl(1, n, p - 1);
    ShlOne(b);
    if k >= 0 {
      ShlOne(k);
      ShlShl(1, k, b);
      ExactReads(f, Pow(2, k), 1, Shl(p, n));
    } else {
      ShlOne(n + p - 1);
      PowAdd(2, -k, n + p - 1);
      PowPositive(-k);
      ExactReads(f, 1, Pow(2, -k), Shl(p, n));
    }
  }

  lemma PowPositive(n: nat)
    ensures Pow(2, n) > 0
  {}

  /** 2^k is 2^52 * (k + 1023) in binary64. */
  lemma {:induction false} KnownDoubles(k: int)
    requires -1023 < k <= 1023
    ensures IsNearest(BINARY64, if k >= 0 then Pow(2, k) else 1, if k >= 0 then 1 else Pow(2, -k), (k + 1023) * Pow(2, 52))
  {
    hide IsNearest, Pow;
    BothRegular();
    PowersOfTwo(BINARY64, k);
  }

  /** And 2^23 * (k + 127) in binary32. */
  lemma {:induction false} KnownFloats(k: int)
    requires -127 < k <= 127
    ensures IsNearest(BINARY32, if k >= 0 then Pow(2, k) else 1, if k >= 0 then 1 else Pow(2, -k), (k + 127) * Pow(2, 23))
  {
    hide IsNearest, Pow;
    BothRegular();
    PowersOfTwo(BINARY32, k);
  }
}
