/** What the fast path's 64-bit approximation of a number's first nineteen digits is good for. */
module Estimates {
  import opened Bits
  import opened Limbs
  import opened Decimal
  import opened NumberScanner
  import opened Ieee
  import opened DigitComparison
  import opened SlowPath
  import opened Exponents

  ghost predicate StartsWith(v: nat, w: nat, n: nat) {
    Tens(w, n) <= v < Tens(w + 1, n)
  }

  /** An extended float from which the slow path can decide every number that begins with the digits `w`. */
  ghost predicate Decisive(f: Format, am: AdjustedMantissa, q: int, w: nat)
    requires f.Regular()
  {
    forall v, n :: StartsWith(v, w, n) ==> Bracketed(f, am, Numerator(v, q - n), Denominator(q - n))
  }

  /** What makes a negative power of two an integer. */
  function Down(power2: int): (j: nat)
    ensures power2 + j >= 0
  {
    if power2 < 0 then -power2 else 0
  }

  /** num/den is within four units in the last place of the 64-bit significand. */
  ghost predicate Within(f: Format, am: AdjustedMantissa, num: nat, den: nat)
    requires f.Regular()
  {
    var j := Down(am.power2);
    var x, g := Shl(num, f.Bias()) * Pow(2, j), Pow(2, am.power2 + j);
    && BASE / 2 <= am.mantissa < BASE
    && den * (am.mantissa * g) <= x + den * (4 * g)
    && x <= den * (am.mantissa * g) + den * (4 * g)
  }

  // ---------- the floats around an extended one ----------

  lemma {:induction false} SpacingAbove(f: Format, am: AdjustedMantissa)
    requires f.Regular() && BASE / 2 <= am.mantissa < BASE && Floor(f, am) >= 0
    ensures Units(f, Floor(f, am) + 2) >= Shl(Shr(am.mantissa, DroppedBits(f, am)) + 2, FloorExponent(f, am))
  {
    hide Shl, Shr, LowBits, Pow, Units;
    FloorUnits(f, am);
    UnitsStep(f, Floor(f, am) + 1);
    var n, q, e := f.mantissaBits, Shr(am.mantissa, DroppedBits(f, am)), FloorExponent(f, am);
    if BelowNormal(f, am) {
      ShlNone(q + 1);
      ShlNone(q + 2);
    } else {
      DroppedNormal(f, am);
      if q + 2 <= 2 * Pow(2, n) {
        NormalUnits(f, q + 2, e + 1);
      } else {
        ShlAdd(e + 1, 1, n);
        ShlOne(n);
        NormalUnits(f, Pow(2, n) + 1, e + 2);
        Doubled(Pow(2, n) + 1, e);
        ShlMonotone(q + 2, 2 * (Pow(2, n) + 1), e);
      }
    }
  }

  lemma Doubled(q: nat, e: nat)
    ensures Shl(q, e + 1) == 2 * Shl(q, e) == Shl(2 * q, e)
  {
    ShlAdd(q, q, e);
  }

  lemma {:induction false} SpacingBelow(f: Format, am: AdjustedMantissa)
    requires f.Regular() && BASE / 2 <= am.mantissa < BASE && Floor(f, am) > 0
    ensures 2 * Units(f, Floor(f, am) - 1) + Shl(1, FloorExponent(f, am)) <= 2 * Units(f, Floor(f, am))
  {
    hide Shl, Shr, LowBits, Pow, Units;
    FloorUnits(f, am);
    UnitsStep(f, Floor(f, am) - 1);
    var n, q, e := f.mantissaBits, Shr(am.mantissa, DroppedBits(f, am)), FloorExponent(f, am);
    ShlNone(1);
    if e > 0 {
      DroppedNormal(f, am);
      ShlAdd(q - 1, 1, e);
      if q > Pow(2, n) {
        NormalUnits(f, q - 1, e + 1);
      } else {
        ShlAdd(e, 1, n);
        ShlOne(n);
        NormalUnits(f, 2 * Pow(2, n) - 1, e);
        Doubled(2 * Pow(2, n) - 1, e - 1);
        Doubled(q, e);
        ShlAdd(2 * q - 1, 1, e);
      }
    }
  }

  lemma {:induction false} ShlScaled(a: nat, e: nat, j: nat)
    ensures Shl(a, e) * Pow(2, j) == a * Pow(2, e + j)
  {
    hide Pow;
    ShlIsPow(a, e);
    PowAdd(2, e, j);
    MulAssoc(a, Pow(2, e), Pow(2, j));
  }

  /** The extended float lies from the float it rounds down to up to its successor, and its own last place is finer
      than their distance by five bits. */
  lemma {:induction false} Placed(f: Format, am: AdjustedMantissa)
    requires f.Regular() && f.mantissaBits <= 57 && BASE / 2 <= am.mantissa < BASE
    ensures var j, q, m := Down(am.power2), Shr(am.mantissa, DroppedBits(f, am)), am.mantissa;
            var g, h := Pow(2, am.power2 + j), Pow(2, FloorExponent(f, am) + j);
            32 * g <= h && q * (2 * h) <= m * g && (m + 1) * g <= (q + 1) * (2 * h)
  {
    hide Pow, Shl, Shr, LowBits;
    var p, j, m, k, e := am.power2, Down(am.power2), am.mantissa, DroppedBits(f, am), FloorExponent(f, am);
    var g, h, q := Pow(2, p + j), Pow(2, e + j), Shr(am.mantissa, DroppedBits(f, am));
    PowAdd(2, 5, p + j);
    PowMonotone(2, p + j + 5, e + j);
    ThirtyTwo();
    PowAdd(2, 1, e + j);
    ShrLow(m, k);
    BasePowers();
    if p + k == e + 1 {
      ShlIsPow(q, k);
      PowAdd(2, k, p + j);
      var top := Pow(2, k);
      MulAssoc(q, top, g);
      MulLessEq(q * top, m, g);
      Distribute(q, 1, top);
      MulLessEq(m + 1, (q + 1) * top, g);
      MulAssoc(q + 1, top, g);
    } else {
      ShrBound(m, 0, 64);
      ShlOneBit(0);
      PowMonotone(2, 64, 1 + j);
    }
  }

  lemma ThirtyTwo()
    ensures Pow(2, 5) == 32 && Pow(2, 1) == 2 && Pow(2, 0) == 1
  {}

  lemma {:induction false} ShlTimesPow(u: nat, v: nat, e: nat, j: nat)
    requires u >= Shl(v, e)
    ensures u * Pow(2, j) >= v * Pow(2, e + j)
  {
    hide Pow, Shl;
    MulLessEq(Shl(v, e), u, Pow(2, j));
    ShlScaled(v, e, j);
  }

  lemma Cancel(a: int, b: int, c: nat)
    requires c >= 1 && a * c < b * c
    ensures a < b
  {}

  lemma CancelEq(a: int, b: int, c: nat)
    requires c >= 1 && a * c <= b * c
    ensures a <= b
  {}

  /** den * (m*g) <= x + den * (4*g) and the places of two floats below give x > den * (their sum). */
  lemma {:induction false} LowerSide(x: nat, den: nat, mg: nat, g: nat, h: nat, qh: nat, below: nat)
    requires den >= 1 && g >= 1 && 32 * g <= h && 2 * qh <= mg && 2 * below + h <= 2 * qh
    requires den * mg <= x + den * (4 * g)
    ensures den * (below + qh) < x
  {
    var a := below + qh + 4 * g;
    assert a < mg;
    MulLess(a, mg, den);
    assert den * a == den * (below + qh) + den * (4 * g) by { Distribute(below + qh, 4 * g, den); }
  }

  /** On the scale of the extended float's last place. */
  lemma {:induction false} ScaledBelow(f: Format, am: AdjustedMantissa)
    requires f.Regular() && f.mantissaBits <= 57 && BASE / 2 <= am.mantissa < BASE && Floor(f, am) > 0
    ensures var j := Down(am.power2);
            var g, h, t := Pow(2, am.power2 + j), Pow(2, FloorExponent(f, am) + j), Pow(2, j);
            var u0, u1 := Units(f, Floor(f, am) - 1) * t, Units(f, Floor(f, am)) * t;
            g >= 1 && 32 * g <= h && 2 * u1 <= am.mantissa * g && 2 * u0 + h <= 2 * u1 && u0 >= 0
  {
    hide Pow, Shl, Shr, Units, Floor, LowBits;
    var b, j, e, q := Floor(f, am), Down(am.power2), FloorExponent(f, am), Shr(am.mantissa, DroppedBits(f, am));
    var h, t, u0, u1 := Pow(2, e + j), Pow(2, j), Units(f, b - 1), Units(f, b);
    Placed(f, am);
    FloorUnits(f, am);
    SpacingBelow(f, am);
    ShlScaled(q, e, j);
    ShlScaled(1, e, j);
    MulLessEq(2 * u0 + Shl(1, e), 2 * u1, t);
    Distribute(2 * u0, Shl(1, e), t);
    TwiceTimes(u0, t);
    TwiceTimes(u1, t);
    MulLessEq(0, u0, t);
    TwiceRight(q, h);
  }

  lemma {:induction false} ScaledAbove(f: Format, am: AdjustedMantissa)
    requires f.Regular() && f.mantissaBits <= 57 && BASE / 2 <= am.mantissa < BASE
    ensures Floor(f, am) >= 0
    ensures var j := Down(am.power2);
            var g, h, t := Pow(2, am.power2 + j), Pow(2, FloorExponent(f, am) + j), Pow(2, j);
            var u := (Units(f, Floor(f, am) + 1) + Units(f, Floor(f, am) + 2)) * t;
            32 * g <= h && (am.mantissa + 1) * g + h <= u && u >= 0
  {
    hide Pow, Shl, Shr, Units, Floor, LowBits;
    FloorUnits(f, am);
    var b, j, e, q := Floor(f, am), Down(am.power2), FloorExponent(f, am), Shr(am.mantissa, DroppedBits(f, am));
    var h, t, u1, u2 := Pow(2, e + j), Pow(2, j), Units(f, b + 1), Units(f, b + 2);
    Placed(f, am);
    SpacingAbove(f, am);
    ShlTimesPow(u1, q + 1, e, j);
    ShlTimesPow(u2, q + 2, e, j);
    Distribute(u1, u2, t);
    TwiceRight(q + 1, h);
    Distribute(q + 1, 1, h);
    MulLessEq(0, u1 + u2, t);
  }

  lemma {:induction false} AboveMiddle(f: Format, am: AdjustedMantissa, num: nat, den: nat)
    requires f.Regular() && f.mantissaBits <= 57 && den >= 1 && Within(f, am, num, den) && Floor(f, am) > 0
    ensures Shl(num, f.Bias()) > den * (Units(f, Floor(f, am) - 1) + Units(f, Floor(f, am)))
  {
    hide Pow, Shl, Units, Floor, FloorExponent;
    var j := Down(am.power2);
    var g, h, t := Pow(2, am.power2 + j), Pow(2, FloorExponent(f, am) + j), Pow(2, j);
    var u0, u1, x := Units(f, Floor(f, am) - 1), Units(f, Floor(f, am)), Shl(num, f.Bias());
    ScaledBelow(f, am);
    LowerSide(x * t, den, am.mantissa * g, g, h, u1 * t, u0 * t);
    Distribute(u0, u1, t);
    MulAssoc(den, u0 + u1, t);
    Cancel(den * (u0 + u1), x, t);
  }

  lemma TwiceTimes(u: int, t: int)
    ensures 2 * u * t == 2 * (u * t)
  {}

  lemma TwiceRight(q: int, h: int)
    ensures q * (2 * h) == 2 * (q * h)
  {}

  /** The next larger number of nineteen digits is no more than nineteen such units further. */
  lemma {:induction false} UpperSide(x: nat, step: nat, w: nat, den: nat, m: nat, g: nat, h: nat, top: nat)
    requires MINIMAL_NINETEEN_DIGITS <= w && m < BASE && x == w * step && 32 * g <= h && (m + 1) * g + h <= top
    requires x <= den * (m * g) + den * (4 * g)
    ensures x + step <= den * top
  {
    var m4 := m + 4;
    assert x <= den * (m4 * g) by {
      Distribute(m, 4, g);
      Distribute(m * g, 4 * g, den);
    }
    assert step <= den * (19 * g) by {
      MulLessEq(m4, 19 * w, g);
      MulLessEqLeft(den, m4 * g, 19 * w * g);
      Rearranged(den, w, g);
      CancelEq(step, den * (19 * g), w);
    }
    Distribute(m4 * g, 19 * g, den);
    Distribute(m + 1, 22, g);
    assert m4 * g + 19 * g == (m + 1) * g + 22 * g by { Distribute(m + 1, 3, g); }
    MulLessEqLeft(den, m4 * g + 19 * g, top);
  }

  lemma Rearranged(den: nat, w: nat, g: nat)
    ensures den * (19 * w * g) == den * (19 * g) * w
  {
    assert 19 * w * g == (19 * g) * w;
    MulAssoc(den, 19 * g, w);
  }

  lemma {:induction false} BelowMiddle(f: Format, am: AdjustedMantissa, w: nat, q: int)
    requires f.Regular() && f.mantissaBits <= 57 && MINIMAL_NINETEEN_DIGITS <= w
    requires Within(f, am, Numerator(w, q), Denominator(q))
    ensures Floor(f, am) >= 0
    ensures Shl(Numerator(w + 1, q), f.Bias()) <=
            Denominator(q) * (Units(f, Floor(f, am) + 1) + Units(f, Floor(f, am) + 2))
  {
    hide Pow, Shl, Units, Floor, FloorExponent, Numerator, Denominator;
    ScaledAbove(f, am);
    var j, den, one := Down(am.power2), Denominator(q), Shl(Numerator(1, q), f.Bias());
    var g, h, t := Pow(2, am.power2 + j), Pow(2, FloorExponent(f, am) + j), Pow(2, j);
    var u := Units(f, Floor(f, am) + 1) + Units(f, Floor(f, am) + 2);
    NumeratorTimes(w, q, f.Bias());
    NumeratorTimes(w + 1, q, f.Bias());
    Distribute(w, 1, one);
    Distribute(w * one, one, t);
    MulAssoc(w, one, t);
    MulLessEq(0, one, t);
    UpperSide(w * one * t, one * t, w, den, am.mantissa, g, h, u * t);
    MulAssoc(den, u, t);
    CancelEq((w + 1) * one, den * u, t);
  }

  lemma {:induction false} NumeratorTimes(w: nat, q: int, bias: nat)
    ensures Shl(Numerator(w, q), bias) == w * Shl(Numerator(1, q), bias)
  {
    hide Pow, Shl, Tens;
    if q >= 0 {
      TensIsPow(w, q);
      TensIsPow(1, q);
      Commute(w, Pow(10, q));
      ShlTimes(Pow(10, q), w, bias);
      Commute(w, Shl(Pow(10, q), bias));
    } else {
      ShlTimes(1, w, bias);
      Commute(w, Shl(1, bias));
    }
  }

  /** The same number with `n` more digits is the same fraction. */
  function Scale(q: int, n: nat): (s: nat)
    ensures s >= 1
  {
    if q - n >= 0 then 1 else if q >= 0 then Pow(10, n - q) else Pow(10, n)
  }

  lemma {:induction false} MoreDigits(w: nat, q: int, n: nat)
    ensures Numerator(Tens(w, n), q - n) == Numerator(w, q) * Scale(q, n)
    ensures Denominator(q - n) == Denominator(q) * Scale(q, n)
  {
    hide Tens, Pow;
    var e := q - n;
    if e >= 0 {
      TensTens(w, n, e);
    } else if q >= 0 {
      TensTens(w, q, -e);
      TensIsPow(Tens(w, q), -e);
    } else {
      TensIsPow(w, n);
      PowAdd(10, -q, n);
    }
  }

  lemma {:induction false} NumeratorMonotone(v: nat, w: nat, e: int)
    ensures v <= w <==> Numerator(v, e) <= Numerator(w, e)
  {
    if e >= 0 { TensMonotone(v, w, e); }
  }

  // ---------- what follows ----------

  /** A number that begins with `w`, compared with two multiples of its scaled denominator. */
  lemma {:induction false} Sandwiched(v: nat, w: nat, q: int, n: nat, bias: nat, low: nat, high: nat)
    requires StartsWith(v, w, n)
    ensures Shl(Numerator(w, q), bias) > Denominator(q) * low ==>
              Shl(Numerator(v, q - n), bias) > Denominator(q - n) * low
    ensures Shl(Numerator(w + 1, q), bias) <= Denominator(q) * high ==>
              Shl(Numerator(v, q - n), bias) < Denominator(q - n) * high
  {
    hide Pow, Shl, Tens, Numerator, Denominator, Scale;
    var s, den, x, y := Scale(q, n), Denominator(q), Shl(Numerator(w, q), bias), Shl(Numerator(w + 1, q), bias);
    MoreDigits(w, q, n);
    MoreDigits(w + 1, q, n);
    NumeratorMonotone(Tens(w, n), v, q - n);
    NumeratorMonotone(Tens(w + 1, n), v, q - n);
    ShlMonotone(Numerator(w, q) * s, Numerator(v, q - n), bias);
    ShlMonotone(Numerator(w + 1, q) * s, Numerator(v, q - n), bias);
    ShlTimes(Numerator(w, q), s, bias);
    ShlTimes(Numerator(w + 1, q), s, bias);
    Swapped(den, low, s);
    Swapped(den, high, s);
    if x > den * low { MulLess(den * low, x, s); }
    if y <= den * high { MulLessEq(y, den * high, s); }
  }

  lemma Swapped(a: int, b: int, c: int)
    ensures a * b * c == a * c * b
  {}

  lemma {:induction false} WithinDecides(f: Format, am: AdjustedMantissa, q: int, w: nat)
    requires f.Regular() && f.mantissaBits <= 57 && MINIMAL_NINETEEN_DIGITS <= w
    requires Within(f, am, Numerator(w, q), Denominator(q)) && Floor(f, am) < f.Infinity()
    ensures Decisive(f, am, q, w)
  {
    hide Pow, Shl, Units, Floor, Numerator, StartsWith;
    BelowMiddle(f, am, w, q);
    PowerPositive(if q < 0 then -q else 0);
    var b := Floor(f, am);
    if b > 0 { AboveMiddle(f, am, Numerator(w, q), Denominator(q)); }
    forall v, n | StartsWith(v, w, n) ensures Bracketed(f, am, Numerator(v, q - n), Denominator(q - n)) {
      Sandwiched(v, w, q, n, f.Bias(), if b > 0 then Units(f, b - 1) + Units(f, b) else 0,
                 Units(f, b + 1) + Units(f, b + 2));
    }
  }

  /** Past the last halfway point lies infinity. */
  lemma {:induction false} OverflowHalf(f: Format, num: nat, den: nat)
    requires f.Regular() && den > 0 && f.Infinity() >= 2
    requires Shl(num, f.Bias()) > den * (Units(f, f.Infinity() - 1) + Units(f, f.Infinity()))
    ensures IsNearest(f, num, den, f.Infinity())
  {
    hide Pow, Shl, Units, IsNearest;
    var b := f.Infinity();
    if den * Units(f, b) <= Shl(num, f.Bias() - 1) {
      OverflowDecides(f, num, den);
    } else {
      ShlShl(num, f.Bias() - 1, 1);
      ShlFirst(Shl(num, f.Bias() - 1));
      UnitsMonotone(f, b - 2, b - 1);
      UnitsMonotone(f, b - 1, b);
      UnitsMonotone(f, b, b + 1);
      MulLessEqLeft(den, Units(f, b - 2) + Units(f, b - 1), Units(f, b - 1) + Units(f, b));
      MulLessEqLeft(den, 2 * Units(f, b), Units(f, b) + Units(f, b + 1));
      Distribute(Units(f, b), Units(f, b), den);
      HalfwayDecides(f, num, den, b - 1, b);
    }
  }

  /** An approximation that reaches infinity means that nineteen digits overflow for certain. */
  lemma {:induction false} FloorFinite(f: Format, am: AdjustedMantissa, q: int, w: nat)
    requires f.Regular() && f.mantissaBits <= 57 && Within(f, am, Numerator(w, q), Denominator(q))
    requires Floor(f, am) >= f.Infinity()
    ensures Reads(f, w, q, f.Infinity()) && Reads(f, w + 1, q, f.Infinity())
  {
    hide Pow, Shl, Units, Floor, Numerator, IsNearest;
    InfinityBound(f);
    PowMonotone(2, 1, f.mantissaBits);
    TwoToOne();
    PowerPositive(if q < 0 then -q else 0);
    var b, i, den := Floor(f, am), f.Infinity(), Denominator(q);
    AboveMiddle(f, am, Numerator(w, q), den);
    UnitsMonotone(f, i - 1, b - 1);
    UnitsMonotone(f, i, b);
    MulLessEqLeft(den, Units(f, i - 1) + Units(f, i), Units(f, b - 1) + Units(f, b));
    OverflowHalf(f, Numerator(w, q), den);
    NumeratorMonotone(w, w + 1, q);
    ShlMonotone(Numerator(w, q), Numerator(w + 1, q), f.Bias());
    OverflowHalf(f, Numerator(w + 1, q), den);
  }

  // ---------- the range of exponents ----------

  /** The published bounds on decimal exponents are those outside of which nineteen digits are zero or infinite. */
  ghost predicate Tuned(f: Format) {
    && Ready(f) && f.mantissaBits <= 57 && f.largestPowerOfTen >= 0
    && exists z: nat :: Edge(f, z) && z + 18 <= -f.smallestPowerOfTen && z <= f.largestPowerOfTen + 19
  }

  lemma {:induction false} BothTuned()
    ensures Tuned(BINARY64) && Tuned(BINARY32)
  {
    hide Edge, Ready;
    BothReady();
    BothEdges();
  }

  lemma {:induction false} OutsideAgrees(f: Format, q: int, w: nat)
    requires Tuned(f) && MINIMAL_NINETEEN_DIGITS <= w < 10 * MINIMAL_NINETEEN_DIGITS
    ensures q < f.smallestPowerOfTen ==> Reads(f, w, q, 0) && Reads(f, w + 1, q, 0)
    ensures q > f.largestPowerOfTen ==> Reads(f, w, q, f.Infinity()) && Reads(f, w + 1, q, f.Infinity())
  {
    hide Pow, Reads, Edge, Ready;
    var z: nat :| Edge(f, z) && z + 18 <= -f.smallestPowerOfTen && z <= f.largestPowerOfTen + 19;
    TenToNineteen();
    TenToEighteen();
    if q < f.smallestPowerOfTen {
      TooSmall(f, z, w, 19, q);
      TooSmall(f, z, w + 1, 19, q);
    }
    if q > f.largestPowerOfTen {
      TooLarge(f, z, w, 18, q);
      TooLarge(f, z, w + 1, 18, q);
    }
  }

  lemma TenToEighteen()
    ensures Pow(10, 18) == MINIMAL_NINETEEN_DIGITS
  {
    TenToNineteen();
  }
}
