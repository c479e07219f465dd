/** The slow path as a whole: from the scanned digits, any number of them, to the correctly rounded float. */
module SlowPath {
  import opened Bits
  import opened Limbs
  import opened Decimal
  import opened BigInts
  import opened NumberScanner
  import opened MantissaParser
  import opened Ieee
  import opened DigitComparison

  const INVALID_AM_BIAS: int := -0x8000

  /** What the number of digits kept and the range of decimal exponents are chosen for: they fit the big integer,
      and a halfway point times a power of ten never has more digits than are kept. */
  ghost predicate Ready(f: Format) {
    && f.Regular()
    && 1 <= f.maxDigits <= 769 && f.largestPowerOfTen + 20 <= f.maxDigits
    && f.maxDigits - f.smallestPowerOfTen <= 1111
    && 4 * Pow(2, f.mantissaBits) * Pow(5, f.Bias()) <= Pow(10, f.maxDigits - 1)
  }

  // ---------- powers of five and ten against powers of two ----------

  lemma {:induction false} PowBaseMonotone(a: nat, b: nat, n: nat)
    requires a <= b
    ensures Pow(a, n) <= Pow(b, n)
  {
    if n > 0 {
      PowBaseMonotone(a, b, n - 1);
      MulLessEq(a, b, Pow(a, n - 1));
      MulLessEqLeft(b, Pow(a, n - 1), Pow(b, n - 1));
    }
  }

  lemma {:induction false} PowerBelow(a: nat, m: nat, b: nat, n: nat, times: nat)
    requires Pow(a, m) <= Pow(b, n)
    ensures Pow(a, m * times) <= Pow(b, n * times)
  {
    PowMul(a, m, times);
    PowMul(b, n, times);
    PowBaseMonotone(Pow(a, m), Pow(b, n), times);
  }

  lemma {:induction false} ProductsBelow(a: nat, b: nat, c: nat, d: nat)
    requires a <= b && c <= d
    ensures a * c <= b * d
  {
    MulLessEq(a, b, c);
    MulLessEqLeft(b, c, d);
  }

  lemma {:induction false} PowersBelow(a: nat, m: nat, m': nat, b: nat, n: nat, n': nat)
    requires Pow(a, m) <= Pow(b, n) && Pow(a, m') <= Pow(b, n')
    ensures Pow(a, m + m') <= Pow(b, n + n')
  {
    PowAdd(a, m, m');
    PowAdd(b, n, n');
    ProductsBelow(Pow(a, m), Pow(b, n), Pow(a, m'), Pow(b, n'));
  }

  lemma {:induction false} FiveFacts()
    ensures Pow(5, 31) <= Pow(2, 72) && Pow(5, 28) <= Pow(2, 66) && Pow(5, 6) <= Pow(2, 14)
  {
    hide Pow;
    SmallPower(27);
    SmallPower(6);
    SmallPower(4);
    SmallPower(1);
    PowAdd(5, 27, 4);
    PowAdd(5, 27, 1);
    BasePowers();
    SmallTwos();
    PowAdd(2, 64, 8);
    PowAdd(2, 64, 2);
  }

  lemma SmallTwos()
    ensures Pow(2, 8) == 256 && Pow(2, 2) == 4 && Pow(2, 14) == 16384 && Pow(10, 3) == 1000 && Pow(2, 10) == 1024
  {}

  /** 5^(b + d) * 2^c <= 10^b * 2^b follows from 5^d <= 2^(b - c). */
  lemma {:induction false} DigitsSuffice(c: nat, bias: nat, digits: nat)
    requires digits <= bias && c <= digits
    requires Pow(5, bias - digits) <= Pow(2, digits - c)
    ensures Pow(2, c) * Pow(5, bias) <= Pow(10, digits)
  {
    hide Pow;
    PowAdd(5, bias - digits, digits);
    PowAdd(2, c, digits - c);
    PowDistributes(5, 2, digits);
    var a, p, q, r := Pow(2, c), Pow(5, bias - digits), Pow(5, digits), Pow(2, digits - c);
    MulLessEqLeft(a, p, r);
    MulAssoc(a, p, q);
    MulLessEq(a * p, a * r, q);
    Commute(a * r, q);
  }

  lemma Commute(a: int, b: int)
    ensures a * b == b * a
  {}

  /** The published constants of both formats are sufficient. */
  lemma {:induction false} BothReady()
    ensures Ready(BINARY64) && Ready(BINARY32)
  {
    hide Pow;
    BothRegular();
    FiveFacts();
    SmallTwos();
    PowerBelow(5, 31, 2, 72, 9);
    PowersBelow(5, 279, 28, 2, 648, 66);
    DigitsSuffice(54, 1075, 768);
    PowAdd(2, 2, 52);
    PowersBelow(5, 31, 6, 2, 72, 14);
    PowMonotone(2, 86, 88);
    DigitsSuffice(25, 150, 113);
    PowAdd(2, 2, 23);
  }

  lemma {:induction false} TenFits(n: nat)
    requires n <= 1113
    ensures Pow(10, n) <= Pow(2, 3710)
  {
    hide Pow;
    SmallTwos();
    PowerBelow(10, 3, 2, 10, 371);
    PowMonotone(10, n, 1113);
  }

  lemma {:induction false} LimitIsPower(b: BigInt)
    requires b.Valid()
    ensures b.Limit() == Pow(2, 3968)
  {
    hide Pow, Up;
    UpIsShift(1, LIMBS);
    ShlOne(3968);
  }

  // ---------- the digits kept ----------

  predicate Lost(s: seq<byte>, maxDigits: nat) {
    |s| > maxDigits && !AllZeros(s[maxDigits..])
  }

  lemma {:induction false} KeptBounds(s: seq<byte>, maxDigits: nat)
    requires |s| > 0 && s[0] != ZERO && AllDigits(s) && maxDigits > 0
    ensures KeptDigits(s, maxDigits) <= maxDigits + 1
    ensures KeptDigits(s, maxDigits) <= |s|
    ensures 0 < KeptValue(s, maxDigits) < Pow(10, KeptDigits(s, maxDigits))
  {
    hide Dec, Tens, Pow;
    var n := if |s| < maxDigits then |s| else maxDigits;
    var p := s[..n];
    assert s[..|s|] == s;
    DecLower(p);
    DecBound(p);
    TensMonotone(1, 10, 0);
    TensOne(n);
    TensOne(n + 1);
    TensTens(1, n, 1);
    TensFirst(Tens(1, n));
  }

  /** If no digit but zeros is dropped, the big integer and the exponent are the number. */
  lemma {:induction false} KeptExactly(s: seq<byte>, maxDigits: nat)
    requires AllDigits(s) && !Lost(s, maxDigits)
    ensures KeptDigits(s, maxDigits) <= |s|
    ensures Dec(s) == Tens(KeptValue(s, maxDigits), |s| - KeptDigits(s, maxDigits))
  {
    if |s| > maxDigits {
      assert s == s[..maxDigits] + s[maxDigits..];
      DecConcat(s[..maxDigits], s[maxDigits..]);
      DecZeros(s[maxDigits..]);
    }
  }

  /** Otherwise both the number and the big integer, a digit 1 appended, lie strictly between
      the digits kept and their successor. */
  lemma {:induction false} KeptStrictly(s: seq<byte>, maxDigits: nat) returns (p: nat)
    requires AllDigits(s) && maxDigits > 0 && Lost(s, maxDigits) && s[0] != ZERO
    ensures p == Dec(s[..maxDigits]) >= Pow(10, maxDigits - 1)
    ensures Tens(p, |s| - maxDigits) < Dec(s) < Tens(p + 1, |s| - maxDigits)
    ensures KeptDigits(s, maxDigits) == maxDigits + 1
    ensures Tens(p, 1) < KeptValue(s, maxDigits) < Tens(p + 1, 1)
  {
    hide Dec, Tens, Pow;
    p := Dec(s[..maxDigits]);
    PrefixBrackets(s, maxDigits);
    DecLower(s[..maxDigits]);
    TensOne(maxDigits - 1);
    TensFirst(p);
    TensFirst(p + 1);
    DecPositive(s[maxDigits..]);
    assert Dec(s[maxDigits..]) > 0;
  }

  // ---------- which side of a point: the kept digits tell ----------

  /** Two decimals on the same side of the point `t`, all scaled by 2^bias. */
  ghost predicate SameSide(num: nat, den: nat, num': nat, den': nat, bias: nat, t: nat) {
    && (Shl(num, bias) > den * t <==> Shl(num', bias) > den' * t)
    && (Shl(num, bias) < den * t <==> Shl(num', bias) < den' * t)
  }

  lemma {:induction false} ShlTens(v: nat, n: nat, k: nat)
    ensures Shl(Tens(v, n), k) == Tens(Shl(v, k), n)
  {
    if n > 0 {
      ShlTens(v, n - 1, k);
      ShlTimes(Tens(v, n - 1), 10, k);
    }
  }

  lemma {:induction false} TensPower(j: nat, n: nat, t: nat)
    ensures Pow(10, j + n) * t == Tens(Pow(10, j) * t, n)
  {
    hide Pow, Tens;
    PowAdd(10, j, n);
    TensIsPow(Pow(10, j) * t, n);
    MulAssoc(Pow(10, j), Pow(10, n), t);
    Commute(Pow(10, n), t);
    MulAssoc(Pow(10, j), t, Pow(10, n));
  }

  lemma {:induction false} ExactSide(m: nat, k: nat, u: nat, bias: nat, t: nat)
    ensures SameSide(Tens(m, u), Pow(10, k + u), m, Pow(10, k), bias, t)
  {
    hide Pow, Tens, Shl;
    ShlTens(m, u, bias);
    TensPower(k, u, t);
    TensMonotone(Shl(m, bias), Pow(10, k) * t, u);
    TensMonotone(Pow(10, k) * t, Shl(m, bias), u);
  }

  /** No float and no halfway point lies strictly between two neighbouring decimals of that many digits. */
  lemma {:induction false} NothingBetween(p: nat, j: nat, t: nat, e: nat, bias: nat)
    requires t * Pow(5, bias) <= p
    ensures Pow(10, j) * Shl(t, e) <= Shl(p, bias) || Pow(10, j) * Shl(t, e) >= Shl(p + 1, bias)
  {
    hide Pow, Shl;
    var t5 := t * Pow(5, j);
    TenPower(t, j);
    ShlTimes(t, Pow(10, j), e);
    ShlShl(t5, j, e);
    assert Pow(10, j) * Shl(t, e) == Shl(t5, j + e);
    if j + e >= bias {
      var x := Shl(t5, j + e - bias);
      ShlShl(t5, j + e - bias, bias);
      ShlMonotone(x, p, bias);
      ShlMonotone(p + 1, x, bias);
    } else {
      PowMonotone(5, j, bias);
      MulLessEqLeft(t, Pow(5, j), Pow(5, bias));
      ShlMonotone(t5, p, j + e);
      ShlLonger(p, j + e, bias);
    }
  }

  /** A decimal strictly between two neighbours lies where they do. */
  lemma {:induction false} InteriorSide(num: nat, p: nat, w: nat, j: nat, bias: nat, t: nat)
    requires Tens(p, w) < num < Tens(p + 1, w)
    ensures Pow(10, j) * t <= Shl(p, bias) ==> Shl(num, bias) > Pow(10, j + w) * t
    ensures Pow(10, j) * t >= Shl(p + 1, bias) ==> Shl(num, bias) < Pow(10, j + w) * t
  {
    hide Pow, Tens, Shl;
    TensPower(j, w, t);
    ShlTens(p, w, bias);
    ShlTens(p + 1, w, bias);
    ShlMonotone(num, Tens(p, w), bias);
    ShlMonotone(Tens(p + 1, w), num, bias);
    TensMonotone(Pow(10, j) * t, Shl(p, bias), w);
    TensMonotone(Shl(p + 1, bias), Pow(10, j) * t, w);
  }

  lemma {:induction false} LostSide(f: Format, s: seq<byte>, k: nat, t: nat, e: nat)
    requires Ready(f) && AllDigits(s) && Lost(s, f.maxDigits) && s[0] != ZERO && k >= 1
    requires t < 4 * Pow(2, f.mantissaBits)
    ensures SameSide(Dec(s), Pow(10, k + |s| - f.maxDigits - 1), KeptValue(s, f.maxDigits), Pow(10, k), f.Bias(), Shl(t, e))
  {
    hide Pow, Tens, Shl, Dec;
    var p := KeptStrictly(s, f.maxDigits);
    MulLessEq(t, 4 * Pow(2, f.mantissaBits), Pow(5, f.Bias()));
    NothingBetween(p, k - 1, t, e, f.Bias());
    InteriorSide(Dec(s), p, |s| - f.maxDigits, k - 1, f.Bias(), Shl(t, e));
    InteriorSide(KeptValue(s, f.maxDigits), p, 1, k - 1, f.Bias(), Shl(t, e));
  }

  /** The digits kept are on the same side of every float and halfway point as all the digits. */
  lemma {:induction false} KeptSide(f: Format, s: seq<byte>, k: nat, t: nat, e: nat)
    requires Ready(f) && |s| > 0 && AllDigits(s) && s[0] != ZERO && k >= 1
    requires t < 4 * Pow(2, f.mantissaBits)
    ensures KeptDigits(s, f.maxDigits) <= |s|
    ensures SameSide(Dec(s), Pow(10, k + |s| - KeptDigits(s, f.maxDigits)), KeptValue(s, f.maxDigits), Pow(10, k),
                     f.Bias(), Shl(t, e))
  {
    hide Pow, Tens, Shl, Dec;
    if Lost(s, f.maxDigits) {
      LostSide(f, s, k, t, e);
    } else {
      KeptExactly(s, f.maxDigits);
      ExactSide(KeptValue(s, f.maxDigits), k, |s| - KeptDigits(s, f.maxDigits), f.Bias(), Shl(t, e));
    }
  }

  /** The digits kept are close to the same neighbours as all the digits. */
  lemma {:induction false} KeptClose(f: Format, s: seq<byte>, k: nat, b: nat)
    requires Ready(f) && |s| > 0 && AllDigits(s) && s[0] != ZERO && k >= 1
    requires KeptDigits(s, f.maxDigits) <= |s|
    requires CloseTo(f, Dec(s), Pow(10, k + |s| - KeptDigits(s, f.maxDigits)), b)
    ensures CloseTo(f, KeptValue(s, f.maxDigits), Pow(10, k), b)
  {
    hide Pow, Shl, Dec, Units, KeptDigits, KeptValue, ToExtendedHalfway;
    var e := HalfwayUnits(f, b + 1);
    KeptSide(f, s, k, ToExtendedHalfway(f, b + 1).mantissa, e);
    if b > 0 {
      var e' := HalfwayUnits(f, b - 1);
      KeptSide(f, s, k, ToExtendedHalfway(f, b - 1).mantissa, e');
    }
  }

  /** And they decide alike. */
  lemma {:induction false} KeptDecides(f: Format, s: seq<byte>, k: nat, b: nat, c: nat)
    requires Ready(f) && |s| > 0 && AllDigits(s) && s[0] != ZERO && k >= 1
    requires KeptDigits(s, f.maxDigits) <= |s|
    requires SplitAtHalfway(f, KeptValue(s, f.maxDigits), Pow(10, k), b, c)
    ensures SplitAtHalfway(f, Dec(s), Pow(10, k + |s| - KeptDigits(s, f.maxDigits)), b, c)
  {
    hide Pow, Shl, Dec, Units, KeptDigits, KeptValue, ToExtendedHalfway;
    var e := HalfwayUnits(f, b);
    KeptSide(f, s, k, ToExtendedHalfway(f, b).mantissa, e);
  }

  // ---------- the sides of the comparison fit the big integer ----------

  lemma {:induction false} SidesBounded(f: Format, b: nat, m: nat, k: nat)
    requires f.Regular() && CloseTo(f, m, Pow(10, k), b)
    ensures var half := ToExtendedHalfway(f, b);
            && half.mantissa < BASE
            && RealDigits(m, k, half.power2) <= m + 4 * (half.mantissa * Pow(5, k))
            && TheorDigits(half.mantissa, k, half.power2) <= 3 * m + Pow(10, k) + half.mantissa * Pow(5, k)
  {
    hide Pow, Shl, Units, ToExtendedHalfway;
    var bias, ten, half := f.Bias(), Pow(10, k), ToExtendedHalfway(f, b);
    var e := HalfwayUnits(f, b);
    var t := half.mantissa;
    HalfwayFits(f, t);
    var x, t5 := e - bias, t * Pow(5, k);
    TenPower(t, k);
    ShlTimes(t, ten, e);
    ShlShl(t5, k, e);
    var theor := ten * Shl(t, e);
    assert theor == Shl(t5, k + e);
    if x + k > 0 {
      assert theor <= 3 * Shl(m, bias) + ten by { CloseBelow(f, m, ten, b, Shl(t, e)); }
      ShlShl(t5, x + k, bias);
      ShlAdd(3 * m, ten, bias);
      ShlTimes(m, 3, bias);
      ShlLonger(ten, 0, bias);
      ShlNone(ten);
      ShlMonotone(Shl(t5, x + k), 3 * m + ten, bias);
    } else if x + k < 0 {
      ShlShl(m, -(x + k), k + e);
      assert Shl(m, bias) <= 4 * theor by {
        ShlLonger(t, 0, e);
        ShlNone(t);
        CloseAbove(f, m, ten, b, Shl(t, e));
      }
      ShlTimes(t5, 4, k + e);
      ShlMonotone(Shl(m, -(x + k)), t5 * 4, k + e);
    }
  }

  lemma {:induction false} CloseBelow(f: Format, m: nat, ten: nat, b: nat, t: nat)
    requires f.Regular() && CloseTo(f, m, ten, b) && t == Units(f, b) + Units(f, b + 1)
    ensures ten * t <= 3 * Shl(m, f.Bias()) + ten
  {
    hide Units, Shl, Pow;
    var e := HalfwayUnits(f, b);
    AtMostThrice(ten, Units(f, b), t);
    if b > 0 {
      MulLessEqLeft(ten, Units(f, b), Units(f, b - 1) + Units(f, b));
    } else {
      SubnormalUnits(f, 0);
    }
  }

  lemma {:induction false} CloseAbove(f: Format, m: nat, ten: nat, b: nat, t: nat)
    requires f.Regular() && CloseTo(f, m, ten, b) && t == Units(f, b) + Units(f, b + 1) && t >= 1
    ensures Shl(m, f.Bias()) <= 4 * (ten * t)
  {
    hide Units, Shl, Pow;
    var e := HalfwayUnits(f, b + 1);
    MulLessEqLeft(ten, Units(f, b + 1) + Units(f, b + 2), 4 * t);
    MulAssoc(ten, 4, t);
  }

  lemma AtMostThrice(ten: nat, u: nat, t: nat)
    requires t <= 3 * u + 1
    ensures ten * t <= 3 * (ten * u) + ten
  {
    MulLessEqLeft(ten, t, 3 * u + 1);
    Distribute(3 * u, 1, ten);
    MulAssoc(ten, 3, u);
  }

  lemma {:induction false} SidesWithin(f: Format, b: nat, m: nat, k: nat)
    requires f.Regular() && CloseTo(f, m, Pow(10, k), b)
    requires m < Pow(10, 770) && k <= 1112
    ensures SidesFit(f, b, m, k, Pow(2, 3968))
  {
    hide Pow, Shl, Units, ToExtendedHalfway, RealDigits, TheorDigits, CloseTo;
    SidesBounded(f, b, m, k);
    var t := ToExtendedHalfway(f, b).mantissa;
    var big := Pow(2, 3710);
    TenFits(770);
    TenFits(k);
    PowBaseMonotone(5, 10, k);
    ProductsBelow(t, BASE, Pow(5, k), big);
    BasePowers();
    PowAdd(2, 64, 3710);
    PowAdd(2, 3774, 8);
    SmallTwos();
    PowMonotone(2, 3782, 3968);
    assert 4 * big <= BASE * big;
  }

  // ---------- the place of the leading digit ----------

  lemma {:induction false} PlacesUnique(v: nat, m: nat, n: nat)
    requires Tens(1, m) <= v < Tens(1, m + 1) && Tens(1, n) <= v < Tens(1, n + 1)
    ensures m == n
  {
    hide Tens;
    if m < n { PlacesLonger(m + 1, n); }
    if n < m { PlacesLonger(n + 1, m); }
  }

  lemma {:induction false} PlacesLonger(m: nat, n: nat)
    requires m <= n
    ensures Tens(1, m) <= Tens(1, n)
  {
    TensTens(1, m, n - m);
  }

  /** Dropping digits below a nonzero one drops significant digits. */
  lemma {:induction false} SignificantPrefix(d: seq<byte>, cut: nat)
    requires cut <= |d| && LeadingZeros(d[..cut]) < cut
    ensures |Significant(d)| == |Significant(d[..cut])| + |d| - cut
    ensures Significant(d[..cut])[0] != ZERO
  {
    hide LeadingZeros;
    assert d == d[..cut] + d[cut..];
    LeadingOfConcat(d[..cut], d[cut..]);
    LeadingDigit(d[..cut]);
  }

  lemma LeadingDigit(s: seq<byte>)
    requires LeadingZeros(s) < |s|
    ensures s[LeadingZeros(s)] != ZERO && Significant(s)[0] != ZERO
  {}

  /** The scientific exponent is that of the leading significant digit. */
  lemma {:induction false} ScientificPlace(num: ParsedNumber, x: int, cut: nat, sciExp: int)
    requires Scanned(num, x, cut) && num.mantissa > 0 && sciExp >= num.exponent
    requires Tens(1, sciExp - num.exponent) <= num.mantissa < Tens(1, sciExp - num.exponent + 1)
    ensures sciExp + 1 == x - |num.fraction| + |Significant(num.Digits())|
    ensures num.exponent + 1 <= x - |num.fraction| + |Significant(num.Digits())| <= num.exponent + 19
    ensures |Significant(num.Digits())| > 0 && Significant(num.Digits())[0] != ZERO
  {
    hide Tens, LeadingZeros, Dec, Pow;
    var d := num.Digits();
    var t := d[..cut];
    SignificantDec(t);
    DecPositive(t);
    LeadingZerosBound(t);
    SignificantPrefix(d, cut);
    LeadingZerosBound(d);
    SignificantHead(d);
    var s := Significant(t);
    DecLower(s);
    DecBound(s);
    PlacesUnique(num.mantissa, |s| - 1, sciExp - num.exponent);
    TensOne(19);
    TenToNineteen();
    if |s| > 19 {
      PlacesLonger(19, |s| - 1);
    }
  }

  lemma SignificantHead(d: seq<byte>)
    ensures |Significant(d)| > 0 ==> Significant(d)[0] != ZERO
  {}

  // ---------- the whole comparison ----------

  function Numerator(v: nat, e: int): nat {
    if e >= 0 then Tens(v, e) else v
  }

  function Denominator(e: int): nat {
    if e >= 0 then 1 else Pow(10, -e)
  }

  /** The exponent of the big integer's last digit. */
  function BigExponent(f: Format, num: ParsedNumber, x: int): int {
    x - |num.fraction| + |Significant(num.Digits())| - KeptDigits(Significant(num.Digits()), f.maxDigits)
  }

  /** With an exponent that is not negative all digits have been kept, and the product fits. */
  lemma {:induction false} PositiveCase(f: Format, s: seq<byte>, e: int, exponent: nat)
    requires Ready(f) && |s| > 0 && AllDigits(s) && s[0] != ZERO
    requires e + |s| <= f.largestPowerOfTen + 19
    requires exponent == e + |s| - KeptDigits(s, f.maxDigits)
    ensures e == exponent && KeptValue(s, f.maxDigits) == Dec(s)
    ensures Dec(s) * Pow(10, exponent) < Pow(2, 3968)
    ensures Numerator(Dec(s), e) == Dec(s) * Pow(10, exponent)
  {
    hide Dec, Tens, Pow;
    KeptBounds(s, f.maxDigits);
    assert s[..|s|] == s;
    TensIsPow(Dec(s), exponent);
    PowerPositive(exponent);
    MulLess(Dec(s), Pow(10, |s|), Pow(10, exponent));
    PowAdd(10, |s|, exponent);
    TenFits(|s| + exponent);
    PowMonotone(2, 3710, 3968);
  }

  lemma {:induction false} PowerPositive(n: nat)
    ensures Pow(10, n) >= 1
  {}

  lemma {:induction false} NegativeCase(f: Format, am: AdjustedMantissa, s: seq<byte>, e: int, k: nat)
    requires Ready(f) && |s| > 0 && AllDigits(s) && s[0] != ZERO && k >= 1
    requires e + |s| >= f.smallestPowerOfTen + 1
    requires e + |s| + k == KeptDigits(s, f.maxDigits)
    requires Bracketed(f, am, Numerator(Dec(s), e), Denominator(e))
    ensures e < 0 && KeptDigits(s, f.maxDigits) <= |s| && -e == k + |s| - KeptDigits(s, f.maxDigits)
    ensures Bracketed(f, am, KeptValue(s, f.maxDigits), Pow(10, k))
    ensures SidesFit(f, Floor(f, am), KeptValue(s, f.maxDigits), k, Pow(2, 3968))
  {
    hide Dec, Tens, Pow, Shl, Units, Floor, SidesFit, CloseTo, KeptValue;
    KeptBounds(s, f.maxDigits);
    KeptClose(f, s, k, Floor(f, am));
    PowMonotone(10, KeptDigits(s, f.maxDigits), 770);
    SidesWithin(f, Floor(f, am), KeptValue(s, f.maxDigits), k);
  }

  /** Where the digits are not cut, and also where they are, the answer is the correctly rounded value of all of them.
      `am` is only used when the big integer has a negative exponent; it must then be off by less than one float. */
  method DigitComp(f: Format, num: ParsedNumber, am0: AdjustedMantissa, ghost x: int, ghost cut: nat)
    returns (answer: AdjustedMantissa)
    requires Ready(f) && Scanned(num, x, cut) && num.mantissa > 0
    requires !num.hasFraction ==> num.fraction == []
    requires f.smallestPowerOfTen <= num.exponent <= f.largestPowerOfTen
    requires BigExponent(f, num, x) < 0 ==>
               Bracketed(f, am0.(power2 := am0.power2 - INVALID_AM_BIAS),
                         Numerator(Dec(num.Digits()), x - |num.fraction|), Denominator(x - |num.fraction|))
    ensures Fields(f, answer)
    ensures IsNearest(f, Numerator(Dec(num.Digits()), x - |num.fraction|), Denominator(x - |num.fraction|), Word(f, answer))
  {
    hide Dec, Tens, Pow, Shl, Units, Floor, SidesFit, Bracketed, KeptValue, KeptDigits, Significant, IsNearest,
         Value, Up,
         Numerator, SplitAtHalfway, Or;
    // remove the invalid exponent bias
    var am := am0.(power2 := am0.power2 - INVALID_AM_BIAS);
    var sciExp := ScientificExponent(num);
    ScientificPlace(num, x, cut, sciExp);
    ghost var s, e := Significant(num.Digits()), x - |num.fraction|;
    DigitsSignificant(num);
    var bigmant := new BigInt();
    LimitIsPower(bigmant);
    RoomFits(f);
    var digits := ParseMantissa(bigmant, num, f.maxDigits);
    KeptBounds(s, f.maxDigits);
    var exponent := sciExp + 1 - digits;
    if exponent >= 0 {
      PositiveCase(f, s, e, exponent);
      answer := PositiveDigitComp(f, bigmant, exponent);
    } else {
      NegativeCase(f, am, s, e, -exponent);
      answer := NegativeDigitComp(f, bigmant, am, exponent);
      NegativeDone(f, am, s, e, -exponent, Word(f, answer));
    }
  }

  lemma {:induction false} NegativeDone(f: Format, am: AdjustedMantissa, s: seq<byte>, e: int, k: nat, c: nat)
    requires Ready(f) && |s| > 0 && AllDigits(s) && s[0] != ZERO && k >= 1
    requires e < 0 && KeptDigits(s, f.maxDigits) <= |s| && -e == k + |s| - KeptDigits(s, f.maxDigits)
    requires Bracketed(f, am, Numerator(Dec(s), e), Denominator(e))
    requires SplitAtHalfway(f, KeptValue(s, f.maxDigits), Pow(10, k), Floor(f, am), c)
    ensures IsNearest(f, Numerator(Dec(s), e), Denominator(e), c)
  {
    hide Dec, Tens, Pow, Shl, Units, Floor, CloseTo, SplitAtHalfway, KeptValue, IsNearest;
    KeptDecides(f, s, k, Floor(f, am), c);
    PowerPositive(-e);
    HalfwayDecides(f, Dec(s), Pow(10, -e), Floor(f, am), c);
  }

  lemma {:induction false} DigitsSignificant(num: ParsedNumber)
    requires AllDigits(num.Digits())
    ensures AllDigits(Significant(num.Digits()))
    ensures Dec(Significant(num.Digits())) == Dec(num.Digits())
    ensures AllDigits(num.integer) && AllDigits(num.fraction)
  {
    hide Dec;
    var d := num.Digits();
    SignificantDec(d);
    assert num.integer == d[..|num.integer|] && num.fraction == d[|num.integer|..];
  }

  lemma {:induction false} RoomFits(f: Format)
    requires Ready(f)
    ensures Tens(1, f.maxDigits + 1) <= Pow(2, 3968)
  {
    hide Pow, Tens;
    TensOne(f.maxDigits + 1);
    TenFits(f.maxDigits + 1);
    PowMonotone(2, 3710, 3968);
  }
}
