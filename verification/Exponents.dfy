/** Explicit exponents: the scanner stops accumulating them at a cap. For which texts that goes unnoticed. */
module Exponents {
  import opened Bits
  import opened Limbs
  import opened BigInts
  import opened Decimal
  import opened NumberScanner
  import opened Ieee
  import opened DigitComparison
  import opened SlowPath

  function Digits(text: seq<byte>, o: Options): seq<byte> {
    IntegerPart(text) + FractionPart(text, o)
  }

  /** The decimal exponent of the last digit, as it is computed. */
  function Exponent(text: seq<byte>, o: Options): int {
    ExpNumber(text, o) - |FractionPart(text, o)|
  }

  /** The same as it is written. */
  function Written(text: seq<byte>, o: Options): int {
    WrittenNumber(text, o) - |FractionPart(text, o)|
  }

  /** The word is v * 10^e, correctly rounded. */
  ghost predicate Reads(f: Format, v: nat, e: int, word: nat)
    requires f.Bias() >= 1
  {
    IsNearest(f, Numerator(v, e), Denominator(e), word)
  }

  lemma ReadsWord(f: Format, v: nat, e: int, word: nat)
    requires f.Bias() >= 1 && Reads(f, v, e, word)
    ensures word <= f.Infinity()
  {}

  // ---------- numbers out of every range ----------

  /** 10^-z is the largest power of ten that rounds to zero, and 10^z overflows. */
  ghost predicate Edge(f: Format, z: nat) {
    && f.Regular() && z <= CAP
    && Pow(2, f.Bias()) <= Pow(10, z) < 9 * Pow(2, f.Bias())
    && f.mantissaBits + f.infinitePower <= 2 * f.Bias()
  }

  lemma {:induction false} EdgeFrom(f: Format, z: nat, low: nat, high: nat)
    requires f.Regular() && z <= CAP && z <= f.Bias() && f.mantissaBits + f.infinitePower <= 2 * f.Bias()
    requires Pow(2, low) <= Pow(5, z) <= Pow(2, high) && f.Bias() - z <= low && high <= f.Bias() - z + 3
    ensures Edge(f, z)
  {
    hide Pow;
    var b := f.Bias();
    PowDistributes(5, 2, z);
    PowMonotone(2, b - z, low);
    PowMonotone(2, high, b - z + 3);
    PowAdd(2, b - z, z);
    PowAdd(2, b - z + 3, z);
    PowAdd(2, b, 3);
    assert Pow(2, 3) == 8 by { SmallTwos(); PowAdd(2, 3, 3); PowAdd(2, 6, 2); EightIs(); }
    MulLessEq(Pow(2, b - z), Pow(5, z), Pow(2, z));
    MulLessEq(Pow(5, z), Pow(2, b - z + 3), Pow(2, z));
  }

  lemma EightIs()
    ensures Pow(2, 3) == 8
  {}

  lemma {:induction false} MoreFives()
    ensures Pow(2, 65) <= Pow(5, 28) && Pow(2, 37) <= Pow(5, 16) && Pow(2, 41) <= Pow(5, 18)
    ensures Pow(5, 14) <= Pow(2, 33) && Pow(5, 15) <= Pow(2, 35)
  {
    hide Pow;
    BasePowers();
    MoreTwos();
    SmallPower(14);
    PowAdd(2, 32, 1);
    SmallPower(15);
    PowAdd(2, 32, 3);
    SmallPower(16);
    PowAdd(2, 32, 5);
    SmallPower(18);
    PowAdd(2, 32, 9);
    FiveTwentyEight();
  }

  lemma {:induction false} FiveTwentyEight()
    ensures Pow(2, 65) <= Pow(5, 28)
  {
    hide Pow;
    SmallPower(27);
    SmallPower(1);
    PowAdd(5, 27, 1);
    BasePowers();
    MoreTwos();
    PowAdd(2, 64, 1);
  }

  lemma MoreTwos()
    ensures Pow(2, 1) == 2 && Pow(2, 3) == 8 && Pow(2, 5) == 32 && Pow(2, 9) == 512
  {}

  /** 10^-324 and 10^-46 are the largest powers of ten that binary64 and binary32 round to zero. */
  lemma {:induction false} BothEdges()
    ensures Edge(BINARY64, 324) && Edge(BINARY32, 46)
  {
    hide Pow;
    BothRegular();
    FiveFacts();
    MoreFives();
    PowerBelow(2, 65, 5, 28, 11);
    PowersBelow(2, 715, 37, 5, 308, 16);
    PowerBelow(5, 31, 2, 72, 10);
    PowersBelow(5, 310, 14, 2, 720, 33);
    EdgeFrom(BINARY64, 324, 752, 753);
    PowersBelow(2, 65, 41, 5, 28, 18);
    PowersBelow(5, 31, 15, 2, 72, 35);
    EdgeFrom(BINARY32, 46, 106, 107);
  }

  lemma {:induction false} InfinityUnits(f: Format)
    requires f.Regular()
    ensures Units(f, f.Infinity()) == Shl(Pow(2, f.mantissaBits), f.infinitePower - 1)
  {
    InfinityBound(f);
    NormalUnits(f, Pow(2, f.mantissaBits), f.infinitePower);
  }

  lemma {:induction false} TooLarge(f: Format, z: nat, v: nat, places: nat, e: int)
    requires Edge(f, z) && v >= Pow(10, places) && e >= 0 && places + e >= z
    ensures Reads(f, v, e, f.Infinity())
  {
    hide Pow, Shl, Units, Tens, IsNearest;
    var n, b := f.mantissaBits + f.infinitePower - 1, f.Bias();
    InfinityUnits(f);
    InfinityBound(f);
    ShlOne(f.mantissaBits);
    ShlShl(1, f.mantissaBits, f.infinitePower - 1);
    ShlLonger(1, n, 2 * b - 1);
    ShlOne(b);
    ShlShl(1, b, b - 1);
    TensMonotone(Pow(10, places), v, e);
    TensIsPow(Pow(10, places), e);
    PowAdd(10, places, e);
    PowMonotone(10, z, places + e);
    ShlMonotone(Pow(2, b), Tens(v, e), b - 1);
    OverflowDecides(f, Tens(v, e), 1);
  }

  lemma {:induction false} TooSmall(f: Format, z: nat, v: nat, places: nat, e: int)
    requires Edge(f, z) && v <= Pow(10, places) && places + z <= -e && e < 0
    ensures Reads(f, v, e, 0)
  {
    hide Pow, Shl, Units, IsNearest;
    var b := f.Bias();
    ShlIsPow(v, b);
    ProductsBelow(v, Pow(10, places), Pow(2, b), Pow(10, z));
    PowAdd(10, places, z);
    PowMonotone(10, places + z, -e);
    InfinityBound(f);
    UnderflowIff(f, v, Pow(10, -e));
  }

  // ---------- where the cap goes unnoticed ----------

  /** The exponent is below ten times the cap, or there are too few digits to bring the number back from beyond it. */
  ghost predicate Unnoticed(f: Format, text: seq<byte>, o: Options) {
    || Dec(ExponentDigits(text, o)) < 10 * CAP
    || exists z :: Edge(f, z) && |Digits(text, o)| + z <= CAP
  }

  /** What is correct for the accumulated exponent is correct for the written one. */
  ghost predicate ReadRight(f: Format, text: seq<byte>, o: Options)
    requires f.Bias() >= 1
  {
    var v := Dec(Digits(text, o));
    forall c :: Reads(f, v, Exponent(text, o), c) ==> Reads(f, v, Written(text, o), c)
  }

  lemma {:induction false} ZeroReads(f: Format, e: int, c: nat)
    requires f.Regular()
    ensures Reads(f, 0, e, c) <==> c == 0
  {
    hide Pow, Shl, Tens, IsNearest;
    if e >= 0 { TensZero(e); }
    PowerPositive(if e >= 0 then 0 else -e);
    ShlZero(f.Bias());
    InfinityBound(f);
    PowerPositive(f.mantissaBits);
    UnderflowIff(f, 0, Denominator(e));
    if Reads(f, 0, e, c) { NearestUnique(f, 0, Denominator(e), c, 0); }
  }

  lemma {:induction false} ReadsUnique(f: Format, v: nat, e: int, b: nat, c: nat)
    requires f.Bias() >= 1 && Reads(f, v, e, b) && Reads(f, v, e, c)
    ensures b == c
  {
    hide Pow, IsNearest, Numerator;
    PowerPositive(if e >= 0 then 0 else -e);
    NearestUnique(f, Numerator(v, e), Denominator(e), b, c);
  }

  lemma TenNone()
    ensures Pow(10, 0) == 1
  {}

  /** The two exponents differ, but lead out of range alike. */
  lemma {:induction false} BothFar(f: Format, z: nat, text: seq<byte>, o: Options, c: nat)
    requires Edge(f, z) && |Digits(text, o)| + z <= CAP && Dec(ExponentDigits(text, o)) >= CAP
    requires Reads(f, Dec(Digits(text, o)), Exponent(text, o), c)
    ensures Reads(f, Dec(Digits(text, o)), Written(text, o), c)
  {
    hide Dec, Saturating, Pow, Reads, IntegerPart, FractionPart, ExponentDigits, ExponentNegative, Tens;
    var d := Digits(text, o);
    var v, e, e' := Dec(d), Exponent(text, o), Written(text, o);
    SaturatingExact(ExponentDigits(text, o));
    DecBound(d);
    TensOne(|d|);
    if v == 0 {
      ZeroReads(f, e, c);
      ZeroReads(f, e', c);
    } else if ExponentNegative(text, o) {
      TooSmall(f, z, v, |d|, e);
      TooSmall(f, z, v, |d|, e');
      ReadsUnique(f, v, e, c, 0);
    } else {
      TenNone();
      TooLarge(f, z, v, 0, e);
      TooLarge(f, z, v, 0, e');
      ReadsUnique(f, v, e, c, f.Infinity());
    }
  }

  lemma {:induction false} UnnoticedIsRight(f: Format, text: seq<byte>, o: Options)
    requires f.Regular() && Unnoticed(f, text, o)
    ensures ReadRight(f, text, o)
  {
    hide Dec, Saturating, Reads, IntegerPart, FractionPart, ExponentDigits, ExponentNegative, Edge;
    SaturatingExact(ExponentDigits(text, o));
    if Dec(ExponentDigits(text, o)) >= 10 * CAP {
      var z :| Edge(f, z) && |Digits(text, o)| + z <= CAP;
      forall c | Reads(f, Dec(Digits(text, o)), Exponent(text, o), c)
        ensures Reads(f, Dec(Digits(text, o)), Written(text, o), c)
      {
        BothFar(f, z, text, o, c);
      }
    }
  }

  // ---------- and where it does not ----------

  /** 2684354560, ten times the cap. */
  const FAR: seq<byte> := [50, 54, 56, 52, 51, 53, 52, 53, 54, 48]

  lemma {:induction false} FarDigits()
    ensures Dec(FAR) == 10 * CAP && Saturating(FAR) == CAP
  {
    hide Dec, Saturating;
    DecEmpty();
    var s: seq<byte> := [];
    for i := 0 to 9
      invariant s == FAR[..i] && Dec(s) == [0, 2, 26, 268, 2684, 26843, 268435, 2684354, 26843545, 268435456][i]
    {
      DecSnoc(s, FAR[i]);
      assert FAR[..i + 1] == s + [FAR[i]];
      s := s + [FAR[i]];
    }
    SaturatingExact(s);
    DecSnoc(s, FAR[9]);
    SaturatingSnoc(s, FAR[9]);
    assert FAR == s + [FAR[9]];
  }

  /** An exponent letter that is not taken for the decimal point. */
  function Letter(o: Options): (c: byte)
    ensures c != o.decimalPoint && IsExponentLetter(c)
    ensures o.scientific ==> c == LOWER_E || c == UPPER_E
    ensures !o.scientific ==> c == LOWER_D || c == UPPER_D
  {
    if o.scientific then (if o.decimalPoint != LOWER_E then LOWER_E else UPPER_E)
    else if o.decimalPoint != LOWER_D then LOWER_D else UPPER_D
  }

  function Nine(n: nat): seq<byte> {
    [NINE] + seq(n, _ => ZERO)
  }

  /** A nine with n zeros, times 10^-2684354560. */
  function FarText(o: Options, n: nat): seq<byte> {
    Nine(n) + [Letter(o), MINUS] + FAR
  }

  lemma {:induction false} FarMantissa(o: Options, n: nat)
    requires !IsInteger(o.decimalPoint)
    ensures var text := FarText(o, n);
            && Start(text) == 0 && IntegerEnd(text) == MantissaEnd(text, o) == n + 1
            && IntegerPart(text) == Nine(n) && FractionPart(text, o) == []
  {
    hide DigitRun;
    var text := FarText(o, n);
    assert text[n + 1] == Letter(o);
    DigitRunUnique(text, 0, n + 1);
    assert text[..n + 1] == Nine(n);
  }

  lemma {:induction false} FarExponent(o: Options, n: nat)
    requires o.scientific || o.fortran
    requires MantissaEnd(FarText(o, n), o) == n + 1
    ensures HasExponent(FarText(o, n), o) && ExponentNegative(FarText(o, n), o)
    ensures ExponentDigits(FarText(o, n), o) == FAR
  {
    hide DigitRun, MantissaEnd;
    var text := FarText(o, n);
    assert text[n + 1] == Letter(o) && text[n + 2] == MINUS;
    assert text[n + 3..] == FAR;
    forall k | 0 <= k < 10 ensures text[n + 3 + k] == FAR[k] {}
    DigitRunUnique(text, n + 3, |text|);
  }

  lemma {:induction false} FarTextParts(o: Options, n: nat)
    requires !IsInteger(o.decimalPoint) && (o.scientific || o.fortran)
    ensures WellFormed(FarText(o, n), o) && ExponentNegative(FarText(o, n), o)
    ensures ExponentDigits(FarText(o, n), o) == FAR
    ensures IntegerPart(FarText(o, n)) == Nine(n) && FractionPart(FarText(o, n), o) == []
  {
    hide DigitRun, IntegerEnd, MantissaEnd, ExponentDigits, ExponentNegative, HasExponent, IntegerPart, FractionPart;
    FarMantissa(o, n);
    FarExponent(o, n);
  }

  lemma {:induction false} NineValue(n: nat)
    ensures Dec(Nine(n)) == 9 * Pow(10, n)
  {
    hide Dec, Pow, Tens;
    var zeros: seq<byte> := seq(n, _ => ZERO);
    DecEmpty();
    DecSnoc([], NINE);
    assert [] + [NINE] == [NINE];
    DecConcat([NINE], zeros);
    DecZeros(zeros);
    TensIsPow(9, n);
  }

  /** 9 * 10^n times 10^-CAP is one digit too long to round to zero. */
  lemma {:induction false} JustInside(f: Format, z: nat, n: nat)
    requires Edge(f, z) && n + z == CAP
    ensures !Reads(f, 9 * Pow(10, n), -CAP, 0)
  {
    hide Pow, Shl, IsNearest, Units;
    var b, x, y := f.Bias(), Pow(10, n), Pow(2, f.Bias());
    PowAdd(10, n, z);
    ShlIsPow(9 * x, b);
    NineTimes(x, y);
    PowerPositive(n);
    MulLess(Pow(10, z), 9 * y, x);
    Commute(Pow(10, z), x);
    PowerPositive(CAP);
    PowerPositive(f.mantissaBits);
    InfinityBound(f);
    UnderflowIff(f, 9 * x, Pow(10, CAP));
  }

  lemma NineTimes(x: int, y: int)
    ensures 9 * x * y == 9 * y * x
  {}

  /** A text with just too many digits that is read as a number other than zero, though what it says rounds to zero. */
  lemma {:induction false} FarMisread(f: Format, z: nat, o: Options)
    requires Edge(f, z) && !IsInteger(o.decimalPoint) && (o.scientific || o.fortran)
    ensures var text := FarText(o, CAP - z);
            WellFormed(text, o) && |Digits(text, o)| == CAP - z + 1 && !ReadRight(f, text, o)
  {
    hide Pow, Dec, Saturating, WellFormed, IntegerPart, FractionPart, ExponentDigits, ExponentNegative, FarText, FAR,
         Units, Shl, IsNearest;
    var n: nat := CAP - z;
    var text, v := FarText(o, n), 9 * Pow(10, n);
    FarTextParts(o, n);
    FarDigits();
    NineValue(n);
    assert Digits(text, o) == Nine(n);
    assert Exponent(text, o) == -CAP && Written(text, o) == -10 * CAP;
    JustInside(f, z, n);
    PowerPositive(CAP);
    var c := NearestExists(f, v, Pow(10, CAP));
    assert Reads(f, v, -CAP, c);
    PowAdd(10, n, 1);
    TenIs();
    TooSmall(f, z, v, n + 1, -10 * CAP);
    if Reads(f, v, -10 * CAP, c) {
      ReadsUnique(f, v, -10 * CAP, c, 0);
    }
  }

  lemma TenIs()
    ensures Pow(10, 1) == 10
  {}

  /** Every accepted text with that many digits is read right. */
  ghost predicate AllRight(f: Format, o: Options, digits: nat)
    requires f.Bias() >= 1
  {
    forall text :: WellFormed(text, o) && |Digits(text, o)| <= digits ==> ReadRight(f, text, o)
  }

  /** The cap goes unnoticed exactly in texts that are z digits shorter than it. */
  lemma {:induction false} AllRightIff(f: Format, z: nat, o: Options, digits: nat)
    requires Edge(f, z) && !IsInteger(o.decimalPoint) && (o.scientific || o.fortran)
    ensures AllRight(f, o, digits) <==> digits + z <= CAP
  {
    hide Digits, WellFormed, ReadRight, FarText, Pow;
    if digits + z <= CAP {
      forall text | WellFormed(text, o) && |Digits(text, o)| <= digits ensures ReadRight(f, text, o) {
        assert Unnoticed(f, text, o);
        UnnoticedIsRight(f, text, o);
      }
    } else {
      FarMisread(f, z, o);
    }
  }
}
