/** The number scanner: cuts a text into integer part, fraction and exponent, and keeps nineteen digits. */
module NumberScanner {
  import opened Bits
  import opened Limbs
  import opened Decimal
  import opened Swar

  /** The format flags and the decimal point. */
  datatype Options = Options(scientific: bool, fixed: bool, json: bool, fortran: bool, decimalPoint: byte)

  /** What the scanner reports: value = mantissa * 10^exponent when not too many digits. */
  datatype ParsedNumber = ParsedNumber(
    exponent: int,
    mantissa: nat,
    lastmatch: nat,
    negative: bool,
    valid: bool,
    tooManyDigits: bool,
    integer: seq<byte>,
    hasFraction: bool,
    fraction: seq<byte>)
  {
    function Digits(): seq<byte> {
      integer + fraction
    }
  }

  const MINUS: byte := 45
  const PLUS: byte := 43
  const LOWER_E: byte := 101
  const UPPER_E: byte := 69
  const LOWER_D: byte := 100
  const UPPER_D: byte := 68

  const MINIMAL_NINETEEN_DIGITS: nat := 1000000000000000000

  // ---------- the accepted texts ----------

  /** Where the run of digits starting at `p` ends. */
  function DigitRun(text: seq<byte>, p: nat): (q: nat)
    requires p <= |text|
    ensures p <= q <= |text|
    ensures forall i :: p <= i < q ==> IsInteger(text[i])
    ensures q < |text| ==> !IsInteger(text[q])
    decreases |text| - p
  {
    if p < |text| && IsInteger(text[p]) then DigitRun(text, p + 1) else p
  }

  lemma {:induction false} DigitRunUnique(text: seq<byte>, p: nat, q: nat)
    requires p <= q <= |text|
    requires forall i :: p <= i < q ==> IsInteger(text[i])
    requires q < |text| ==> !IsInteger(text[q])
    ensures DigitRun(text, p) == q
    decreases q - p
  {
    if p < q { DigitRunUnique(text, p + 1, q); }
  }

  predicate At(text: seq<byte>, p: nat, c: byte) {
    p < |text| && text[p] == c
  }

  function Start(text: seq<byte>): (p: nat)
    ensures p <= |text|
  {
    if At(text, 0, MINUS) then 1 else 0
  }

  function IntegerEnd(text: seq<byte>): (p: nat)
    ensures Start(text) <= p <= |text|
  {
    DigitRun(text, Start(text))
  }

  predicate HasPoint(text: seq<byte>, o: Options) {
    At(text, IntegerEnd(text), o.decimalPoint)
  }

  function MantissaEnd(text: seq<byte>, o: Options): (p: nat)
    ensures IntegerEnd(text) <= p <= |text|
    ensures HasPoint(text, o) ==> p > IntegerEnd(text)
  {
    if HasPoint(text, o) then DigitRun(text, IntegerEnd(text) + 1) else IntegerEnd(text)
  }

  function IntegerPart(text: seq<byte>): seq<byte> {
    text[Start(text)..IntegerEnd(text)]
  }

  function FractionPart(text: seq<byte>, o: Options): seq<byte> {
    if HasPoint(text, o) then text[IntegerEnd(text) + 1..MantissaEnd(text, o)] else []
  }

  predicate IsExponentLetter(c: byte) {
    c == LOWER_E || c == UPPER_E || c == LOWER_D || c == UPPER_D
  }

  /** Whether an exponent may begin at `p`. */
  predicate ExponentMark(text: seq<byte>, o: Options, p: nat) {
    || (o.scientific && (At(text, p, LOWER_E) || At(text, p, UPPER_E)))
    || (o.fortran && (At(text, p, PLUS) || At(text, p, MINUS) || At(text, p, LOWER_D) || At(text, p, UPPER_D)))
  }

  function AfterLetter(text: seq<byte>, p: nat): (q: nat)
    requires p < |text|
    ensures p <= q <= |text|
  {
    if IsExponentLetter(text[p]) then p + 1 else p
  }

  function AfterSign(text: seq<byte>, p: nat): (q: nat)
    requires p < |text|
    ensures p <= q <= |text|
  {
    var q := AfterLetter(text, p);
    if At(text, q, MINUS) || At(text, q, PLUS) then q + 1 else q
  }

  predicate HasExponent(text: seq<byte>, o: Options) {
    var p := MantissaEnd(text, o);
    ExponentMark(text, o, p) && AfterSign(text, p) < |text| && IsInteger(text[AfterSign(text, p)])
  }

  function ExponentDigits(text: seq<byte>, o: Options): seq<byte> {
    if HasExponent(text, o) then
      var q := AfterSign(text, MantissaEnd(text, o));
      text[q..DigitRun(text, q)]
    else []
  }

  predicate ExponentNegative(text: seq<byte>, o: Options) {
    HasExponent(text, o) && At(text, AfterLetter(text, MantissaEnd(text, o)), MINUS)
  }

  const CAP := 0x10000000

  /** The accumulated exponent stops growing once it is out of every range. */
  function Saturating(s: seq<byte>): nat {
    if |s| == 0 then 0
    else
      var e := Saturating(s[..|s| - 1]);
      if e < CAP then 10 * e + Digit(s[|s| - 1]) else e
  }

  /** It is the one written exactly below ten times the cap, and the cap is never crossed unnoticed. */
  lemma {:induction false} SaturatingExact(s: seq<byte>)
    ensures Saturating(s) == Dec(s) <==> Dec(s) < 10 * CAP
    ensures Saturating(s) <= Dec(s)
    ensures Dec(s) >= CAP ==> CAP <= Saturating(s) < 10 * CAP
  {
    if |s| > 0 { SaturatingExact(s[..|s| - 1]); }
  }

  /** The exponent as it is accumulated. */
  function ExpNumber(text: seq<byte>, o: Options): int {
    var e: int := Saturating(ExponentDigits(text, o));
    if ExponentNegative(text, o) then -e else e
  }

  /** The exponent as it is written. */
  function WrittenNumber(text: seq<byte>, o: Options): int {
    var e: int := Dec(ExponentDigits(text, o));
    if ExponentNegative(text, o) then -e else e
  }

  /** A sign must be followed by a digit, or (outside JSON) by the decimal point. */
  predicate SignOk(text: seq<byte>, o: Options) {
    At(text, 0, MINUS) ==> 1 < |text| && (IsInteger(text[1]) || (!o.json && text[1] == o.decimalPoint))
  }

  /** At least one digit; in JSON, one on each side of a point and no superfluous leading zero. */
  predicate DigitsOk(text: seq<byte>, o: Options) {
    var i, f := IntegerPart(text), FractionPart(text, o);
    if o.json then |i| > 0 && !(i[0] == ZERO && |i| > 1) && (HasPoint(text, o) ==> |f| > 0)
    else |i| + |f| > 0
  }

  /** An exponent mark without digits is an error unless fixed notation allows to ignore it,
      and scientific notation alone needs an exponent. */
  predicate ExponentOk(text: seq<byte>, o: Options) {
    if ExponentMark(text, o, MantissaEnd(text, o)) then HasExponent(text, o) || o.fixed
    else o.fixed || !o.scientific
  }

  /** The grammar, option by option. */
  predicate WellFormed(text: seq<byte>, o: Options) {
    SignOk(text, o) && DigitsOk(text, o) && ExponentOk(text, o)
  }

  /** Where the number ends. */
  function LastMatch(text: seq<byte>, o: Options): nat {
    var p := MantissaEnd(text, o);
    if HasExponent(text, o) then DigitRun(text, AfterSign(text, p)) else p
  }

  /** The report is exact, or it holds the leading nineteen significant digits. `x` is the explicit exponent,
      `cut` the number of digits the mantissa stands for. */
  ghost predicate Scanned(r: ParsedNumber, x: int, cut: nat) {
    var d := r.Digits();
    && AllDigits(d)
    && cut <= |d|
    && r.mantissa == Dec(d[..cut])
    && r.exponent == x + |r.integer| - cut
    && (r.tooManyDigits <==> |Significant(d)| > 19)
    && (!r.tooManyDigits ==> cut == |d|)
    && (r.tooManyDigits ==> MINIMAL_NINETEEN_DIGITS <= r.mantissa < 10 * MINIMAL_NINETEEN_DIGITS)
  }

  /** With too many digits the mantissa is the number cut off, not rounded: the digits lie between it and its successor. */
  lemma {:induction false} ScannedBrackets(r: ParsedNumber, x: int, cut: nat)
    requires Scanned(r, x, cut)
    ensures r.exponent - (x - |r.fraction|) == |r.Digits()| - cut
    ensures Tens(r.mantissa, |r.Digits()| - cut) <= Dec(r.Digits()) < Tens(r.mantissa + 1, |r.Digits()| - cut)
    ensures !r.tooManyDigits ==> r.mantissa == Dec(r.Digits()) && r.exponent == x - |r.fraction|
  {
    PrefixBrackets(r.Digits(), cut);
    assert r.Digits()[..|r.Digits()|] == r.Digits();
  }

  // ---------- the scanner ----------

  method IntegerLoop(text: seq<byte>, start: nat) returns (p: nat, i: Limb)
    requires start <= |text|
    ensures start <= p <= |text| && p == DigitRun(text, start)
    ensures i == Dec(text[start..p]) % BASE
  {
    hide Dec, DigitRun;
    p, i := start, 0;
    DecEmpty();
    assert text[start..p] == [];
    while p != |text| && IsInteger(text[p])
      invariant start <= p <= |text|
      invariant forall k :: start <= k < p ==> IsInteger(text[k])
      invariant i == Dec(text[start..p]) % BASE
    {
      WrapStep(Dec(text[start..p]), 10, Digit(text[p]));
      assert text[start..p + 1] == text[start..p] + [text[p]];
      DecSnoc(text[start..p], text[p]);
      i := (10 * i + (text[p] - ZERO)) % BASE;
      p := p + 1;
    }
    DigitRunUnique(text, start, p);
  }

  lemma {:induction false} OneMoreDigit(text: seq<byte>, before: nat, p: nat, i0: nat)
    requires before <= p < |text| && IsInteger(text[p]) && AllDigits(text[before..p])
    ensures AllDigits(text[before..p + 1])
    ensures (Tens(i0, p + 1 - before) + Dec(text[before..p + 1])) % BASE ==
            ((Tens(i0, p - before) + Dec(text[before..p])) % BASE * 10 + (text[p] - ZERO)) % BASE
  {
    hide Dec, Tens;
    WrapStep(Tens(i0, p - before) + Dec(text[before..p]), 10, Digit(text[p]));
    assert text[before..p + 1] == text[before..p] + [text[p]];
    DecSnoc(text[before..p], text[p]);
    TensTens(i0, p - before, 1);
    TensFirst(Tens(i0, p - before));
  }

  method FractionLoop(text: seq<byte>, before: nat, i0: Limb) returns (p: nat, i: Limb)
    requires before <= |text|
    ensures before <= p <= |text| && p == DigitRun(text, before)
    ensures i == (Tens(i0, p - before) + Dec(text[before..p])) % BASE
  {
    hide Dec, DigitRun, Tens;
    p, i := LoopParseIfEightDigits(text, before, i0);
    while p != |text| && IsInteger(text[p])
      invariant before <= p <= |text|
      invariant AllDigits(text[before..p])
      invariant i == (Tens(i0, p - before) + Dec(text[before..p])) % BASE
    {
      var digit := text[p] - ZERO;
      OneMoreDigit(text, before, p, i0);
      p := p + 1;
      i := (i * 10 + digit) % BASE;
    }
    forall k | before <= k < p ensures IsInteger(text[k]) {
      assert text[before..p][k - before] == text[k];
    }
    DigitRunUnique(text, before, p);
  }

  lemma TensFirst(v: nat)
    ensures Tens(v, 1) == 10 * v
  {}

  method ExponentLoop(text: seq<byte>, first: nat) returns (p: nat, expNumber: int)
    requires first <= |text|
    ensures first <= p <= |text| && p == DigitRun(text, first)
    ensures expNumber == Saturating(text[first..p])
  {
    hide DigitRun, Saturating;
    SaturatingEmpty();
    p, expNumber := first, 0;
    assert text[first..p] == [];
    while p != |text| && IsInteger(text[p])
      invariant first <= p <= |text|
      invariant forall k :: first <= k < p ==> IsInteger(text[k])
      invariant expNumber == Saturating(text[first..p])
    {
      var digit := text[p] - ZERO;
      assert text[first..p + 1] == text[first..p] + [text[p]];
      SaturatingSnoc(text[first..p], text[p]);
      if expNumber < CAP {
        expNumber := 10 * expNumber + digit;
      }
      p := p + 1;
    }
    DigitRunUnique(text, first, p);
  }

  method ExponentPart(text: seq<byte>, o: Options, mantissaEnd: nat) returns (ok: bool, expNumber: int, p: nat)
    requires mantissaEnd == MantissaEnd(text, o)
    ensures ok <==> ExponentOk(text, o)
    ensures ok ==> expNumber == ExpNumber(text, o) && p == LastMatch(text, o)
  {
    hide Saturating, MantissaEnd, DigitRun;
    SaturatingEmpty();
    p, expNumber := mantissaEnd, 0;
    if (o.scientific && p != |text| && (LOWER_E == text[p] || UPPER_E == text[p]))
      || (o.fortran && p != |text| && (PLUS == text[p] || MINUS == text[p] || LOWER_D == text[p] || UPPER_D == text[p])) {
      var locationOfE := p;
      if LOWER_E == text[p] || UPPER_E == text[p] || LOWER_D == text[p] || UPPER_D == text[p] {
        p := p + 1;
      }
      var negExp := false;
      if p != |text| && MINUS == text[p] {
        negExp := true;
        p := p + 1;
      } else if p != |text| && PLUS == text[p] {
        p := p + 1;
      }
      assert p == AfterSign(text, mantissaEnd);
      if p == |text| || !IsInteger(text[p]) {
        if !o.fixed {
          return false, expNumber, p;
        }
        p := locationOfE;
      } else {
        p, expNumber := ExponentLoop(text, p);
        if negExp { expNumber := -expNumber; }
      }
    } else if o.scientific && !o.fixed {
      return false, expNumber, p;
    }
    ok := true;
  }

  lemma SaturatingEmpty()
    ensures Saturating([]) == 0
  {}

  lemma {:induction false} SaturatingSnoc(s: seq<byte>, c: byte)
    ensures Saturating(s + [c]) == if Saturating(s) < CAP then 10 * Saturating(s) + Digit(c) else Saturating(s)
  {
    assert (s + [c])[..|s|] == s;
  }

  lemma {:induction false} LeadingZerosUnique(s: seq<byte>, z: nat)
    requires z <= |s| && (forall k :: 0 <= k < z ==> s[k] == ZERO) && (z < |s| ==> s[z] != ZERO)
    ensures LeadingZeros(s) == z
  {
    if z > 0 { LeadingZerosUnique(s[1..], z - 1); }
  }

  /** Do not count leading zeros: what is left is the number of significant digits. */
  method SkipLeading(text: seq<byte>, o: Options, startDigits: nat, count: int, ghost d: seq<byte>) returns (digitCount: int)
    requires startDigits == Start(text) && !IsInteger(o.decimalPoint)
    requires d == IntegerPart(text) + FractionPart(text, o) && count == |d|
    ensures LeadingZeros(d) < |d| ==> digitCount == |Significant(d)|
    ensures LeadingZeros(d) == |d| ==> digitCount <= 0
  {
    hide DigitRun, LeadingZeros;
    ghost var intEnd, z: nat := IntegerEnd(text), 0;
    digitCount := count;
    var start := startDigits;
    while start != |text| && (text[start] == ZERO || text[start] == o.decimalPoint)
      invariant startDigits <= start <= |text|
      invariant digitCount == count - z
      invariant start <= intEnd ==> z == start - startDigits
      invariant intEnd < start <= MantissaEnd(text, o) ==> HasPoint(text, o) && z == start - startDigits - 1
      invariant start > MantissaEnd(text, o) ==> z >= |d|
      invariant forall k :: 0 <= k < z && k < |d| ==> d[k] == ZERO
    {
      if start < intEnd {
        assert d[z] == text[start];
      } else if intEnd < start < MantissaEnd(text, o) {
        assert d[z] == text[start];
      }
      if text[start] == ZERO {
        digitCount := digitCount - 1;
        z := z + 1;
      }
      start := start + 1;
    }
    if z < |d| {
      assert d[z] == text[start];
      LeadingZerosUnique(d, z);
    } else {
      LeadingZerosUnique(d, |d|);
    }
  }

  /** Nineteen significant digits, this time without wrap-around. */
  method StartAgain(answer: ParsedNumber, expNumber: int) returns (i: Limb, exponent: int, ghost cut: nat)
    requires AllDigits(answer.Digits()) && |Significant(answer.Digits())| > 19
    ensures cut <= |answer.Digits()| && i == Dec(answer.Digits()[..cut])
    ensures MINIMAL_NINETEEN_DIGITS <= i < 10 * MINIMAL_NINETEEN_DIGITS
    ensures exponent == expNumber + |answer.integer| - cut
  {
    hide Dec, LeadingZeros;
    ghost var d, n := answer.Digits(), |answer.integer|;
    var value, p := 0, 0;
    DecEmpty();
    assert d[..p] == [];
    while value < MINIMAL_NINETEEN_DIGITS && p != |answer.integer|
      invariant 0 <= p <= n
      invariant value == Dec(d[..p]) < 10 * MINIMAL_NINETEEN_DIGITS
    {
      assert d[..p + 1] == d[..p] + [answer.integer[p]] && d[p] == answer.integer[p];
      DecSnoc(d[..p], answer.integer[p]);
      value := value * 10 + (answer.integer[p] - ZERO);
      p := p + 1;
    }
    if value >= MINIMAL_NINETEEN_DIGITS {
      exponent := |answer.integer| - p + expNumber;
      cut := p;
    } else {
      p := 0;
      while value < MINIMAL_NINETEEN_DIGITS && p != |answer.fraction|
        invariant 0 <= p <= |answer.fraction|
        invariant value == Dec(d[..n + p]) < 10 * MINIMAL_NINETEEN_DIGITS
      {
        assert d[..n + p + 1] == d[..n + p] + [answer.fraction[p]] && d[n + p] == answer.fraction[p];
        DecSnoc(d[..n + p], answer.fraction[p]);
        value := value * 10 + (answer.fraction[p] - ZERO);
        p := p + 1;
      }
      exponent := -p + expNumber;
      cut := n + p;
      if value < MINIMAL_NINETEEN_DIGITS {
        assert d[..cut] == d;
        ManyDigits(d);
      }
    }
    i := value;
  }

  lemma {:induction false} ManyDigits(d: seq<byte>)
    requires AllDigits(d)
    ensures |Significant(d)| > 19 ==> Dec(d) >= 10 * MINIMAL_NINETEEN_DIGITS
    ensures |Significant(d)| <= 19 ==> Dec(d) < 10 * MINIMAL_NINETEEN_DIGITS
  {
    hide Dec, LeadingZeros, Tens, Pow;
    var t := Significant(d);
    SignificantDec(d);
    TensOne(19);
    TenToNineteen();
    if |t| > 19 {
      DecLower(t);
      TensTens(1, 19, |t| - 1 - 19);
    } else {
      DecBound(t);
      TensTens(1, |t|, 19 - |t|);
    }
  }

  lemma TenToNineteen()
    ensures Pow(10, 19) == 10 * MINIMAL_NINETEEN_DIGITS
  {
    assert Pow(10, 3) == 1000 && Pow(10, 8) == 100000000;
    PowAdd(10, 8, 8);
    PowAdd(10, 16, 3);
  }

  /** The wrapped accumulator is the number itself when there are at most nineteen significant digits. */
  lemma {:induction false} Accumulated(i: seq<byte>, f: seq<byte>, x: Limb)
    requires AllDigits(i + f)
    requires x == (Tens(Dec(i) % BASE, |f|) + Dec(f)) % BASE
    ensures |Significant(i + f)| <= 19 ==> x == Dec(i + f)
  {
    hide Dec, Tens, LeadingZeros, Pow;
    TensIsPow(Dec(i) % BASE, |f|);
    TensIsPow(Dec(i), |f|);
    WrapStep(Dec(i), Pow(10, |f|), Dec(f));
    DecConcat(i, f);
    ManyDigits(i + f);
  }

  /** Settle mantissa and exponent: as accumulated, unless significant digits have been lost. */
  method KeepNineteen(text: seq<byte>, o: Options, startDigits: nat, digitCount0: int, answer0: ParsedNumber, i0: Limb,
    exponent0: int, expNumber: int) returns (answer: ParsedNumber, ghost cut: nat)
    requires startDigits == Start(text) && !IsInteger(o.decimalPoint)
    requires answer0.integer == IntegerPart(text) && answer0.fraction == FractionPart(text, o)
    requires digitCount0 == |answer0.Digits()| && !answer0.tooManyDigits
    requires i0 == (Tens(Dec(answer0.integer) % BASE, |answer0.fraction|) + Dec(answer0.fraction)) % BASE
    requires exponent0 == expNumber - |answer0.fraction|
    ensures answer == answer0.(exponent := answer.exponent, mantissa := answer.mantissa, tooManyDigits := answer.tooManyDigits)
    ensures Scanned(answer, expNumber, cut)
  {
    hide Tens, Dec, Saturating;
    ghost var d := answer0.Digits();
    assert AllDigits(answer0.integer) && AllDigits(answer0.fraction);
    Accumulated(answer0.integer, answer0.fraction, i0);
    assert d[..|d|] == d;
    answer, cut := answer0, |d|;
    var i, exponent, digitCount := i0, exponent0, digitCount0;
    if digitCount > 19 {
      // leading zeros, also those of 0.000..., are not significant
      digitCount := SkipLeading(text, o, startDigits, digitCount, d);
      if digitCount > 19 {
        answer := answer.(tooManyDigits := true);
        i, exponent, cut := StartAgain(answer, expNumber);
      }
    }
    assert answer.tooManyDigits <==> |Significant(d)| > 19;
    answer := answer.(exponent := exponent, mantissa := i);
  }

  /** Sign, integer part, point and fraction. */
  method ScanDigits(text: seq<byte>, o: Options) returns (ok: bool, answer: ParsedNumber, startDigits: nat, p: nat, i: Limb)
    requires |text| > 0 && !IsInteger(o.decimalPoint)
    ensures ok <==> SignOk(text, o) && DigitsOk(text, o)
    ensures ok ==> startDigits == Start(text) && p == MantissaEnd(text, o)
    ensures ok ==> answer == ParsedNumber(0, 0, 0, At(text, 0, MINUS), false, false,
                                          IntegerPart(text), HasPoint(text, o), FractionPart(text, o))
    ensures ok ==> i == (Tens(Dec(answer.integer) % BASE, |answer.fraction|) + Dec(answer.fraction)) % BASE
  {
    hide Tens, Dec, DigitRun;
    answer := ParsedNumber(0, 0, 0, text[0] == MINUS, false, false, [], false, []);
    ok, startDigits, p, i := false, 0, 0, 0;
    if text[p] == MINUS {
      p := p + 1;
      if p == |text| {
        return;
      }
      if o.json {
        if !IsInteger(text[p]) {
          return;
        }
      } else if !IsInteger(text[p]) && text[p] != o.decimalPoint {
        return;
      }
    }
    assert SignOk(text, o);
    startDigits := p;
    p, i := IntegerLoop(text, startDigits);
    TensNone(i);
    DecEmpty();
    var digitCount := p - startDigits;
    answer := answer.(integer := text[startDigits..p]);
    if o.json {
      if digitCount == 0 || (text[startDigits] == ZERO && digitCount > 1) {
        return;
      }
    }
    var exponent: int := 0;
    var hasDecimalPoint := p != |text| && text[p] == o.decimalPoint;
    if hasDecimalPoint {
      p := p + 1;
      var before := p;
      p, i := FractionLoop(text, before, i);
      exponent := before - p;
      answer := answer.(hasFraction := true, fraction := text[before..p]);
      digitCount := digitCount - exponent;
    }
    if o.json {
      if hasDecimalPoint && exponent == 0 {
        return;
      }
    } else if digitCount == 0 {
      return;
    }
    ok := true;
  }

  method ParseNumberString(text: seq<byte>, o: Options) returns (answer: ParsedNumber, ghost cut: nat)
    requires |text| > 0 && !IsInteger(o.decimalPoint)
    ensures answer.valid <==> WellFormed(text, o)
    ensures answer.valid ==> answer.integer == IntegerPart(text) && answer.fraction == FractionPart(text, o)
    ensures answer.valid ==> answer.hasFraction == HasPoint(text, o) && answer.negative == At(text, 0, MINUS)
    ensures answer.valid ==> answer.lastmatch == LastMatch(text, o)
    ensures answer.valid ==> Scanned(answer, ExpNumber(text, o), cut)
  {
    hide Tens, Dec, SignOk, DigitsOk, ExponentOk, Scanned, ExpNumber, LastMatch;
    cut := 0;
    var ok, startDigits, p, i, expNumber;
    ok, answer, startDigits, p, i := ScanDigits(text, o);
    if !ok {
      answer := answer.(valid := false);
      return;
    }
    ok, expNumber, p := ExponentPart(text, o, p);
    if !ok {
      return;
    }
    var exponent := -|answer.fraction| + expNumber;
    answer := answer.(lastmatch := p, valid := true);
    answer, cut := KeepNineteen(text, o, startDigits, |answer.integer| + |answer.fraction|, answer, i, exponent, expNumber);
  }
}
