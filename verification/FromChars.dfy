/** From text to float: the scanner, the fast path as far as it is trusted, and the slow path. */
module FromChars {
  import opened Bits
  import opened Limbs
  import opened Decimal
  import opened NumberScanner
  import opened Ieee
  import opened DigitComparison
  import opened SlowPath
  import opened Exponents
  import opened Estimates
  import Grammar

  datatype Status = Success | NotANumber | OutOfRange

  datatype Outcome = Outcome(status: Status, lastmatch: nat, negative: bool, word: nat)

  type FastPath = (int, nat) -> AdjustedMantissa

  // ---------- what is taken for granted of the fast path ----------

  /** `compute_float` answers w * 10^q, correctly rounded. */
  ghost predicate Rounds(f: Format, computeFloat: FastPath)
    requires f.Regular()
  {
    forall q: int, w: nat :: w < BASE ==>
      Fields(f, computeFloat(q, w)) && Reads(f, w, q, Word(f, computeFloat(q, w)))
  }

  /** Without its bias, `compute_error` is w * 10^q up to a few units in the last of its 64 bits. */
  ghost predicate Approximates(f: Format, computeError: FastPath)
    requires f.Regular()
  {
    forall q: int, w: nat ::
      f.smallestPowerOfTen <= q <= f.largestPowerOfTen && MINIMAL_NINETEEN_DIGITS <= w < 10 * MINIMAL_NINETEEN_DIGITS ==>
        && computeError(q, w).power2 < 0
        && Within(f, Unbiased(computeError(q, w)), Numerator(w, q), Denominator(q))
  }

  function Unbiased(am: AdjustedMantissa): AdjustedMantissa {
    am.(power2 := am.power2 - INVALID_AM_BIAS)
  }

  // ---------- numbers between two that round alike ----------

  lemma {:induction false} NearestBetween(f: Format, low: nat, num: nat, high: nat, den: nat, c: nat)
    requires f.Bias() >= 1 && low <= num <= high
    requires IsNearest(f, low, den, c) && IsNearest(f, high, den, c)
    ensures IsNearest(f, num, den, c)
  {
    hide Units, Shl;
    ShlMonotone(low, num, f.Bias() - 1);
    ShlMonotone(num, high, f.Bias() - 1);
    forall k: nat | k <= f.Infinity()
      ensures Distance(f, num, den, c) <= Distance(f, num, den, k)
      ensures k != c && Distance(f, num, den, k) == Distance(f, num, den, c) ==> c % 2 == 0
    {
      assert Distance(f, low, den, c) <= Distance(f, low, den, k);
      assert Distance(f, high, den, c) <= Distance(f, high, den, k);
      if den > 0 {
        ScaledMonotone(f, den, if k < c then k else c, if k < c then c else k);
      }
    }
  }

  /** Correct rounding does not depend on how the number is written as a fraction. */
  lemma {:induction false} NearestScale(f: Format, num: nat, den: nat, c: nat, scale: nat)
    requires f.Bias() >= 1 && scale >= 1 && IsNearest(f, num, den, c)
    ensures IsNearest(f, num * scale, den * scale, c)
  {
    hide Units, Shl, Distance;
    ScaledDistance(f, num, den, c, scale);
    forall k: nat | k <= f.Infinity()
      ensures Distance(f, num * scale, den * scale, c) <= Distance(f, num * scale, den * scale, k)
      ensures k != c && Distance(f, num * scale, den * scale, k) == Distance(f, num * scale, den * scale, c) ==> c % 2 == 0
    {
      ScaledDistance(f, num, den, k, scale);
      var x, y := Distance(f, num, den, c), Distance(f, num, den, k);
      assert x <= y;
      MulLessEq(x, y, scale);
      if x < y { MulLess(x, y, scale); }
    }
  }

  lemma {:induction false} ScaledDistance(f: Format, num: nat, den: nat, k: nat, scale: nat)
    requires f.Bias() >= 1
    ensures Distance(f, num * scale, den * scale, k) == Distance(f, num, den, k) * scale
    ensures Distance(f, num, den, k) >= 0
  {
    hide Units, Shl;
    var u, b := Units(f, k), f.Bias() - 1;
    ShlTimes(num, scale, b);
    MulAssoc(den, scale, u);
    Commute(scale, u);
    MulAssoc(den, u, scale);
    var d := Shl(num, b) - den * u;
    DifferenceTimes(Shl(num, b), den * u, scale);
    DifferenceTimes(den * u, Shl(num, b), scale);
    ProductSign(d, scale);
  }

  lemma DifferenceTimes(a: int, b: int, c: int)
    ensures (a - b) * c == a * c - b * c
  {}

  lemma ProductSign(a: int, c: nat)
    ensures a >= 0 ==> a * c >= 0
    ensures a < 0 && c >= 1 ==> a * c < 0
  {}

  /** The same number with `n` more digits. */
  lemma {:induction false} NearestDigits(f: Format, w: nat, q: int, n: nat, c: nat)
    requires f.Bias() >= 1 && Reads(f, w, q, c)
    ensures Reads(f, Tens(w, n), q - n, c)
  {
    hide Tens, IsNearest, Numerator, Denominator, Scale;
    MoreDigits(w, q, n);
    NearestScale(f, Numerator(w, q), Denominator(q), c, Scale(q, n));
  }

  /** When w and w + 1 round to the same float, so does every number that begins with w. */
  lemma {:induction false} NearestPrefix(f: Format, v: nat, w: nat, q: int, n: nat, c: nat)
    requires f.Bias() >= 1 && StartsWith(v, w, n)
    requires Reads(f, w, q, c) && Reads(f, w + 1, q, c)
    ensures Reads(f, v, q - n, c)
  {
    hide Tens, Pow, IsNearest, Numerator, Denominator;
    NearestDigits(f, w, q, n, c);
    NearestDigits(f, w + 1, q, n, c);
    NumeratorMonotone(Tens(w, n), v, q - n);
    NumeratorMonotone(v, Tens(w + 1, n), q - n);
    NearestBetween(f, Numerator(Tens(w, n), q - n), Numerator(v, q - n), Numerator(Tens(w + 1, n), q - n),
                   Denominator(q - n), c);
  }

  // ---------- the word and its fields ----------

  lemma {:induction false} WordFields(f: Format, am: AdjustedMantissa)
    requires f.Regular() && Fields(f, am) && Word(f, am) <= f.Infinity()
    ensures Word(f, am) == 0 <==> am.mantissa == 0 && am.power2 == 0
    ensures Word(f, am) == f.Infinity() <==> am.power2 == f.infinitePower
    ensures am.power2 == f.infinitePower ==> am.mantissa == 0
  {
    hide Shl, Or;
    var n := f.mantissaBits;
    InfinityBound(f);
    ShlOne(n);
    ShlZero(n);
    if am.mantissa < Pow(2, n) {
      OrFields(am.mantissa, am.power2, n);
      ShlMonotone(1, am.power2, n);
      ShlMonotone(am.power2, f.infinitePower, n);
      ShlMonotone(f.infinitePower, am.power2, n);
      ShlAdd(am.power2, 1, n);
      ShlMonotone(am.power2 + 1, f.infinitePower, n);
    } else {
      OrSame(am.mantissa);
      ShlMonotone(f.infinitePower, 1, n);
    }
  }

  lemma {:induction false} MantissaNonzero(num: ParsedNumber, x: int, cut: nat)
    requires Scanned(num, x, cut)
    ensures num.mantissa != 0 <==> Dec(num.Digits()) != 0
  {
    hide Dec;
    ScannedBrackets(num, x, cut);
  }

  // ---------- what nineteen digits do not settle ----------

  /** When the answers for w and w + 1 differ, the approximation decides every number that begins with w. */
  lemma {:induction false} ErrorDecides(f: Format, computeFloat: FastPath, computeError: FastPath, q: int, w: nat)
    requires Tuned(f) && Rounds(f, computeFloat) && Approximates(f, computeError)
    requires MINIMAL_NINETEEN_DIGITS <= w < 10 * MINIMAL_NINETEEN_DIGITS && computeFloat(q, w) != computeFloat(q, w + 1)
    ensures f.smallestPowerOfTen <= q <= f.largestPowerOfTen && computeError(q, w).power2 < 0
    ensures Decisive(f, Unbiased(computeError(q, w)), q, w)
  {
    hide Reads, Fields, Word, Within, Floor, Decisive, Unbiased, Numerator, Denominator;
    NotBoth(f, q, w, computeFloat(q, w), computeFloat(q, w + 1), 0);
    NotBoth(f, q, w, computeFloat(q, w), computeFloat(q, w + 1), f.Infinity());
    OutsideAgrees(f, q, w);
    var am := Unbiased(computeError(q, w));
    assert Within(f, am, Numerator(w, q), Denominator(q));
    if Floor(f, am) >= f.Infinity() { FloorFinite(f, am, q, w); }
    WithinDecides(f, am, q, w);
  }

  /** Different answers are not both zero and not both infinite. */
  lemma {:induction false} NotBoth(f: Format, q: int, w: nat, am: AdjustedMantissa, next: AdjustedMantissa, c: nat)
    requires f.Regular() && Fields(f, am) && Fields(f, next) && am != next && c in {0, f.Infinity()}
    requires Reads(f, w, q, Word(f, am)) && Reads(f, w + 1, q, Word(f, next))
    ensures !(Reads(f, w, q, c) && Reads(f, w + 1, q, c))
  {
    hide Reads, Word;
    ReadsWord(f, w, q, Word(f, am));
    ReadsWord(f, w + 1, q, Word(f, next));
    if Reads(f, w, q, c) && Reads(f, w + 1, q, c) {
      ReadsUnique(f, w, q, Word(f, am), c);
      ReadsUnique(f, w + 1, q, Word(f, next), c);
      WordFields(f, am);
      WordFields(f, next);
    }
  }

  // ---------- the whole conversion ----------

  /** Choose between the fast path's answer and the slow path. */
  method Convert(f: Format, num: ParsedNumber, ghost x: int, ghost cut: nat, computeFloat: FastPath,
    computeError: FastPath) returns (am: AdjustedMantissa)
    requires Tuned(f) && Scanned(num, x, cut) && (!num.hasFraction ==> num.fraction == [])
    requires Rounds(f, computeFloat) && Approximates(f, computeError)
    ensures Fields(f, am) && am.power2 >= 0
    ensures Reads(f, Dec(num.Digits()), x - |num.fraction|, Word(f, am))
  {
    hide Tens, Dec, IsNearest, Bracketed, Numerator, Denominator, Word, Significant, Within, Pow;
    ghost var v, n, q, w := Dec(num.Digits()), |num.Digits()| - cut, num.exponent, num.mantissa;
    ScannedBrackets(num, x, cut);
    ManyDigits(num.Digits());
    assert x - |num.fraction| == q - n && StartsWith(v, w, n) && w < BASE;
    am := computeFloat(num.exponent, num.mantissa);
    if num.tooManyDigits && am.power2 >= 0 {
      var next := computeFloat(num.exponent, num.mantissa + 1);
      if am != next {
        ErrorDecides(f, computeFloat, computeError, q, w);
        am := computeError(num.exponent, num.mantissa);
      } else {
        NearestPrefix(f, v, w, q, n, Word(f, am));
      }
    }
    if am.power2 < 0 {
      am := DigitComp(f, num, am, x, cut);
    }
  }

  /** The answer is that number: its end, its sign, and its value, correctly rounded. */
  ghost predicate Answers(f: Format, text: seq<byte>, o: Options, n: Grammar.Number, answer: Outcome)
    requires f.Bias() >= 1
  {
    && answer.lastmatch == |Grammar.Text(n, o)| && answer.negative == n.negative
    && (Unnoticed(f, text, o) ==>
          Reads(f, Dec(n.integer + n.fraction), Grammar.PowerValue(n) - |n.fraction|, answer.word))
  }

  lemma {:induction false} SaidIsRead(text: seq<byte>, o: Options, n: Grammar.Number, rest: seq<byte>)
    requires Grammar.Says(text, o, n, rest)
    ensures Digits(text, o) == n.integer + n.fraction && Written(text, o) == Grammar.PowerValue(n) - |n.fraction|
    ensures LastMatch(text, o) == |Grammar.Text(n, o)| && At(text, 0, MINUS) == n.negative
  {
    hide LastMatch, WrittenNumber, IntegerPart, FractionPart, Grammar.Proper, Grammar.Accepted, Grammar.Text;
    Grammar.Reading(o, n, rest);
  }

  lemma {:induction false} WhateverIsSaid(f: Format, text: seq<byte>, o: Options, answer: Outcome)
    requires f.Bias() >= 1 && answer.lastmatch == LastMatch(text, o) && answer.negative == At(text, 0, MINUS)
    requires Unnoticed(f, text, o) ==> Reads(f, Dec(Digits(text, o)), Written(text, o), answer.word)
    ensures forall n, rest :: Grammar.Says(text, o, n, rest) ==> Answers(f, text, o, n, answer)
  {
    hide LastMatch, Unnoticed, Reads, Dec, Digits, Written, Grammar.Says, Grammar.Text;
    forall n, rest | Grammar.Says(text, o, n, rest) ensures Answers(f, text, o, n, answer) {
      SaidIsRead(text, o, n, rest);
    }
  }

  lemma {:induction false} NothingSaid(o: Options)
    ensures !exists n, rest :: Grammar.Says([], o, n, rest)
  {
    hide Grammar.PowerBegins;
  }

  /** The word is the number in the text, correctly rounded: for the exponent as it is accumulated,
      and so for the one that is written wherever the cap goes unnoticed. */
  method FromCharsAdvanced(f: Format, text: seq<byte>, o: Options, computeFloat: FastPath, computeError: FastPath)
    returns (answer: Outcome)
    requires Tuned(f) && !IsInteger(o.decimalPoint)
    requires Rounds(f, computeFloat) && Approximates(f, computeError)
    ensures answer.status == NotANumber <==> !exists n, rest :: Grammar.Says(text, o, n, rest)
    ensures forall n, rest :: Grammar.Says(text, o, n, rest) ==> Answers(f, text, o, n, answer)
    ensures answer.status == NotANumber <==> text == [] || !WellFormed(text, o)
    ensures answer.status != NotANumber ==>
              && answer.lastmatch == LastMatch(text, o) && answer.negative == At(text, 0, MINUS)
              && Reads(f, Dec(Digits(text, o)), Exponent(text, o), answer.word)
              && (Unnoticed(f, text, o) ==> Reads(f, Dec(Digits(text, o)), Written(text, o), answer.word))
              && (answer.status == OutOfRange <==>
                    answer.word == f.Infinity() || (answer.word == 0 && Dec(Digits(text, o)) != 0))
  {
    hide Dec, Pow, Shl, Units, Fields, WellFormed, ExpNumber, WrittenNumber, Reads, Scanned, LastMatch, Or,
         Unnoticed, ExponentDigits, Grammar.Says, Answers;
    answer := Outcome(NotANumber, 0, false, 0);
    Grammar.WellFormedIff(text, o);
    NothingSaid(o);
    if |text| == 0 {
      return;
    }
    var num, cut := ParseNumberString(text, o);
    if !num.valid {
      return;
    }
    ghost var x := ExpNumber(text, o);
    var am := Convert(f, num, x, cut, computeFloat, computeError);
    ReadsWord(f, Dec(num.Digits()), x - |num.fraction|, Word(f, am));
    WordFields(f, am);
    MantissaNonzero(num, x, cut);
    var outOfRange := (num.mantissa != 0 && am.mantissa == 0 && am.power2 == 0) || am.power2 == f.infinitePower;
    if Unnoticed(f, text, o) { UnnoticedIsRight(f, text, o); }
    answer := Outcome(if outOfRange then OutOfRange else Success, num.lastmatch, num.negative, Word(f, am));
    WhateverIsSaid(f, text, o, answer);
  }
}
