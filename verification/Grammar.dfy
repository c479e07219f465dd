/** What the accepted texts look like, built from their parts, and what the scanner reads in them. */
module Grammar {
  import opened Decimal
  import opened NumberScanner
  import opened Wrappers

  /** An exponent mark, its letter and its sign in literal bytes, and its digits. */
  datatype Power = Power(letter: seq<byte>, sign: seq<byte>, digits: seq<byte>) {
    function Text(): seq<byte> {
      letter + sign + digits
    }
  }

  datatype Number = Number(negative: bool, integer: seq<byte>, point: bool, fraction: seq<byte>, power: Option<Power>)

  predicate IsDigit(c: byte) {
    '0' as int <= c <= '9' as int
  }

  predicate AreDigits(s: seq<byte>) {
    forall k :: 0 <= k < |s| ==> IsDigit(s[k])
  }

  function Sign(negative: bool): seq<byte> {
    if negative then ['-' as int] else []
  }

  function Tail(n: Number, o: Options): seq<byte> {
    (if n.point then [o.decimalPoint] + n.fraction else []) + if n.power.Some? then n.power.value.Text() else []
  }

  function Text(n: Number, o: Options): seq<byte> {
    Sign(n.negative) + n.integer + Tail(n, o)
  }

  /** The letters that announce an exponent: e or E in scientific notation, d or D in Fortran's. */
  predicate IsLetter(o: Options, c: byte) {
    || (o.scientific && (c == 'e' as int || c == 'E' as int))
    || (o.fortran && (c == 'd' as int || c == 'D' as int))
  }

  predicate IsSign(c: byte) {
    c == '+' as int || c == '-' as int
  }

  /** Fortran also takes a sign alone for an exponent mark. */
  predicate IsMark(o: Options, c: byte) {
    IsLetter(o, c) || (o.fortran && IsSign(c))
  }

  predicate PowerOk(o: Options, e: Power) {
    && |e.digits| > 0 && AreDigits(e.digits)
    && (e.sign == [] || (|e.sign| == 1 && IsSign(e.sign[0])))
    && ((|e.letter| == 1 && IsLetter(o, e.letter[0])) || (e.letter == [] && o.fortran && e.sign != []))
  }

  predicate MantissaOk(o: Options, n: Number) {
    && AreDigits(n.integer) && AreDigits(n.fraction) && (!n.point ==> n.fraction == [])
    && if o.json then
         && |n.integer| > 0 && (|n.integer| > 1 ==> n.integer[0] != '0' as int)
         && (n.point ==> |n.fraction| > 0)
       else |n.integer| + |n.fraction| > 0
  }

  /** What stands for the decimal point is not at the same time the sign in front or the exponent mark. */
  predicate Apart(o: Options, n: Number) {
    && !IsDigit(o.decimalPoint)
    && (n.integer == [] && !n.negative ==> o.decimalPoint != '-' as int)
    && (!n.point && n.power.Some? ==> n.power.value.Text() != [] && n.power.value.Text()[0] != o.decimalPoint)
  }

  ghost predicate PowerBegins(o: Options, rest: seq<byte>) {
    exists e :: PowerOk(o, e) && e.Text() <= rest
  }

  /** Nothing behind the number continues it. */
  ghost predicate Ends(o: Options, n: Number, rest: seq<byte>) {
    && (rest != [] ==> !IsDigit(rest[0]))
    && (rest != [] && !n.point && n.power.None? ==> rest[0] != o.decimalPoint)
    && (n.power.None? ==> !PowerBegins(o, rest))
  }

  ghost predicate Proper(o: Options, n: Number, rest: seq<byte>) {
    MantissaOk(o, n) && (n.power.Some? ==> PowerOk(o, n.power.value)) && Apart(o, n) && Ends(o, n, rest)
  }

  /** Without an exponent the number is accepted in fixed notation; otherwise only where none is asked for,
      and no mark stands there. */
  predicate Accepted(o: Options, n: Number, rest: seq<byte>) {
    n.power.Some? || o.fixed || (!o.scientific && (rest != [] ==> !IsMark(o, rest[0])))
  }

  function PowerValue(n: Number): int {
    if n.power.None? then 0
    else if n.power.value.sign == ['-' as int] then -(Dec(n.power.value.digits) as int)
    else Dec(n.power.value.digits)
  }

  // ---------- the scanner's view of the bytes ----------

  lemma DigitIs(c: byte)
    ensures IsInteger(c) <==> IsDigit(c)
  {}

  lemma {:induction false} MarkIs(text: seq<byte>, o: Options, p: nat)
    requires p <= |text|
    ensures ExponentMark(text, o, p) <==> p < |text| && IsMark(o, text[p])
  {}

  lemma {:induction false} LetterSliced(text: seq<byte>, o: Options, p: nat)
    requires p < |text| && IsMark(o, text[p])
    ensures var letter := text[p..AfterLetter(text, p)];
            (|letter| == 1 && IsLetter(o, letter[0])) || (letter == [] && o.fortran && IsSign(text[p]))
  {
    if IsExponentLetter(text[p]) { assert text[p..p + 1] == [text[p]]; }
  }

  lemma {:induction false} SignSliced(text: seq<byte>, p: nat)
    requires p < |text|
    ensures var sign := text[AfterLetter(text, p)..AfterSign(text, p)];
            && (sign == [] || (|sign| == 1 && IsSign(sign[0])))
            && (AfterLetter(text, p) == p && IsSign(text[p]) ==> sign != [])
  {
    var q := AfterLetter(text, p);
    if AfterSign(text, p) > q { assert text[q..q + 1] == [text[q]]; }
  }

  lemma {:induction false} PowerFound(text: seq<byte>, o: Options, p: nat)
    requires p < |text| && IsMark(o, text[p]) && AfterSign(text, p) < |text| && IsInteger(text[AfterSign(text, p)])
    requires AfterLetter(text, p) <= AfterSign(text, p)
    ensures PowerBegins(o, text[p..])
  {
    hide AfterLetter, AfterSign, IsMark, IsLetter, IsSign;
    var q, r := AfterLetter(text, p), AfterSign(text, p);
    LetterSliced(text, o, p);
    SignSliced(text, p);
    DigitIs(text[r]);
    SlicesMeet(text, p, q, r);
    var e := Power(text[p..q], text[q..r], [text[r]]);
    assert PowerOk(o, e) && e.Text() <= text[p..];
  }

  lemma SlicesMeet(s: seq<byte>, p: nat, q: nat, r: nat)
    requires p <= q <= r < |s|
    ensures s[p..q] + s[q..r] + [s[r]] <= s[p..]
    ensures p == q <==> s[p..q] == []
  {}

  /** Behind the mantissa the scanner finds an exponent exactly when one begins there. */
  lemma {:induction false} PowerIff(text: seq<byte>, o: Options, p: nat)
    requires p <= |text|
    ensures PowerBegins(o, text[p..]) <==>
            ExponentMark(text, o, p) && AfterSign(text, p) < |text| && IsInteger(text[AfterSign(text, p)])
  {
    hide ExponentMark, IsMark, PowerOk, IsInteger;
    MarkIs(text, o, p);
    if ExponentMark(text, o, p) && AfterSign(text, p) < |text| && IsInteger(text[AfterSign(text, p)]) {
      PowerFound(text, o, p);
    }
    if PowerBegins(o, text[p..]) {
      var e :| PowerOk(o, e) && e.Text() <= text[p..];
      PowerRead(text, o, p, e);
    }
  }

  /** Letter, sign and first digit are found where they stand. */
  lemma {:induction false} PowerRead(text: seq<byte>, o: Options, p: nat, e: Power)
    requires p <= |text| && PowerOk(o, e) && e.Text() <= text[p..]
    ensures ExponentMark(text, o, p) && AfterLetter(text, p) == p + |e.letter|
    ensures AfterSign(text, p) == p + |e.letter| + |e.sign| < |text|
    ensures IsInteger(text[AfterSign(text, p)])
    ensures At(text, AfterLetter(text, p), MINUS) <==> e.sign == ['-' as int]
  {
    forall k | 0 <= k < |e.Text()| ensures text[p + k] == e.Text()[k] { assert text[p..][k] == text[p + k]; }
    var a := |e.letter|;
    assert a > 0 ==> text[p] == e.letter[0];
    assert |e.sign| > 0 ==> text[p + a] == e.sign[0];
    assert text[p + a + |e.sign|] == e.digits[0];
  }

  // ---------- reading what is written ----------

  /** Where the integer part begins and ends, and where the fraction ends. */
  function IntegerFrom(n: Number): nat {
    |Sign(n.negative)|
  }

  function IntegerTo(n: Number): nat {
    IntegerFrom(n) + |n.integer|
  }

  function MantissaTo(n: Number): nat {
    IntegerTo(n) + if n.point then 1 + |n.fraction| else 0
  }

  function PowerText(n: Number): seq<byte> {
    if n.power.Some? then n.power.value.Text() else []
  }

  /** The parts of the text, by position. */
  ghost predicate Laid(text: seq<byte>, o: Options, n: Number, rest: seq<byte>) {
    && MantissaTo(n) + |PowerText(n)| + |rest| == |text|
    && (n.negative ==> text[0] == '-' as int)
    && text[IntegerFrom(n)..IntegerTo(n)] == n.integer
    && (n.point ==> text[IntegerTo(n)] == o.decimalPoint && text[IntegerTo(n) + 1..MantissaTo(n)] == n.fraction)
    && text[MantissaTo(n)..] == PowerText(n) + rest
  }

  lemma {:induction false} TextIsLaid(o: Options, n: Number, rest: seq<byte>)
    requires !n.point ==> n.fraction == []
    ensures Laid(Text(n, o) + rest, o, n, rest)
  {
    var text, a, b, c := Text(n, o) + rest, IntegerFrom(n), IntegerTo(n), MantissaTo(n);
    assert text[a..b] == n.integer;
    if n.point {
      assert text[b] == o.decimalPoint && text[b + 1..c] == n.fraction;
    }
    assert text[c..] == PowerText(n) + rest;
  }

  lemma {:induction false} LaidIsText(text: seq<byte>, o: Options, n: Number, rest: seq<byte>)
    requires Laid(text, o, n, rest)
    ensures text == Text(n, o) + rest
  {
    var a, b, c := IntegerFrom(n), IntegerTo(n), MantissaTo(n);
    assert text[..a] == Sign(n.negative);
    var middle := if n.point then [o.decimalPoint] + n.fraction else [];
    assert text[b..c] == middle;
    hide Sign, IntegerFrom, IntegerTo, MantissaTo;
    CutFour(text, a, b, c);
    Regroup(Sign(n.negative), n.integer, middle, PowerText(n), rest);
  }

  lemma CutFour(s: seq<byte>, a: nat, b: nat, c: nat)
    requires a <= b <= c <= |s|
    ensures s == s[..a] + (s[a..b] + (s[b..c] + s[c..]))
  {}

  lemma Regroup(u: seq<byte>, v: seq<byte>, w: seq<byte>, x: seq<byte>, y: seq<byte>)
    ensures u + (v + (w + (x + y))) == u + v + (w + x) + y
  {}

  /** What follows the mantissa does not begin with a digit. */
  lemma {:induction false} Behind(text: seq<byte>, o: Options, n: Number, rest: seq<byte>)
    requires Laid(text, o, n, rest) && Proper(o, n, rest)
    ensures MantissaTo(n) < |text| ==> !IsDigit(text[MantissaTo(n)])
    ensures MantissaTo(n) < |text| && !n.point ==> text[MantissaTo(n)] != o.decimalPoint
  {
    var c := MantissaTo(n);
    if c < |text| {
      assert text[c] == text[c..][0];
    }
  }

  lemma {:induction false} ReadInteger(text: seq<byte>, o: Options, n: Number, rest: seq<byte>)
    requires Laid(text, o, n, rest) && Proper(o, n, rest)
    ensures At(text, 0, MINUS) == n.negative && Start(text) == IntegerFrom(n) && IntegerEnd(text) == IntegerTo(n)
    ensures IntegerPart(text) == n.integer && HasPoint(text, o) == n.point
  {
    hide DigitRun, PowerBegins;
    var a, b := IntegerFrom(n), IntegerTo(n);
    Behind(text, o, n, rest);
    forall k | a <= k < b ensures IsInteger(text[k]) { assert text[k] == text[a..b][k - a]; }
    DigitRunUnique(text, a, b);
  }

  lemma {:induction false} ReadFraction(text: seq<byte>, o: Options, n: Number, rest: seq<byte>)
    requires Laid(text, o, n, rest) && Proper(o, n, rest)
    requires HasPoint(text, o) == n.point && IntegerEnd(text) == IntegerTo(n)
    ensures MantissaEnd(text, o) == MantissaTo(n) && FractionPart(text, o) == n.fraction
  {
    hide DigitRun, PowerBegins, IntegerEnd, HasPoint;
    if n.point {
      var b, c := IntegerTo(n), MantissaTo(n);
      Behind(text, o, n, rest);
      forall k | b + 1 <= k < c ensures IsInteger(text[k]) { assert text[k] == text[b + 1..c][k - b - 1]; }
      DigitRunUnique(text, b + 1, c);
    }
  }

  /** The exponent's digits end where the text goes on with something else. */
  lemma {:induction false} ReadDigits(text: seq<byte>, c: nat, e: Power, rest: seq<byte>)
    requires c <= |text| && text[c..] == e.Text() + rest && AreDigits(e.digits) && (rest != [] ==> !IsDigit(rest[0]))
    ensures var q := c + |e.letter| + |e.sign|;
            q <= |text| && DigitRun(text, q) == c + |e.Text()| <= |text| && text[q..c + |e.Text()|] == e.digits
  {
    hide DigitRun;
    var d, q, r := |e.letter| + |e.sign|, c + |e.letter| + |e.sign|, c + |e.Text()|;
    assert text[c..][d..|e.Text()|] == text[q..r];
    assert (e.Text() + rest)[d..|e.Text()|] == e.digits;
    forall k | q <= k < r ensures IsInteger(text[k]) { assert text[k] == text[q..r][k - q]; }
    if r < |text| { assert text[r] == text[c..][r - c]; }
    DigitRunUnique(text, q, r);
  }

  lemma {:induction false} ReadSomePower(text: seq<byte>, o: Options, e: Power, rest: seq<byte>)
    requires MantissaEnd(text, o) <= |text| && text[MantissaEnd(text, o)..] == e.Text() + rest
    requires PowerOk(o, e) && (rest != [] ==> !IsDigit(rest[0]))
    ensures HasExponent(text, o) && ExponentDigits(text, o) == e.digits
    ensures LastMatch(text, o) == MantissaEnd(text, o) + |e.Text()|
    ensures ExponentNegative(text, o) <==> e.sign == ['-' as int]
  {
    hide DigitRun, MantissaEnd, AfterSign, AfterLetter, ExponentMark;
    var c := MantissaEnd(text, o);
    PowerRead(text, o, c, e);
    ReadDigits(text, c, e, rest);
  }

  lemma {:induction false} ReadNoPower(text: seq<byte>, o: Options)
    requires !PowerBegins(o, text[MantissaEnd(text, o)..])
    ensures !HasExponent(text, o) && LastMatch(text, o) == MantissaEnd(text, o) && WrittenNumber(text, o) == 0
  {
    hide DigitRun, MantissaEnd, AfterSign, AfterLetter, ExponentMark, PowerBegins, Dec;
    PowerIff(text, o, MantissaEnd(text, o));
    DecEmpty();
  }

  lemma {:induction false} ReadPower(text: seq<byte>, o: Options, n: Number, rest: seq<byte>)
    requires Laid(text, o, n, rest) && Proper(o, n, rest) && MantissaEnd(text, o) == MantissaTo(n)
    ensures HasExponent(text, o) == n.power.Some?
    ensures LastMatch(text, o) == MantissaTo(n) + |PowerText(n)| && WrittenNumber(text, o) == PowerValue(n)
    ensures n.power.Some? ==> ExponentDigits(text, o) == n.power.value.digits
  {
    hide MantissaEnd, Dec, PowerBegins, HasExponent, LastMatch, ExponentDigits, ExponentNegative, MantissaTo, Apart,
         MantissaOk, PowerOk;
    if n.power.Some? {
      ReadSomePower(text, o, n.power.value, rest);
    } else {
      assert text[MantissaTo(n)..] == rest;
      ReadNoPower(text, o);
    }
  }

  /** Every text built from proper parts is read as these parts, whatever follows; and exactly the accepted ones
      are well-formed. */
  lemma {:induction false} Reading(o: Options, n: Number, rest: seq<byte>)
    requires Proper(o, n, rest)
    ensures var text := Text(n, o) + rest;
            && (WellFormed(text, o) <==> Accepted(o, n, rest))
            && At(text, 0, MINUS) == n.negative
            && IntegerPart(text) == n.integer && HasPoint(text, o) == n.point && FractionPart(text, o) == n.fraction
            && LastMatch(text, o) == |Text(n, o)| && WrittenNumber(text, o) == PowerValue(n)
            && (n.power.Some? ==> ExponentDigits(text, o) == n.power.value.digits)
  {
    hide PowerBegins, IntegerEnd, MantissaEnd, HasPoint, HasExponent, ExponentDigits, WrittenNumber, LastMatch,
         IntegerPart, FractionPart, ExponentMark, Dec;
    var text, c := Text(n, o) + rest, MantissaTo(n);
    TextIsLaid(o, n, rest);
    ReadInteger(text, o, n, rest);
    ReadFraction(text, o, n, rest);
    ReadPower(text, o, n, rest);
    SignRead(text, o, n, rest);
    MarkIs(text, o, c);
    MarkHere(text, o, n, rest);
  }

  lemma {:induction false} SignRead(text: seq<byte>, o: Options, n: Number, rest: seq<byte>)
    requires Laid(text, o, n, rest) && Proper(o, n, rest) && At(text, 0, MINUS) == n.negative
    ensures SignOk(text, o)
  {
    hide PowerBegins;
    if n.negative {
      if |n.integer| > 0 { assert text[1] == text[1..IntegerTo(n)][0]; }
    }
  }

  lemma {:induction false} MarkHere(text: seq<byte>, o: Options, n: Number, rest: seq<byte>)
    requires Laid(text, o, n, rest) && Proper(o, n, rest)
    ensures n.power.Some? ==> MantissaTo(n) < |text| && IsMark(o, text[MantissaTo(n)])
    ensures n.power.None? ==> (MantissaTo(n) < |text| <==> rest != []) && (rest != [] ==> text[MantissaTo(n)] == rest[0])
  {
    hide PowerBegins;
    var c := MantissaTo(n);
    if c < |text| { assert text[c] == text[c..][0]; }
  }

  // ---------- and nothing else is accepted ----------

  /** The parts the scanner finds. */
  function Found(text: seq<byte>, o: Options): Number {
    Number(At(text, 0, MINUS), IntegerPart(text), HasPoint(text, o), FractionPart(text, o), FoundPower(text, o))
  }

  function FoundPower(text: seq<byte>, o: Options): Option<Power> {
    if HasExponent(text, o) then
      var p := MantissaEnd(text, o);
      Some(Power(text[p..AfterLetter(text, p)], text[AfterLetter(text, p)..AfterSign(text, p)], ExponentDigits(text, o)))
    else None
  }

  lemma {:induction false} FoundMantissa(text: seq<byte>, o: Options)
    requires WellFormed(text, o) && !IsDigit(o.decimalPoint)
    ensures MantissaOk(o, Found(text, o)) && Apart(o, Found(text, o).(power := None))
  {
    hide FoundPower, ExponentOk;
  }

  lemma {:induction false} FoundPowerOk(text: seq<byte>, o: Options)
    requires HasExponent(text, o)
    ensures PowerOk(o, FoundPower(text, o).value)
    ensures MantissaEnd(text, o) + |FoundPower(text, o).value.Text()| == LastMatch(text, o) <= |text|
    ensures text[MantissaEnd(text, o)..LastMatch(text, o)] == FoundPower(text, o).value.Text()
  {
    hide MantissaEnd;
    var p := MantissaEnd(text, o);
    var q := AfterSign(text, p);
    MarkIs(text, o, p);
    forall k | 0 <= k < |ExponentDigits(text, o)| ensures IsDigit(ExponentDigits(text, o)[k]) {
      assert ExponentDigits(text, o)[k] == text[q + k];
    }
    assert DigitRun(text, q) > q;
  }

  /** What stands behind the number found does not continue it. */
  lemma {:induction false} FoundEnds(text: seq<byte>, o: Options)
    ensures LastMatch(text, o) <= |text| && Ends(o, Found(text, o), text[LastMatch(text, o)..])
  {
    hide PowerBegins;
    PowerIff(text, o, MantissaEnd(text, o));
    if LastMatch(text, o) < |text| { DigitIs(text[LastMatch(text, o)]); }
  }

  lemma {:induction false} FoundPlaces(text: seq<byte>, o: Options)
    ensures var n := Found(text, o);
            && IntegerFrom(n) == Start(text) && IntegerTo(n) == IntegerEnd(text) && MantissaTo(n) == MantissaEnd(text, o)
            && (n.negative ==> |text| > 0 && text[0] == '-' as int)
            && (n.point ==> IntegerTo(n) < |text| && text[IntegerTo(n)] == o.decimalPoint)
  {
    hide FoundPower, DigitRun;
  }

  lemma {:induction false} FoundIsLaid(text: seq<byte>, o: Options)
    ensures LastMatch(text, o) <= |text| && Laid(text, o, Found(text, o), text[LastMatch(text, o)..])
  {
    hide DigitRun, IntegerEnd, MantissaEnd, IntegerFrom, IntegerTo, MantissaTo, ExponentDigits, AfterLetter, AfterSign,
         HasExponent, FoundPower, LastMatch;
    var p, r := MantissaEnd(text, o), LastMatch(text, o);
    FoundPlaces(text, o);
    FoundSome(text, o);
    if HasExponent(text, o) {
      FoundPowerOk(text, o);
      assert text[p..] == text[p..r] + text[r..];
    }
  }

  lemma {:induction false} FoundIsProper(text: seq<byte>, o: Options)
    requires WellFormed(text, o) && !IsDigit(o.decimalPoint)
    ensures LastMatch(text, o) <= |text| && Proper(o, Found(text, o), text[LastMatch(text, o)..])
    ensures text == Text(Found(text, o), o) + text[LastMatch(text, o)..]
  {
    hide PowerBegins, LastMatch, MantissaOk, Ends, Laid, PowerOk, WellFormed, IntegerPart, FractionPart, FoundPower;
    FoundMantissa(text, o);
    FoundEnds(text, o);
    FoundIsLaid(text, o);
    LaidIsText(text, o, Found(text, o), text[LastMatch(text, o)..]);
    FoundApart(text, o);
    FoundSome(text, o);
    if HasExponent(text, o) { FoundPowerOk(text, o); }
  }

  lemma FoundSome(text: seq<byte>, o: Options)
    ensures HasExponent(text, o) <==> FoundPower(text, o).Some?
    ensures !HasExponent(text, o) ==> LastMatch(text, o) == MantissaEnd(text, o)
  {}

  lemma {:induction false} FoundApart(text: seq<byte>, o: Options)
    requires Apart(o, Found(text, o).(power := None))
    ensures Apart(o, Found(text, o))
  {
    hide DigitRun;
    var p := MantissaEnd(text, o);
    if HasExponent(text, o) {
      FoundPowerOk(text, o);
      assert text[p] == text[p..LastMatch(text, o)][0];
    }
  }

  /** The text is this number and the rest. */
  ghost predicate Says(text: seq<byte>, o: Options, n: Number, rest: seq<byte>) {
    text == Text(n, o) + rest && Proper(o, n, rest) && Accepted(o, n, rest)
  }

  /** The accepted texts are exactly those built from proper parts. */
  lemma {:induction false} WellFormedIff(text: seq<byte>, o: Options)
    requires !IsDigit(o.decimalPoint)
    ensures WellFormed(text, o) <==> exists n, rest :: Says(text, o, n, rest)
  {
    hide WellFormed, Proper, Accepted, Text;
    if WellFormed(text, o) {
      FoundIsProper(text, o);
      Reading(o, Found(text, o), text[LastMatch(text, o)..]);
      assert Says(text, o, Found(text, o), text[LastMatch(text, o)..]);
    }
    if n, rest :| Says(text, o, n, rest) {
      Reading(o, n, rest);
    }
  }
}
