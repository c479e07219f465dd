/** Integers in bases 2 to 36: an accumulator that wraps, and a check afterwards whether it did. */
module IntScanner {
  import opened Bits
  import opened Limbs
  import opened Decimal
  import opened Swar
  import opened NumberScanner

  /** The integer type parsed into. */
  datatype IntType = IntType(signed: bool, width: nat) {
    predicate Valid() {
      width in {8, 16, 32, 64}
    }

    function Modulus(): (m: nat)
      requires Valid()
      ensures m > 0 && m % 2 == 0 && BASE % m == 0 && m <= BASE
    {
      if width == 8 then 0x100 else if width == 16 then 0x1_0000 else if width == 32 then HALF else BASE
    }

    function Max(): (m: int)
      requires Valid()
      ensures m >= 0
    {
      if signed then Modulus() / 2 - 1 else Modulus() - 1
    }

    /** The largest magnitude; a negative number may be one larger. */
    function Limit(negative: bool): int
      requires Valid()
    {
      Max() + if negative then 1 else 0
    }

    /** Conversion of a wide integer, modulo 2^width. */
    function Cast(x: int): int
      requires Valid()
    {
      var r := x % Modulus();
      if signed && r > Max() then r - Modulus() else r
    }
  }

  datatype IntResult = Invalid | OutOfRange(end: nat) | Parsed(value: int, end: nat)

  const MAX_DIGITS: seq<nat> := [
    64, 41, 32, 28, 25, 23, 22, 21,
    20, 19, 18, 18, 17, 17, 16, 16,
    16, 16, 15, 15, 15, 15, 14, 14,
    14, 14, 14, 14, 14, 13, 13, 13,
    13, 13, 13
  ]

  const MIN_SAFE: seq<nat> := [
    9223372036854775808, 12157665459056928801, 4611686018427387904, 7450580596923828125, 4738381338321616896,
    3909821048582988049, 9223372036854775808, 12157665459056928801, 10000000000000000000, 5559917313492231481,
    2218611106740436992, 8650415919381337933, 2177953337809371136, 6568408355712890625, 1152921504606846976,
    2862423051509815793, 6746640616477458432, 15181127029874798299, 1638400000000000000, 3243919932521508681,
    6221821273427820544, 11592836324538749809, 876488338465357824, 1490116119384765625, 2481152873203736576,
    4052555153018976267, 6502111422497947648, 10260628712958602189, 15943230000000000000, 787662783788549761,
    1152921504606846976, 1667889514952984961, 2386420683693101056, 3379220508056640625, 4738381338321616896
  ]

  predicate IsBase(base: nat) {
    2 <= base <= 36
  }

  function MaxDigits(base: nat): nat
    requires IsBase(base)
  {
    MAX_DIGITS[base - 2]
  }

  function MinSafe(base: nat): nat
    requires IsBase(base)
  {
    MIN_SAFE[base - 2]
  }

  function ChToDigit(c: byte): (d: nat) {
    if 48 <= c <= 57 then c - 48
    else if 65 <= c <= 90 then c - 55
    else if 97 <= c <= 122 then c - 87
    else 255
  }

  // ---------- numerals ----------

  predicate AllDigitsOf(s: seq<byte>, base: nat) {
    forall i :: 0 <= i < |s| ==> ChToDigit(s[i]) < base
  }

  /** The number a numeral stands for. */
  function In(s: seq<byte>, base: nat): nat {
    if |s| == 0 then 0 else base * In(s[..|s| - 1], base) + ChToDigit(s[|s| - 1])
  }

  function NumeralEnd(text: seq<byte>, p: nat, base: nat): (q: nat)
    requires p <= |text|
    ensures p <= q <= |text|
    decreases |text| - p
  {
    if p < |text| && ChToDigit(text[p]) < base then NumeralEnd(text, p + 1, base) else p
  }

  /** The longest run of digits behind the sign. */
  function Numeral(text: seq<byte>, base: nat): seq<byte> {
    text[Start(text)..NumeralEnd(text, Start(text), base)]
  }

  lemma {:induction false} NumeralEndUnique(text: seq<byte>, p: nat, q: nat, base: nat)
    requires p <= q <= |text| && AllDigitsOf(text[p..q], base)
    requires q < |text| ==> ChToDigit(text[q]) >= base
    ensures NumeralEnd(text, p, base) == q
    decreases q - p
  {
    if p < q {
      assert text[p..q][0] == text[p] && text[p + 1..q] == text[p..q][1..];
      NumeralEndUnique(text, p + 1, q, base);
    }
  }

  lemma {:induction false} InSnoc(s: seq<byte>, c: byte, base: nat)
    ensures In(s + [c], base) == base * In(s, base) + ChToDigit(c)
  {
    assert (s + [c])[..|s|] == s;
  }

  lemma {:induction false} InTen(s: seq<byte>)
    requires AllDigits(s)
    ensures In(s, 10) == Dec(s) && AllDigitsOf(s, 10)
  {
    if |s| > 0 { InTen(s[..|s| - 1]); }
  }

  lemma {:induction false} InBound(s: seq<byte>, base: nat)
    requires AllDigitsOf(s, base)
    ensures In(s, base) < Pow(base, |s|)
  {
    if |s| > 0 {
      InBound(s[..|s| - 1], base);
      MulLessEqLeft(base, In(s[..|s| - 1], base) + 1, Pow(base, |s| - 1));
      Distribute(In(s[..|s| - 1], base), 1, base);
    }
  }

  lemma {:induction false} InLower(s: seq<byte>, base: nat)
    requires AllDigitsOf(s, base) && |s| > 0 && s[0] != ZERO && base > 0
    ensures In(s, base) >= Pow(base, |s| - 1)
  {
    if |s| > 1 {
      InLower(s[..|s| - 1], base);
      MulLessEqLeft(base, Pow(base, |s| - 2), In(s[..|s| - 1], base));
    } else {
      assert In(s[..0], base) == 0;
      MulZero(base);
    }
  }

  lemma MulZero(a: nat)
    ensures a * 0 == 0
  {}

  /** Leading zeros are worth nothing. */
  lemma {:induction false} InZeros(z: seq<byte>, s: seq<byte>, base: nat)
    requires forall i :: 0 <= i < |z| ==> z[i] == ZERO
    ensures In(z + s, base) == In(s, base)
  {
    if |s| > 0 {
      assert (z + s)[..|z + s| - 1] == z + s[..|s| - 1];
      InZeros(z, s[..|s| - 1], base);
    } else if |z| > 0 {
      assert z + s == z && z[..|z| - 1] + [] == z[..|z| - 1];
      InZeros(z[..|z| - 1], [], base);
      MulZero(base);
    } else {
      assert z + s == s;
    }
  }

  function DigitChar(d: nat): (c: byte)
    requires d < 36
    ensures ChToDigit(c) == d
  {
    if d < 10 then d + 48 else d + 55
  }

  lemma QuotientLess(v: nat, base: nat)
    requires v > 0 && base >= 2
    ensures v / base < v
  {
    DivMod(v, base);
    MulLessEqLeft(v / base, 2, base);
  }

  lemma Quotient(v: nat, base: nat) returns (q: nat, r: nat)
    requires v > 0 && base >= 2
    ensures q == v / base < v && r == v % base < base && base * q + r == v
  {
    QuotientLess(v, base);
    q, r := v / base, v % base;
  }

  // ---------- what the characters are worth ----------

  const LOWER := "0123456789" + "abcdefghijklm" + "nopqrstuvwxyz"
  const UPPER := "0123456789" + "ABCDEFGHIJKLM" + "NOPQRSTUVWXYZ"

  /** A character of either alphabet, for the digit that is its index. */
  predicate Character(c: byte, d: nat) {
    d < |LOWER| && d < |UPPER| && (c == LOWER[d] as int || c == UPPER[d] as int)
  }

  lemma TenCharacters(d: nat)
    requires d < 10
    ensures |"0123456789"| == 10 && "0123456789"[d] as int == 48 + d
  {}

  lemma SmallLetters(d: nat)
    requires d < 13
    ensures |"abcdefghijklm"| == |"nopqrstuvwxyz"| == 13
    ensures "abcdefghijklm"[d] as int == 97 + d && "nopqrstuvwxyz"[d] as int == 110 + d
  {}

  lemma CapitalLetters(d: nat)
    requires d < 13
    ensures |"ABCDEFGHIJKLM"| == |"NOPQRSTUVWXYZ"| == 13
    ensures "ABCDEFGHIJKLM"[d] as int == 65 + d && "NOPQRSTUVWXYZ"[d] as int == 78 + d
  {}

  lemma {:induction false} Joined(a: string, b: string, c: string, d: nat)
    requires |a| == 10 && |b| == |c| == 13 && d < 36
    ensures |a + b + c| == 36
    ensures (a + b + c)[d] == if d < 10 then a[d] else if d < 23 then b[d - 10] else c[d - 23]
  {}

  lemma {:induction false} Alphabets(d: nat)
    requires d < 36
    ensures |LOWER| == 36 && |UPPER| == 36
    ensures LOWER[d] as int == if d < 10 then 48 + d else 87 + d
    ensures UPPER[d] as int == if d < 10 then 48 + d else 55 + d
  {
    TenCharacters(if d < 10 then d else 0);
    var k := if d < 10 then 0 else if d < 23 then d - 10 else d - 23;
    SmallLetters(k);
    CapitalLetters(k);
    Joined("0123456789", "abcdefghijklm", "nopqrstuvwxyz", d);
    Joined("0123456789", "ABCDEFGHIJKLM", "NOPQRSTUVWXYZ", d);
  }

  /** A byte is worth a digit exactly when it is that digit's character. */
  lemma {:induction false} CharacterIs(c: byte, d: nat)
    requires d < 36
    ensures ChToDigit(c) == d <==> Character(c, d)
  {
    hide LOWER, UPPER;
    Alphabets(d);
  }

  /** Any other byte is no digit in any base. */
  lemma {:induction false} OtherBytes(c: byte)
    ensures ChToDigit(c) < 36 || ChToDigit(c) == 255
    ensures ChToDigit(c) == 255 <==> forall d: nat :: d < 36 ==> !Character(c, d)
  {
    hide Character;
    if ChToDigit(c) < 36 { CharacterIs(c, ChToDigit(c)); }
    if d: nat :| d < 36 && Character(c, d) { CharacterIs(c, d); }
  }

  /** The positional value of digits. */
  function Positional(ds: seq<nat>, base: nat): nat {
    if |ds| == 0 then 0 else base * Positional(ds[..|ds| - 1], base) + ds[|ds| - 1]
  }

  /** From `p` on stand characters of these digits, in capital or small letters, and then no further digit. */
  ghost predicate Spelled(text: seq<byte>, p: nat, ds: seq<nat>, base: nat) {
    && |ds| > 0 && p + |ds| <= |text|
    && (forall k :: 0 <= k < |ds| ==> ds[k] < base && Character(text[p + k], ds[k]))
    && (p + |ds| < |text| ==> NoDigit(text[p + |ds|], base))
  }

  ghost predicate NoDigit(c: byte, base: nat) {
    forall d: nat :: d < base ==> !Character(c, d)
  }

  lemma {:induction false} SpelledValue(s: seq<byte>, ds: seq<nat>, base: nat)
    requires IsBase(base) && |s| == |ds| && forall k :: 0 <= k < |ds| ==> ds[k] < base && Character(s[k], ds[k])
    ensures AllDigitsOf(s, base) && In(s, base) == Positional(ds, base)
  {
    hide Character, ChToDigit;
    forall k | 0 <= k < |s| ensures ChToDigit(s[k]) == ds[k] { CharacterIs(s[k], ds[k]); }
    if |s| > 0 {
      var n := |s| - 1;
      SpelledValue(s[..n], ds[..n], base);
    }
  }

  /** A minus sign, or none, and digits. */
  ghost predicate Says(text: seq<byte>, negative: bool, ds: seq<nat>, base: nat) {
    (negative ==> |text| > 0 && text[0] == '-' as int) && Spelled(text, if negative then 1 else 0, ds, base)
  }

  lemma {:induction false} SaidIsNumeral(text: seq<byte>, negative: bool, ds: seq<nat>, base: nat)
    requires IsBase(base) && Says(text, negative, ds, base)
    ensures At(text, 0, MINUS) == negative && Numeral(text, base) != []
    ensures NumeralEnd(text, Start(text), base) == (if negative then 1 else 0) + |ds|
    ensures In(Numeral(text, base), base) == Positional(ds, base)
  {
    hide Character, ChToDigit, In, NumeralEnd;
    var p := if negative then 1 else 0;
    var q, s := p + |ds|, text[p..p + |ds|];
    SpelledValue(s, ds, base);
    if !negative { NoSign(text[0], ds[0]); }
    if q < |text| {
      if ChToDigit(text[q]) < base { CharacterIs(text[q], ChToDigit(text[q])); }
    }
    NumeralEndUnique(text, p, q, base);
  }

  lemma NoSign(c: byte, d: nat)
    requires Character(c, d)
    ensures c != MINUS
  {
    CharacterIs(c, d);
  }

  /** And every numeral is spelled so. */
  lemma {:induction false} NumeralIsSaid(text: seq<byte>, base: nat) returns (ds: seq<nat>)
    requires IsBase(base) && Numeral(text, base) != []
    ensures Says(text, At(text, 0, MINUS), ds, base)
  {
    hide Character, ChToDigit;
    var p, q := Start(text), NumeralEnd(text, Start(text), base);
    NumeralEnds(text, p, base);
    ds := seq(q - p, k requires 0 <= k < q - p => ChToDigit(text[p + k]));
    forall k | 0 <= k < |ds| ensures ds[k] < base && Character(text[p + k], ds[k]) { CharacterIs(text[p + k], ds[k]); }
    if q < |text| {
      forall d: nat | d < base ensures !Character(text[q], d) { CharacterIs(text[q], d); }
      assert NoDigit(text[q], base);
    }
  }

  lemma {:induction false} NumeralEnds(text: seq<byte>, p: nat, base: nat)
    requires p <= |text|
    ensures var q := NumeralEnd(text, p, base);
            && (forall k :: p <= k < q ==> ChToDigit(text[k]) < base)
            && (q < |text| ==> ChToDigit(text[q]) >= base)
    decreases |text| - p
  {
    if p < |text| && ChToDigit(text[p]) < base { NumeralEnds(text, p + 1, base); }
  }

  /** Every number has digits in every base. */
  function DigitsOf(v: nat, base: nat): (ds: seq<nat>)
    requires IsBase(base)
    ensures forall d :: d in ds ==> d < base
    decreases v
  {
    if v < base then [v] else
      QuotientLess(v, base);
      DigitsOf(v / base, base) + [v % base]
  }

  lemma {:induction false} DigitsOfValue(v: nat, base: nat)
    requires IsBase(base)
    ensures |DigitsOf(v, base)| > 0 && Positional(DigitsOf(v, base), base) == v
    decreases v
  {
    hide Positional;
    if v < base {
      PositionalSnoc([], v, base);
      assert [] + [v] == [v];
    } else {
      var q, r := Quotient(v, base);
      DigitsOfValue(q, base);
      PositionalSnoc(DigitsOf(q, base), r, base);
    }
  }

  lemma {:induction false} PositionalSnoc(ds: seq<nat>, d: nat, base: nat)
    ensures Positional(ds + [d], base) == base * Positional(ds, base) + d
    ensures Positional([], base) == 0
  {
    assert (ds + [d])[..|ds|] == ds;
  }

  // ---------- the tables ----------

  /** Exponentiation by squaring, to evaluate the table. */
  function FastPow(b: nat, n: nat): nat {
    if n == 0 then 1
    else
      var h := FastPow(b, n / 2);
      if n % 2 == 1 then b * (h * h) else h * h
  }

  lemma {:induction false} FastPowIsPow(b: nat, n: nat)
    ensures FastPow(b, n) == Pow(b, n)
  {
    if n > 0 {
      FastPowIsPow(b, n / 2);
      PowAdd(b, n / 2, n / 2);
    }
  }

  predicate RowOk(base: nat)
    requires IsBase(base)
  {
    MaxDigits(base) >= 1 && MinSafe(base) == FastPow(base, MaxDigits(base) - 1) < BASE <= base * MinSafe(base)
  }

  lemma RowsFrom2()
    ensures FastPow(2, 63) == 9223372036854775808
    ensures FastPow(3, 40) == 12157665459056928801
    ensures FastPow(4, 31) == 4611686018427387904
  {}

  lemma RowsFrom5()
    ensures FastPow(5, 27) == 7450580596923828125
    ensures FastPow(6, 24) == 4738381338321616896
    ensures FastPow(7, 22) == 3909821048582988049
  {}

  lemma RowsFrom8()
    ensures FastPow(8, 21) == 9223372036854775808
    ensures FastPow(9, 20) == 12157665459056928801
    ensures FastPow(10, 19) == 10000000000000000000
  {}

  lemma RowsFrom11()
    ensures FastPow(11, 18) == 5559917313492231481
    ensures FastPow(12, 17) == 2218611106740436992
    ensures FastPow(13, 17) == 8650415919381337933
  {}

  lemma RowsFrom14()
    ensures FastPow(14, 16) == 2177953337809371136
    ensures FastPow(15, 16) == 6568408355712890625
    ensures FastPow(16, 15) == 1152921504606846976
  {}

  lemma RowsFrom17()
    ensures FastPow(17, 15) == 2862423051509815793
    ensures FastPow(18, 15) == 6746640616477458432
    ensures FastPow(19, 15) == 15181127029874798299
  {}

  lemma RowsFrom20()
    ensures FastPow(20, 14) == 1638400000000000000
    ensures FastPow(21, 14) == 3243919932521508681
    ensures FastPow(22, 14) == 6221821273427820544
  {}

  lemma RowsFrom23()
    ensures FastPow(23, 14) == 11592836324538749809
    ensures FastPow(24, 13) == 876488338465357824
    ensures FastPow(25, 13) == 1490116119384765625
  {}

  lemma RowsFrom26()
    ensures FastPow(26, 13) == 2481152873203736576
    ensures FastPow(27, 13) == 4052555153018976267
    ensures FastPow(28, 13) == 6502111422497947648
  {}

  lemma RowsFrom29()
    ensures FastPow(29, 13) == 10260628712958602189
    ensures FastPow(30, 13) == 15943230000000000000
    ensures FastPow(31, 12) == 787662783788549761
  {}

  lemma RowsFrom32()
    ensures FastPow(32, 12) == 1152921504606846976
    ensures FastPow(33, 12) == 1667889514952984961
    ensures FastPow(34, 12) == 2386420683693101056
  {}

  lemma RowsFrom35()
    ensures FastPow(35, 12) == 3379220508056640625
    ensures FastPow(36, 12) == 4738381338321616896
  {}

  lemma {:induction false} AllRows(base: nat)
    requires IsBase(base)
    ensures RowOk(base)
  {
    hide FastPow;
    RowsFrom2();
    RowsFrom5();
    RowsFrom8();
    RowsFrom11();
    RowsFrom14();
    RowsFrom17();
    RowsFrom20();
    RowsFrom23();
    RowsFrom26();
    RowsFrom29();
    RowsFrom32();
    RowsFrom35();
  }

  /** The longest numerals that can fit 64 bits, and the smallest number that needs as many digits. */
  lemma {:induction false} Tables(base: nat)
    requires IsBase(base)
    ensures MaxDigits(base) >= 1 && MinSafe(base) == Pow(base, MaxDigits(base) - 1)
    ensures MinSafe(base) < BASE <= Pow(base, MaxDigits(base)) == base * MinSafe(base)
  {
    hide FastPow;
    AllRows(base);
    FastPowIsPow(base, MaxDigits(base) - 1);
  }

  // ---------- the scanner ----------

  /** Whether the number is in the type's range. */
  predicate Fits(t: IntType, negative: bool, v: nat)
    requires t.Valid()
  {
    v <= t.Limit(negative)
  }

  /** Too large for 64 bits, but what is left after wrapping around does not show it: as many digits as the largest
      64-bit number and again at least the smallest number of that many digits. */
  predicate Undetected(t: IntType, base: nat, negative: bool, v: nat)
    requires t.Valid() && IsBase(base)
  {
    BASE <= v < base * MinSafe(base) && MinSafe(base) <= v % BASE <= t.Limit(negative)
  }

  /** The digits behind the leading zeros, accumulated modulo 2^64; eight at a time in base ten. */
  method Accumulate(text: seq<byte>, startDigits: nat, base: nat) returns (p: nat, i: Limb)
    requires startDigits <= |text| && IsBase(base)
    ensures startDigits <= p <= |text| && AllDigitsOf(text[startDigits..p], base)
    ensures p < |text| ==> ChToDigit(text[p]) >= base
    ensures i == In(text[startDigits..p], base) % BASE
  {
    hide In, Dec, Tens, ChToDigit;
    p, i := startDigits, 0;
    assert text[startDigits..p] == [];
    InEmpty(base);
    if base == 10 {
      p, i := LoopParseIfEightDigits(text, p, i);
      TensZero(p - startDigits);
      InTen(text[startDigits..p]);
    }
    while p != |text|
      invariant startDigits <= p <= |text| && AllDigitsOf(text[startDigits..p], base)
      invariant i == In(text[startDigits..p], base) % BASE
    {
      var digit := ChToDigit(text[p]);
      if digit >= base {
        break;
      }
      WrapStep(In(text[startDigits..p], base), base, digit);
      Swap(base, In(text[startDigits..p], base), i);
      assert text[startDigits..p + 1] == text[startDigits..p] + [text[p]];
      InSnoc(text[startDigits..p], text[p], base);
      i := (base * i + digit) % BASE;
      p := p + 1;
    }
  }

  lemma InEmpty(base: nat)
    ensures In([], base) == 0
  {}

  lemma Swap(a: nat, b: nat, c: nat)
    ensures a * b == b * a && a * c == c * a
  {}

  /** How many digits there are tells how the wrapped number relates to the number. */
  lemma {:induction false} DigitCount(s: seq<byte>, base: nat)
    requires IsBase(base) && AllDigitsOf(s, base) && |s| > 0 && s[0] != ZERO
    ensures |s| > MaxDigits(base) <==> In(s, base) >= base * MinSafe(base)
    ensures |s| >= MaxDigits(base) <==> In(s, base) >= MinSafe(base)
  {
    hide Pow, In;
    Tables(base);
    InBound(s, base);
    InLower(s, base);
    var n := MaxDigits(base);
    if |s| > n { PowMonotone(base, n, |s| - 1); } else { PowMonotone(base, |s|, n); }
    if |s| >= n { PowMonotone(base, n - 1, |s| - 1); } else { PowMonotone(base, |s|, n - 1); }
  }

  lemma ModMod(x: int, m: int, k: int)
    requires m > 0 && k > 0
    ensures (x % (k * m)) % m == x % m
  {
    var q, r := x / (k * m), x % (k * m);
    var q', r' := r / m, r % m;
    assert x == (q * k + q') * m + r' by {
      assert x == (k * m) * q + r && r == m * q' + r';
      assert (k * m) * q == (q * k) * m;
      Distribute(q * k, q', m);
    }
    DivModUnique(x, m, q * k + q', r');
  }

  lemma SmallMod(x: int, m: int)
    requires m > 0 && -m <= x < m
    ensures x % m == if x < 0 then x + m else x
  {
    DivModUnique(x, m, if x < 0 then -1 else 0, if x < 0 then x + m else x);
  }

  /** -max - T(i - max), each conversion modulo 2^width, is -i for every i that may be negated. */
  lemma {:induction false} NegatedExactly(t: IntType, i: int)
    requires t.Valid() && t.signed && 0 <= i <= t.Limit(true)
    ensures t.Cast(-t.Max() - t.Cast((i - t.Max()) % BASE)) == -i
  {
    var m, d := t.Modulus(), i - t.Max();
    assert BASE == (if t.width == 8 then 0x100_0000_0000_0000 else if t.width == 16 then 0x1_0000_0000_0000
                    else if t.width == 32 then HALF else 1) * m;
    ModMod(d, m, if t.width == 8 then 0x100_0000_0000_0000 else if t.width == 16 then 0x1_0000_0000_0000
                 else if t.width == 32 then HALF else 1);
    SmallMod(d, m);
    SmallMod(-i, m);
  }

  /** The three tests report out of range just when the number is, unless the wrap-around escapes them. */
  lemma {:induction false} RangeCheck(t: IntType, base: nat, negative: bool, digitCount: nat, v: nat)
    requires t.Valid() && IsBase(base) && (negative ==> t.signed)
    requires digitCount > MaxDigits(base) <==> v >= base * MinSafe(base)
    requires digitCount >= MaxDigits(base) <==> v >= MinSafe(base)
    ensures
      || digitCount > MaxDigits(base)
      || (digitCount == MaxDigits(base) && v % BASE < MinSafe(base))
      || (t != IntType(false, 64) && v % BASE > t.Limit(negative))
      <==> !Fits(t, negative, v) && !Undetected(t, base, negative, v)
  {
    Tables(base);
    if v < BASE { ModSmall(v, BASE); }
  }

  /** The overflow checks, and the value. */
  method CheckedValue(t: IntType, base: nat, negative: bool, digitCount: nat, i: Limb, p: nat, ghost v: nat)
    returns (r: IntResult)
    requires IsBase(base) && t.Valid() && (negative ==> t.signed) && i == v % BASE
    requires digitCount > MaxDigits(base) <==> v >= base * MinSafe(base)
    requires digitCount >= MaxDigits(base) <==> v >= MinSafe(base)
    ensures r != Invalid && r.end == p
    ensures r.Parsed? ==> r.value == if negative then -(v % BASE) else v % BASE
    ensures r.OutOfRange? <==> !Fits(t, negative, v) && !Undetected(t, base, negative, v)
  {
    hide MaxDigits, MinSafe;
    RangeCheck(t, base, negative, digitCount, v);
    var maxDigits := MaxDigits(base);
    if digitCount > maxDigits {
      return OutOfRange(p);
    }
    if digitCount == maxDigits && i < MinSafe(base) {
      return OutOfRange(p);
    }
    if t != IntType(false, 64) {
      if i > t.Max() + (if negative then 1 else 0) {
        return OutOfRange(p);
      }
    }
    if negative {
      NegatedExactly(t, i);
      r := Parsed(t.Cast(-t.Max() - t.Cast((i - t.Max()) % BASE)), p);
    } else {
      r := Parsed(t.Cast(i), p);
    }
  }

  method ParseIntString(text: seq<byte>, t: IntType, base: nat) returns (r: IntResult)
    requires |text| > 0 && IsBase(base) && t.Valid()
    ensures var negative, s, end := At(text, 0, MINUS), Numeral(text, base), NumeralEnd(text, Start(text), base);
            var v: int := In(s, base);
            && (r == Invalid <==> (negative && !t.signed) || s == [])
            && (r != Invalid ==> r.end == end)
            && (r.Parsed? ==> r.value == if negative then -(v % BASE) else v % BASE)
            && (r != Invalid ==> (r.OutOfRange? <==> !Fits(t, negative, v) && !Undetected(t, base, negative, v)))
  {
    hide In, NumeralEnd, ChToDigit, MaxDigits, MinSafe;
    var p := 0;
    var negative := text[p] == MINUS;
    if !t.signed && negative {
      return Invalid;
    }
    if text[p] == MINUS {
      p := p + 1;
    }
    var startNum := p;
    while p != |text| && text[p] == ZERO
      invariant startNum <= p <= |text| && forall k :: startNum <= k < p ==> text[k] == ZERO
    {
      p := p + 1;
    }
    var hasLeadingZeros := p > startNum;
    var startDigits := p;
    var i;
    p, i := Accumulate(text, startDigits, base);
    ghost var s, v := text[startDigits..p], In(text[startDigits..p], base);
    WholeNumeral(text, startNum, startDigits, p, base);
    Tables(base);
    var digitCount := p - startDigits;
    if digitCount == 0 {
      InEmpty(base);
      return if hasLeadingZeros then Parsed(0, p) else Invalid;
    }
    DigitCount(s, base);
    r := CheckedValue(t, base, negative, digitCount, i, p, v);
  }

  /** Leading zeros and significant digits together are the numeral, and worth what the latter are. */
  lemma {:induction false} WholeNumeral(text: seq<byte>, startNum: nat, startDigits: nat, p: nat, base: nat)
    requires |text| > 0 && startNum == Start(text) <= startDigits <= p <= |text| && IsBase(base)
    requires forall k :: startNum <= k < startDigits ==> text[k] == ZERO
    requires AllDigitsOf(text[startDigits..p], base) && (p < |text| ==> ChToDigit(text[p]) >= base)
    ensures NumeralEnd(text, startNum, base) == p && Numeral(text, base) == text[startNum..p]
    ensures In(Numeral(text, base), base) == In(text[startDigits..p], base)
  {
    var z, s := text[startNum..startDigits], text[startDigits..p];
    assert text[startNum..p] == z + s;
    assert AllDigitsOf(z + s, base);
    NumeralEndUnique(text, startNum, p, base);
    InZeros(z, s, base);
  }

  // ---------- what follows for every text ----------

  /** Where it matters: a numeral in range is in the wrap's blind spot never. */
  lemma {:induction false} InRangeIsExact(t: IntType, base: nat, negative: bool, v: nat)
    requires t.Valid() && IsBase(base) && (negative ==> t.signed) && Fits(t, negative, v)
    ensures v % BASE == v && !Undetected(t, base, negative, v)
  {
    ModSmall(v, BASE);
  }

  /** No text is misread. */
  ghost predicate Sound(t: IntType, base: nat)
    requires t.Valid() && IsBase(base)
  {
    forall text: seq<byte> :: |text| > 0 && (At(text, 0, MINUS) ==> t.signed) ==>
      !Undetected(t, base, At(text, 0, MINUS), In(Numeral(text, base), base))
  }

  /** Every number is written in some text, with a sign or without. */
  lemma {:induction false} WrittenText(v: nat, base: nat, negative: bool) returns (text: seq<byte>)
    requires IsBase(base)
    ensures |text| > 0 && At(text, 0, MINUS) == negative && In(Numeral(text, base), base) == v
    ensures Says(text, negative, DigitsOf(v, base), base)
  {
    hide In, Character, Positional, Numeral, DigitsOf;
    DigitsOfValue(v, base);
    var ds := DigitsOf(v, base);
    var s: seq<byte> := seq(|ds|, k requires 0 <= k < |ds| => if ds[k] < 36 then DigitChar(ds[k]) else 0);
    var p := if negative then 1 else 0;
    text := if negative then [MINUS] + s else s;
    forall k | 0 <= k < |ds| ensures ds[k] < base && Character(text[p + k], ds[k]) {
      assert ds[k] in ds;
      CharacterIs(DigitChar(ds[k]), ds[k]);
    }
    SaidIsNumeral(text, negative, ds, base);
  }

  /** The overflow check of a base and a type is complete just when wrapping once around cannot lead back into
      the range it accepts; for other bases there is a text that is misread. */
  lemma {:induction false} SoundIff(t: IntType, base: nat)
    requires t.Valid() && IsBase(base)
    ensures Sound(t, base) <==> base * MinSafe(base) <= BASE + MinSafe(base) || t.Limit(t.signed) < MinSafe(base)
  {
    hide In, Numeral, MinSafe, MaxDigits;
    Tables(base);
    var low := MinSafe(base);
    if base * low > BASE + low && t.Limit(t.signed) >= low {
      ModSmall(low, BASE);
      DivModUnique(BASE + low, BASE, 1, low);
      var text := WrittenText(BASE + low, base, t.signed);
      assert Undetected(t, base, t.signed, In(Numeral(text, base), base));
    } else {
      forall text: seq<byte> | |text| > 0 && (At(text, 0, MINUS) ==> t.signed)
        ensures !Undetected(t, base, At(text, 0, MINUS), In(Numeral(text, base), base))
      {
        var v := In(Numeral(text, base), base);
        if BASE <= v < base * low && base * low <= BASE + low {
          DivModUnique(v, BASE, 1, v - BASE);
        }
      }
    }
  }

  /** For instance 33446744073709551616 is read as 15000000000000000000. */
  lemma {:induction false} DecimalMisread()
    ensures var text: seq<byte> := [51, 51, 52, 52, 54, 55, 52, 52, 48, 55, 51, 55, 48, 57, 53, 53, 49, 54, 49, 54];
            var v := In(Numeral(text, 10), 10);
            v == 33446744073709551616 && v % BASE == 15000000000000000000 && Undetected(IntType(false, 64), 10, false, v)
  {
    hide In, Dec, Undetected, Numeral, NumeralEnd;
    var text: seq<byte> := [51, 51, 52, 52, 54, 55, 52, 52, 48, 55, 51, 55, 48, 57, 53, 53, 49, 54, 49, 54];
    NumeralOfDigits(text);
    InTen(text);
    MisreadValue(text);
    MisreadEscapes();
  }

  lemma {:induction false} NumeralOfDigits(text: seq<byte>)
    requires AllDigits(text)
    ensures Numeral(text, 10) == text
  {
    assert text[0..|text|] == text;
    NumeralEndUnique(text, 0, |text|, 10);
  }

  lemma {:induction false} MisreadEscapes()
    ensures 33446744073709551616 % BASE == 15000000000000000000
    ensures Undetected(IntType(false, 64), 10, false, 33446744073709551616)
  {
    assert MinSafe(10) == 10000000000000000000;
  }

  lemma {:induction false} MisreadValue(text: seq<byte>)
    requires text == [51, 51, 52, 52, 54, 55, 52, 52, 48, 55, 51, 55, 48, 57, 53, 53, 49, 54, 49, 54]
    ensures Dec(text) == 33446744073709551616
  {
    hide Dec, Tens;
    var high, low := text[..10], text[10..];
    assert text == high + low;
    DecConcat(high, low);
    TensIsPow(Dec(high), 10);
    assert Pow(10, 10) == 10000000000;
    DecTen(high);
    DecTen(low);
  }

  /** Ten digits, spelled out. */
  lemma {:induction false} DecTen(s: seq<byte>)
    requires |s| == 10
    ensures Dec(s) == 1000000000 * Digit(s[0]) + 100000000 * Digit(s[1]) + 10000000 * Digit(s[2]) + 1000000 * Digit(s[3])
                    + 100000 * Digit(s[4]) + 10000 * Digit(s[5]) + 1000 * Digit(s[6]) + 100 * Digit(s[7])
                    + 10 * Digit(s[8]) + Digit(s[9])
  {
    DecFive(s[..5]);
    DecFive(s[5..]);
    assert s == s[..5] + s[5..];
    DecConcat(s[..5], s[5..]);
    TensIsPow(Dec(s[..5]), 5);
    assert Pow(10, 5) == 100000;
  }

  lemma {:induction false} DecFive(s: seq<byte>)
    requires |s| == 5
    ensures Dec(s) == 10000 * Digit(s[0]) + 1000 * Digit(s[1]) + 100 * Digit(s[2]) + 10 * Digit(s[3]) + Digit(s[4])
  {
    assert s == [] + [s[0]] + [s[1]] + [s[2]] + [s[3]] + [s[4]];
    DecSnoc([], s[0]);
    DecSnoc([] + [s[0]], s[1]);
    DecSnoc([] + [s[0]] + [s[1]], s[2]);
    DecSnoc([] + [s[0]] + [s[1]] + [s[2]], s[3]);
    DecSnoc([] + [s[0]] + [s[1]] + [s[2]] + [s[3]], s[4]);
  }

  // ---------- the entry point ----------

  /** The values of the type. */
  predicate InType(t: IntType, v: int) {
    if t.signed then t.width >= 1 && -(Pow(2, t.width - 1) as int) <= v < Pow(2, t.width - 1) else 0 <= v < Pow(2, t.width)
  }

  lemma {:induction false} InTypeIs(t: IntType, negative: bool, v: nat)
    requires t.Valid() && (negative ==> t.signed)
    ensures InType(t, if negative then -(v as int) else v) <==> Fits(t, negative, v)
  {
    hide Pow;
    BasePowers();
    WidthPowers();
  }

  lemma WidthPowers()
    ensures Pow(2, 7) == 0x80 && Pow(2, 8) == 0x100 && Pow(2, 15) == 0x8000 && Pow(2, 16) == 0x1_0000
    ensures Pow(2, 31) == 0x8000_0000 && Pow(2, 63) == 0x8000_0000_0000_0000
  {
    hide Pow;
    BasePowers();
    SmallWidths();
    PowAdd(2, 1, 31);
    PowAdd(2, 1, 63);
    PowAdd(2, 8, 7);
    PowAdd(2, 8, 8);
  }

  lemma SmallWidths()
    ensures Pow(2, 1) == 2 && Pow(2, 7) == 0x80 && Pow(2, 8) == 0x100
  {}

  /** What is answered for a number spelled in the text. */
  ghost predicate Answers(t: IntType, base: nat, negative: bool, ds: seq<nat>, r: IntResult) {
    var v: int := if negative then -(Positional(ds, base) as int) else Positional(ds, base);
    && (negative && !t.signed ==> r == Invalid)
    && (negative ==> t.signed) ==>
         && r != Invalid && r.end == (if negative then 1 else 0) + |ds|
         && (InType(t, v) ==> r.Parsed? && r.value == v)
         && (r.OutOfRange? ==> !InType(t, v))
  }

  lemma {:induction false} SaidIsAnswered(text: seq<byte>, t: IntType, base: nat, r: IntResult, negative: bool, ds: seq<nat>)
    requires t.Valid() && IsBase(base) && Says(text, negative, ds, base)
    requires r == Invalid <==> (At(text, 0, MINUS) && !t.signed) || Numeral(text, base) == []
    requires r != Invalid ==>
               var minus, v: int := At(text, 0, MINUS), In(Numeral(text, base), base);
               && r.end == NumeralEnd(text, Start(text), base)
               && (Fits(t, minus, v) ==> r.Parsed? && r.value == if minus then -v else v)
               && (r.OutOfRange? ==> !Fits(t, minus, v))
    ensures Answers(t, base, negative, ds, r)
  {
    hide In, Numeral, NumeralEnd, InType, Fits, Says, Positional;
    SaidIsNumeral(text, negative, ds, base);
    if negative ==> t.signed { InTypeIs(t, negative, Positional(ds, base)); }
  }

  /** An empty text and an unknown base are refused first. A number is answered exactly when one is spelled. */
  method FromCharsInt(text: seq<byte>, t: IntType, base: nat) returns (r: IntResult)
    requires t.Valid()
    ensures r != Invalid ==> IsBase(base) && exists negative, ds :: Says(text, negative, ds, base)
    ensures IsBase(base) ==> forall negative, ds :: Says(text, negative, ds, base) ==> Answers(t, base, negative, ds, r)
    ensures r == Invalid <==>
              text == [] || !IsBase(base) || (At(text, 0, MINUS) && !t.signed) || Numeral(text, base) == []
    ensures r != Invalid ==>
              var negative, v: int := At(text, 0, MINUS), In(Numeral(text, base), base);
              && r.end == NumeralEnd(text, Start(text), base)
              && (Fits(t, negative, v) ==> r.Parsed? && r.value == if negative then -v else v)
              && (r.OutOfRange? <==> !Fits(t, negative, v) && !Undetected(t, base, negative, v))
  {
    hide In, NumeralEnd, MinSafe, MaxDigits, Says, Answers;
    if |text| == 0 || base < 2 || base > 36 {
      r := Invalid;
      NothingSaid(base);
      return;
    }
    r := ParseIntString(text, t, base);
    if r != Invalid {
      ghost var negative, v := At(text, 0, MINUS), In(Numeral(text, base), base);
      if Fits(t, negative, v) { InRangeIsExact(t, base, negative, v); }
      ghost var ds := NumeralIsSaid(text, base);
    }
    forall negative, ds | Says(text, negative, ds, base) ensures Answers(t, base, negative, ds, r) {
      SaidIsAnswered(text, t, base, r, negative, ds);
    }
  }

  lemma NothingSaid(base: nat)
    ensures forall negative, ds :: !Says([], negative, ds, base)
  {}
}
