/** Reading the significant digits of a scanned number into a big integer. */
module MantissaParser {
  import opened Bits
  import opened Limbs
  import opened Decimal
  import opened Swar
  import opened BigInts
  import opened NumberScanner

  const STEP: nat := 19

  const POWERS_OF_TEN_UINT64: seq<Limb> := [
    1, 10, 100, 1000, 10000, 100000, 1000000, 10000000, 100000000,
    1000000000, 10000000000, 100000000000, 1000000000000, 10000000000000,
    100000000000000, 1000000000000000, 10000000000000000, 100000000000000000,
    1000000000000000000, 10000000000000000000
  ]

  lemma {:induction false} TenTable(i: nat)
    requires i < |POWERS_OF_TEN_UINT64|
    ensures POWERS_OF_TEN_UINT64[i] == Tens(1, i) > 0
  {
    if i > 0 { TenTable(i - 1); }
  }

  // ---------- zeros, eight at a time ----------

  const EIGHT_ZEROS: nat := 0x3030303030303030

  predicate AllZeros(s: seq<byte>) {
    forall i :: 0 <= i < |s| ==> s[i] == ZERO
  }

  lemma {:induction false} ZeroLanes(s: seq<byte>)
    ensures Lanes(s) == Repeat(ZERO, |s|) <==> AllZeros(s)
  {
    if |s| > 0 {
      ZeroLanes(s[1..]);
      assert AllZeros(s) <==> s[0] == ZERO && AllZeros(s[1..]) by {
        if s[0] == ZERO && AllZeros(s[1..]) { assert s == [s[0]] + s[1..]; }
      }
    }
  }

  lemma {:induction false} EightZeroLanes(s: seq<byte>)
    requires |s| == 8
    ensures Read8(s) == EIGHT_ZEROS <==> AllZeros(s)
  {
    ZeroLanes(s);
    assert Repeat(ZERO, 8) == EIGHT_ZEROS;
  }

  method SkipZeros(text: seq<byte>) returns (first: nat)
    ensures first == LeadingZeros(text)
  {
    hide LeadingZeros, Lanes;
    first := 0;
    while |text| - first >= 8
      invariant first <= |text| && AllZeros(text[..first])
    {
      EightZeroLanes(text[first..first + 8]);
      if Read8(text[first..first + 8]) != EIGHT_ZEROS {
        break;
      }
      assert text[..first + 8] == text[..first] + text[first..first + 8];
      first := first + 8;
    }
    while first != |text|
      invariant first <= |text| && AllZeros(text[..first])
    {
      if text[first] != ZERO {
        break;
      }
      assert text[..first + 1] == text[..first] + [text[first]];
      first := first + 1;
    }
    forall k | 0 <= k < first ensures text[k] == ZERO { assert text[..first][k] == ZERO; }
    LeadingZerosUnique(text, first);
  }

  /** Whether a digit that is not zero would be lost. */
  method IsTruncated(text: seq<byte>) returns (truncated: bool)
    ensures truncated <==> !AllZeros(text)
  {
    hide Lanes;
    var first := 0;
    while |text| - first >= 8
      invariant first <= |text| && AllZeros(text[..first])
    {
      EightZeroLanes(text[first..first + 8]);
      if Read8(text[first..first + 8]) != EIGHT_ZEROS {
        var k :| 0 <= k < 8 && text[first..first + 8][k] != ZERO;
        assert text[first + k] != ZERO;
        return true;
      }
      assert text[..first + 8] == text[..first] + text[first..first + 8];
      first := first + 8;
    }
    while first != |text|
      invariant first <= |text| && AllZeros(text[..first])
    {
      if text[first] != ZERO {
        return true;
      }
      assert text[..first + 1] == text[..first] + [text[first]];
      first := first + 1;
    }
    assert text[..first] == text;
    return false;
  }

  // ---------- batches of up to nineteen digits ----------

  lemma {:induction false} SmallValue(s: seq<byte>)
    requires |s| <= STEP
    ensures Dec(s) < Tens(1, |s|) <= 10000000000000000000
  {
    hide Tens, Dec;
    DecBound(s);
    TenTable(19);
    TensTens(1, |s|, 19 - |s|);
  }

  /** One batch: eight digits while they fit, then one by one. */
  method ParseBatch(text: seq<byte>, p0: nat, maxDigits: nat, digits0: nat)
    returns (p: nat, value: Limb, counter: nat, digits: nat)
    requires p0 <= |text| && AllDigits(text) && digits0 <= maxDigits
    ensures p0 <= p <= |text| && counter == p - p0 <= STEP
    ensures digits == digits0 + counter <= maxDigits
    ensures value == Dec(text[p0..p])
    ensures p0 < |text| && digits0 < maxDigits ==> counter > 0
    ensures counter == STEP || p == |text| || digits == maxDigits
  {
    hide Dec, Tens, ParseEightDigitsUnrolled;
    p, value, counter, digits := p0, 0, 0, digits0;
    DecEmpty();
    assert text[p0..p] == [];
    while |text| - p >= 8 && STEP - counter >= 8 && maxDigits - digits >= 8
      invariant p0 <= p <= |text| && counter == p - p0 <= STEP
      invariant digits == digits0 + counter <= maxDigits
      invariant value == Dec(text[p0..p])
    {
      ghost var chunk := text[p..p + 8];
      EightDigitsValue(chunk);
      assert text[p0..p + 8] == text[p0..p] + chunk;
      DecConcat(text[p0..p], chunk);
      EightTens(Dec(text[p0..p]));
      SmallValue(text[p0..p + 8]);
      value := value * 100000000 + ParseEightDigitsUnrolled(Read8(text[p..p + 8]));
      p, counter, digits := p + 8, counter + 8, digits + 8;
    }
    while counter < STEP && p != |text| && digits < maxDigits
      invariant p0 <= p <= |text| && counter == p - p0 <= STEP
      invariant digits == digits0 + counter <= maxDigits
      invariant value == Dec(text[p0..p])
    {
      assert text[p0..p + 1] == text[p0..p] + [text[p]];
      DecSnoc(text[p0..p], text[p]);
      SmallValue(text[p0..p + 1]);
      value := value * 10 + (text[p] - ZERO);
      p, counter, digits := p + 1, counter + 1, digits + 1;
    }
  }

  /** Feed the digits from `p0` on into the big integer, until the text ends or `maxDigits` are taken. */
  method ParseRun(result: BigInt, text: seq<byte>, p0: nat, maxDigits: nat, digits0: nat) returns (p: nat, digits: nat)
    requires result.Valid() && Normalized(result.Vec())
    requires p0 <= |text| && AllDigits(text) && digits0 < maxDigits
    requires result.Num() < Tens(1, digits0) && Tens(1, maxDigits) <= result.Limit()
    modifies result`length, result.data
    ensures result.Valid() && Normalized(result.Vec())
    ensures p0 <= p <= |text| && digits == digits0 + (p - p0) <= maxDigits
    ensures p == |text| || digits == maxDigits
    ensures result.Num() == Tens(old(result.Num()), p - p0) + Dec(text[p0..p])
    ensures result.Num() < Tens(1, digits)
  {
    hide Dec, Tens, Value, Up;
    p, digits := p0, digits0;
    ghost var start := result.Num();
    DecEmpty();
    TensNone(start);
    assert text[p0..p] == [];
    while p != |text|
      invariant result.Valid() && Normalized(result.Vec())
      invariant p0 <= p <= |text| && digits == digits0 + (p - p0) <= maxDigits
      invariant result.Num() == Tens(start, p - p0) + Dec(text[p0..p])
      invariant result.Num() < Tens(1, digits)
      invariant digits < maxDigits || p == |text|
    {
      ghost var was, q := result.Num(), p;
      var value, counter;
      p, value, counter, digits := ParseBatch(text, p, maxDigits, digits);
      BatchAppends(text, start, p0, q, p);
      BatchFits(was, value, counter, digits - counter, maxDigits, text[q..p]);
      result.AddNative(POWERS_OF_TEN_UINT64[counter], value);
      if digits == maxDigits {
        return;
      }
    }
  }

  lemma {:induction false} BatchAppends(text: seq<byte>, start: nat, p0: nat, q: nat, p: nat)
    requires p0 <= q <= p <= |text|
    ensures Tens(Tens(start, q - p0) + Dec(text[p0..q]), p - q) + Dec(text[q..p]) == Tens(start, p - p0) + Dec(text[p0..p])
  {
    hide Dec, Tens;
    assert text[p0..p] == text[p0..q] + text[q..p];
    DecConcat(text[p0..q], text[q..p]);
    TensAdd(Tens(start, q - p0), Dec(text[p0..q]), p - q);
    TensTens(start, q - p0, p - q);
  }

  lemma {:induction false} BatchFits(was: nat, value: nat, counter: nat, digits: nat, maxDigits: nat, s: seq<byte>)
    requires was < Tens(1, digits) && counter == |s| <= STEP && value == Dec(s) && digits + counter <= maxDigits
    ensures POWERS_OF_TEN_UINT64[counter] > 0
    ensures was * POWERS_OF_TEN_UINT64[counter] + value == Tens(was, counter) + Dec(s)
    ensures was * POWERS_OF_TEN_UINT64[counter] + value < Tens(1, digits + counter) <= Tens(1, maxDigits)
  {
    hide Dec, Tens;
    TenTable(counter);
    TensIsPow(was, counter);
    TensOne(counter);
    DecBound(s);
    TensAdd(was, 1, counter);
    TensMonotone(was + 1, Tens(1, digits), counter);
    TensTens(1, digits, counter);
    TensTens(1, digits + counter, maxDigits - digits - counter);
  }

  // ---------- the whole mantissa ----------

  /** How many digits the big integer ends up with: all, the first `maxDigits`, or one more that marks a lost rest. */
  function KeptDigits(s: seq<byte>, maxDigits: nat): nat {
    if |s| <= maxDigits then |s|
    else if AllZeros(s[maxDigits..]) then maxDigits
    else maxDigits + 1
  }

  /** The number those digits make. */
  function KeptValue(s: seq<byte>, maxDigits: nat): nat {
    if |s| <= maxDigits then Dec(s)
    else if AllZeros(s[maxDigits..]) then Dec(s[..maxDigits])
    else 10 * Dec(s[..maxDigits]) + 1
  }

  ghost predicate Parsable(result: BigInt, num: ParsedNumber, maxDigits: nat)
    reads result
  {
    && result.Valid() && maxDigits > 0
    && AllDigits(num.integer) && AllDigits(num.fraction) && (!num.hasFraction ==> num.fraction == [])
    && Tens(1, maxDigits + 1) <= result.Limit()
  }

  method ParseMantissa(result: BigInt, num: ParsedNumber, maxDigits: nat) returns (digits: nat)
    requires Parsable(result, num, maxDigits) && result.Vec() == []
    modifies result`length, result.data
    ensures result.Valid() && Normalized(result.Vec())
    ensures digits == KeptDigits(Significant(num.Digits()), maxDigits)
    ensures result.Num() == KeptValue(Significant(num.Digits()), maxDigits)
  {
    hide Dec, Tens, Value, Up, LeadingZeros;
    var done;
    digits, done := ParseIntegerDigits(result, num, maxDigits);
    if done {
      return;
    }
    if num.hasFraction {
      digits := ParseFractionDigits(result, num, maxDigits, digits);
    } else {
      LeadingOfConcat(num.integer, num.fraction);
      assert num.integer + num.fraction == num.integer;
    }
  }

  /** The integer digits; done when they are already as many as can be kept. */
  method ParseIntegerDigits(result: BigInt, num: ParsedNumber, maxDigits: nat) returns (digits: nat, done: bool)
    requires Parsable(result, num, maxDigits) && result.Vec() == []
    modifies result`length, result.data
    ensures result.Valid() && Normalized(result.Vec())
    ensures done ==> digits == KeptDigits(Significant(num.Digits()), maxDigits)
    ensures done ==> result.Num() == KeptValue(Significant(num.Digits()), maxDigits)
    ensures !done ==> digits == |Significant(num.integer)| < maxDigits
    ensures !done ==> result.Num() == Dec(Significant(num.integer)) < Tens(1, digits)
  {
    hide Dec, Tens, Value, Up, LeadingZeros, Significant, KeptDigits, KeptValue, Normalized;
    ghost var s, t := Significant(num.Digits()), Significant(num.integer);
    NothingYet();
    RoomForDigits(maxDigits);
    var p := SkipZeros(num.integer);
    ghost var z := p;
    LeadingZerosBound(num.integer);
    p, digits := ParseRun(result, num.integer, p, maxDigits, 0);
    TensZero(p - z);
    IntegerTaken(num.integer, num.fraction, z, p);
    done := digits == maxDigits;
    if done {
      var truncated := IsTruncated(num.integer[p..]);
      if num.hasFraction {
        var more := IsTruncated(num.fraction);
        truncated := truncated || more;
      }
      ZerosConcat(num.integer[p..], num.fraction);
      digits := RoundUp(result, truncated, digits, s, maxDigits);
    }
  }

  lemma NothingYet()
    ensures Value([]) == 0 && Normalized([])
  {}

  /** Having read the integer's significant digits up to `p`. */
  lemma {:induction false} IntegerTaken(i: seq<byte>, f: seq<byte>, z: nat, p: nat)
    requires z == LeadingZeros(i) <= p <= |i|
    ensures var s, t, n := Significant(i + f), Significant(i), p - z;
            && (n > 0 ==> n <= |s| && s[n..] == i[p..] + f && s[..n] == i[z..p])
            && n <= |t| && i[z..p] == t[..n] && (p == |i| ==> t == i[z..p])
  {
    hide LeadingZeros;
    LeadingOfConcat(i, f);
    if p > z {
      assert (i + f)[z..] == i[z..] + f;
    }
  }

  /** Zeros leading the fraction are skipped only when the integer part has nothing else. */
  method FractionStart(num: ParsedNumber, digits: nat) returns (p: nat)
    ensures p == (if digits == 0 then LeadingZeros(num.fraction) else 0) <= |num.fraction|
  {
    LeadingZerosBound(num.fraction);
    p := 0;
    if digits == 0 {
      p := SkipZeros(num.fraction);
    }
  }

  method ParseFractionDigits(result: BigInt, num: ParsedNumber, maxDigits: nat, digits0: nat) returns (digits: nat)
    requires Parsable(result, num, maxDigits) && Normalized(result.Vec())
    requires digits0 == |Significant(num.integer)| < maxDigits
    requires result.Num() == Dec(Significant(num.integer)) < Tens(1, digits0)
    modifies result`length, result.data
    ensures result.Valid() && Normalized(result.Vec())
    ensures digits == KeptDigits(Significant(num.Digits()), maxDigits)
    ensures result.Num() == KeptValue(Significant(num.Digits()), maxDigits)
  {
    hide Dec, Tens, Value, Up, LeadingZeros, Significant, KeptDigits, KeptValue;
    ghost var s, t := Significant(num.Digits()), Significant(num.integer);
    RoomForDigits(maxDigits);
    var p := FractionStart(num, digits0);
    ghost var q := p;
    p, digits := ParseRun(result, num.fraction, p, maxDigits, digits0);
    FractionTaken(num.integer, num.fraction, q, p);
    assert digits == |t| + (p - q);
    if digits == maxDigits {
      var truncated := IsTruncated(num.fraction[p..]);
      digits := RoundUp(result, truncated, digits, s, maxDigits);
    } else {
      AllKept(s, digits, maxDigits);
    }
  }

  lemma AllKept(s: seq<byte>, digits: nat, maxDigits: nat)
    requires digits == |s| <= maxDigits
    ensures KeptDigits(s, maxDigits) == digits && KeptValue(s, maxDigits) == Dec(s[..digits])
  {
    assert s[..digits] == s;
  }

  /** Having read the integer's significant digits and the fraction's up to `p`. */
  lemma {:induction false} FractionTaken(i: seq<byte>, f: seq<byte>, q: nat, p: nat)
    requires q == (if |Significant(i)| == 0 then LeadingZeros(f) else 0) <= p <= |f|
    ensures var s, n := Significant(i + f), |Significant(i)| + (p - q);
            && n <= |s| && s[n..] == f[p..] && (p == |f| ==> n == |s|)
            && Dec(s[..n]) == Tens(Dec(Significant(i)), p - q) + Dec(f[q..p])
  {
    hide Dec, Tens, LeadingZeros;
    LeadingZerosBound(i);
    var z := LeadingZeros(i);
    SignificantSplit(i, f, z, q);
    TakeConcat(i[z..], f[q..], p - q);
    assert f[q..][..p - q] == f[q..p] && f[q..][p - q..] == f[p..];
    DecConcat(i[z..], f[q..p]);
  }

  lemma TakeConcat(s: seq<byte>, t: seq<byte>, n: nat)
    requires n <= |t|
    ensures (s + t)[..|s| + n] == s + t[..n] && (s + t)[|s| + n..] == t[n..]
  {}

  lemma {:induction false} RoomForDigits(maxDigits: nat)
    ensures Tens(1, maxDigits) <= Tens(1, maxDigits + 1)
    ensures Tens(1, 0) == 1
  {}

  /** Instead of rounding ...9999 up, append a digit 1, which no halfway point can have there. */
  method RoundUp(result: BigInt, truncated: bool, digits0: nat, ghost s: seq<byte>, maxDigits: nat) returns (digits: nat)
    requires result.Valid() && Normalized(result.Vec()) && digits0 == maxDigits <= |s|
    requires result.Num() == Dec(s[..maxDigits]) && truncated == !AllZeros(s[maxDigits..])
    requires Tens(1, maxDigits + 1) <= result.Limit()
    modifies result`length, result.data
    ensures result.Valid() && Normalized(result.Vec())
    ensures digits == KeptDigits(s, maxDigits)
    ensures result.Num() == KeptValue(s, maxDigits)
  {
    hide Dec, Tens, Value, Up;
    digits := digits0;
    DecBound(s[..maxDigits]);
    TensTens(1, maxDigits, 1);
    TensFirst(Tens(1, maxDigits));
    if truncated {
      result.AddNative(10, 1);
      digits := digits + 1;
    } else if |s| == maxDigits {
      assert s[..maxDigits] == s;
    }
  }

  lemma {:induction false} LeadingZerosBound(s: seq<byte>)
    ensures LeadingZeros(s) <= |s|
  {}

  lemma {:induction false} ZerosConcat(s: seq<byte>, t: seq<byte>)
    ensures AllZeros(s + t) <==> AllZeros(s) && AllZeros(t)
  {
    if AllZeros(s + t) {
      forall i | 0 <= i < |s| ensures s[i] == ZERO { assert (s + t)[i] == ZERO; }
      forall i | 0 <= i < |t| ensures t[i] == ZERO { assert (s + t)[|s| + i] == ZERO; }
    }
  }

  lemma {:induction false} LeadingOfConcat(s: seq<byte>, t: seq<byte>)
    ensures LeadingZeros(s + t) == if LeadingZeros(s) < |s| then LeadingZeros(s) else |s| + LeadingZeros(t)
  {
    var z := LeadingZeros(s);
    LeadingZerosUnique(s + t, if z < |s| then z else |s| + LeadingZeros(t));
  }

  /** Leading zeros are skipped in the fraction just when the integer part has nothing else. */
  lemma {:induction false} SignificantSplit(s: seq<byte>, t: seq<byte>, z: nat, q: nat)
    requires z == LeadingZeros(s) <= |s| && q == (if z == |s| then LeadingZeros(t) else 0) <= |t|
    ensures Significant(s + t) == s[z..] + t[q..]
  {
    LeadingOfConcat(s, t);
    LeadingZerosBound(s);
    LeadingZerosBound(t);
  }

  // ---------- the scientific exponent ----------

  /** The exponent of the leading digit: divide by 10000, 100 and 10 while possible. */
  method ScientificExponent(num: ParsedNumber) returns (exponent: int)
    ensures exponent >= num.exponent
    ensures num.mantissa > 0 ==>
              Tens(1, exponent - num.exponent) <= num.mantissa < Tens(1, exponent - num.exponent + 1)
  {
    hide Tens;
    var mantissa := num.mantissa;
    exponent := num.exponent;
    TensNone(mantissa);
    TensNone(mantissa + 1);
    while mantissa >= 10000
      invariant Digited(num, mantissa, exponent)
    {
      DropPlaces(num, mantissa, exponent, 4, 10000);
      mantissa := mantissa / 10000;
      exponent := exponent + 4;
    }
    while mantissa >= 100
      invariant Digited(num, mantissa, exponent)
    {
      DropPlaces(num, mantissa, exponent, 2, 100);
      mantissa := mantissa / 100;
      exponent := exponent + 2;
    }
    while mantissa >= 10
      invariant Digited(num, mantissa, exponent)
    {
      DropPlaces(num, mantissa, exponent, 1, 10);
      mantissa := mantissa / 10;
      exponent := exponent + 1;
    }
    var k := exponent - num.exponent;
    TensMonotone(1, mantissa, k);
    TensMonotone(mantissa + 1, 10, k);
    TensTens(1, 1, k);
    TensFirst(1);
  }

  /** `mantissa` holds the leading digits of the number's mantissa, the rest counted by the exponent. */
  ghost predicate Digited(num: ParsedNumber, mantissa: nat, exponent: int) {
    && exponent >= num.exponent
    && Tens(mantissa, exponent - num.exponent) <= num.mantissa < Tens(mantissa + 1, exponent - num.exponent)
    && (num.mantissa > 0 ==> mantissa > 0)
  }

  lemma {:induction false} DropPlaces(num: ParsedNumber, mantissa: nat, exponent: int, places: nat, power: nat)
    requires Digited(num, mantissa, exponent) && mantissa >= power
    requires (places == 4 && power == 10000) || (places == 2 && power == 100) || (places == 1 && power == 10)
    ensures Digited(num, mantissa / power, exponent + places)
  {
    hide Tens;
    var k, m := exponent - num.exponent, mantissa / power;
    PlacesPower(m, places, power);
    PlacesPower(m + 1, places, power);
    TensTens(m, places, k);
    TensTens(m + 1, places, k);
    TensMonotone(m * power, mantissa, k);
    TensMonotone(mantissa + 1, (m + 1) * power, k);
  }

  lemma {:induction false} PlacesPower(m: nat, places: nat, power: nat)
    requires (places == 4 && power == 10000) || (places == 2 && power == 100) || (places == 1 && power == 10)
    ensures Tens(m, places) == m * power
  {
    TensIsPow(m, places);
    assert Pow(10, 1) == 10 && Pow(10, 2) == 100 && Pow(10, 4) == 10000;
  }
}
