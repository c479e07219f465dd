/** Decimal text: bytes, digits and the numbers digit strings stand for. */
module Decimal {
  import opened Bits

  type byte = x: int | 0 <= x < 256

  const ZERO: byte := 48
  const NINE: byte := 57

  predicate IsInteger(c: byte) {
    !(c > NINE || c < ZERO)
  }

  function Digit(c: byte): (d: nat)
    ensures d <= 9
  {
    if IsInteger(c) then c - ZERO else 0
  }

  predicate AllDigits(s: seq<byte>) {
    forall i :: 0 <= i < |s| ==> IsInteger(s[i])
  }

  /** The number a digit string stands for. */
  function Dec(s: seq<byte>): nat {
    if |s| == 0 then 0 else 10 * Dec(s[..|s| - 1]) + Digit(s[|s| - 1])
  }

  lemma DecEmpty()
    ensures Dec([]) == 0
  {}

  lemma {:induction false} DecSnoc(s: seq<byte>, c: byte)
    ensures Dec(s + [c]) == 10 * Dec(s) + Digit(c)
  {
    assert (s + [c])[..|s|] == s;
  }

  /** Shifting by decimal places: v * 10^n, one place at a time. */
  function Tens(v: nat, n: nat): (r: nat)
    ensures r >= v
  {
    if n == 0 then v else 10 * Tens(v, n - 1)
  }

  lemma {:induction false} TensIsPow(v: nat, n: nat)
    ensures Tens(v, n) == v * Pow(10, n)
  {
    if n > 0 {
      TensIsPow(v, n - 1);
      MulAssoc(v, 10, Pow(10, n - 1));
      MulAssoc(10, v, Pow(10, n - 1));
    }
  }

  lemma {:induction false} TensOne(n: nat)
    ensures Tens(1, n) == Pow(10, n)
  {
    if n > 0 { TensOne(n - 1); }
  }

  lemma {:induction false} TensZero(n: nat)
    ensures Tens(0, n) == 0
  {
    if n > 0 { TensZero(n - 1); }
  }

  lemma {:induction false} TensAdd(v: nat, w: nat, n: nat)
    ensures Tens(v + w, n) == Tens(v, n) + Tens(w, n)
  {
    if n > 0 { TensAdd(v, w, n - 1); }
  }

  lemma {:induction false} TensTens(v: nat, m: nat, n: nat)
    ensures Tens(Tens(v, m), n) == Tens(v, m + n)
  {
    if n > 0 { TensTens(v, m, n - 1); }
  }

  lemma {:induction false} TensMonotone(v: nat, w: nat, n: nat)
    ensures v <= w <==> Tens(v, n) <= Tens(w, n)
  {
    if n > 0 { TensMonotone(v, w, n - 1); }
  }

  lemma {:induction false} DecConcat(s: seq<byte>, t: seq<byte>)
    ensures Dec(s + t) == Tens(Dec(s), |t|) + Dec(t)
  {
    if |t| == 0 {
      assert s + t == s;
    } else {
      var t' := t[..|t| - 1];
      assert (s + t)[..|s + t| - 1] == s + t';
      DecConcat(s, t');
    }
  }

  lemma {:induction false} DecBound(s: seq<byte>)
    ensures Dec(s) < Tens(1, |s|)
  {
    if |s| > 0 { DecBound(s[..|s| - 1]); }
  }

  /** Leading zeros do not count. */
  function LeadingZeros(s: seq<byte>): (n: nat)
    ensures n <= |s|
    ensures forall i :: 0 <= i < n ==> s[i] == ZERO
    ensures n < |s| ==> s[n] != ZERO
  {
    if |s| == 0 || s[0] != ZERO then 0 else 1 + LeadingZeros(s[1..])
  }

  function Significant(s: seq<byte>): seq<byte> {
    s[LeadingZeros(s)..]
  }

  lemma {:induction false} DecZeros(s: seq<byte>)
    requires forall i :: 0 <= i < |s| ==> s[i] == ZERO
    ensures Dec(s) == 0
  {
    if |s| > 0 { DecZeros(s[..|s| - 1]); }
  }

  lemma {:induction false} SignificantDec(s: seq<byte>)
    ensures Dec(Significant(s)) == Dec(s)
  {
    var n := LeadingZeros(s);
    assert s == s[..n] + s[n..];
    DecConcat(s[..n], s[n..]);
    DecZeros(s[..n]);
    TensZero(|s| - n);
  }

  /** Digits beginning with a nonzero one are as large as their number of places. */
  lemma {:induction false} DecLower(s: seq<byte>)
    requires |s| > 0 && AllDigits(s) && s[0] != ZERO
    ensures Dec(s) >= Tens(1, |s| - 1)
  {
    assert s == [s[0]] + s[1..];
    DecConcat([s[0]], s[1..]);
    DecSnoc([], s[0]);
    assert [] + [s[0]] == [s[0]];
    TensMonotone(1, Digit(s[0]), |s| - 1);
  }

  /** A cut digit string brackets the whole: the prefix's value, up to one more in its last place. */
  lemma {:induction false} PrefixBrackets(s: seq<byte>, c: nat)
    requires c <= |s|
    ensures Tens(Dec(s[..c]), |s| - c) <= Dec(s) < Tens(Dec(s[..c]) + 1, |s| - c)
    ensures Dec(s) == Tens(Dec(s[..c]), |s| - c) + Dec(s[c..])
  {
    assert s == s[..c] + s[c..];
    DecConcat(s[..c], s[c..]);
    DecBound(s[c..]);
    TensAdd(Dec(s[..c]), 1, |s| - c);
  }

  /** A digit string is worth nothing exactly when it is all zeros. */
  lemma {:induction false} DecPositive(s: seq<byte>)
    requires AllDigits(s)
    ensures Dec(s) == 0 <==> LeadingZeros(s) == |s|
  {
    SignificantDec(s);
    var t := Significant(s);
    if |t| > 0 {
      DecLower(t);
    }
  }
}
