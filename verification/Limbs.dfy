/** 64-bit limbs: scalar arithmetic with explicit wrap-around, and the number a limb sequence stands for. */
module Limbs {
  import opened Bits

  const BASE: nat := 0x1_0000_0000_0000_0000
  const HALF: nat := 0x1_0000_0000  // 2^32

  type Limb = x: int | 0 <= x < BASE

  /** The 64-bit complement. */
  function Not(x: nat): nat {
    BASE - 1 - x % BASE
  }

  lemma {:induction false} BasePowers()
    ensures Pow(2, 16) == 0x1_0000 && Pow(2, 32) == HALF && Pow(2, 63) == BASE / 2 && Pow(2, 64) == BASE
  {
    assert Pow(2, 4) == 16;
    PowAdd(2, 4, 4);
    PowAdd(2, 8, 8);
    PowAdd(2, 16, 16);
    PowAdd(2, 32, 32);
  }

  // ---------- scalar arithmetic ----------

  /** Product of two 32-bit words; it fits 64 bits. */
  function Emulu(x: nat, y: nat): (r: nat)
    requires x < HALF && y < HALF
    ensures r <= (HALF - 1) * (HALF - 1)
  {
    HalfProductBound(x, y);
    x * y
  }

  lemma HalfProductBound(x: nat, y: nat)
    requires x < HALF && y < HALF
    ensures x * y <= (HALF - 1) * (HALF - 1)
  {
    MulLessEq(x, HALF - 1, y);
  }

  /** 64x64 -> 128 bit product (low word, high word) out of 32-bit halves, every step modulo 2^64. */
  method Umul128Generic(ab: Limb, cd: Limb) returns (lo: Limb, hi: Limb)
    ensures lo + hi * BASE == ab * cd
  {
    var ad := Emulu(ab / HALF, cd % HALF);
    var bd := Emulu(ab % HALF, cd % HALF);
    var adbc := (ad + Emulu(ab % HALF, cd / HALF)) % BASE;
    var adbcCarry := if adbc < ad then 1 else 0;
    lo := (bd + adbc * HALF % BASE) % BASE;
    var high := Emulu(ab / HALF, cd / HALF) + adbc / HALF + adbcCarry * HALF + (if lo < bd then 1 else 0);
    SplitProduct(ab, cd);
    ProductBound(ab, cd);
    CarryChain(ab * cd, ad, bd, Emulu(ab % HALF, cd / HALF), Emulu(ab / HALF, cd / HALF), adbc, lo, high);
    hi := high % BASE;
    assert lo + hi * BASE == ab * cd;
  }

  lemma ProductBound(x: Limb, y: Limb)
    ensures x * y <= (BASE - 1) * (BASE - 1)
  {
    MulLessEq(x, BASE - 1, y);
  }

  /** Neither of the two wrapped sums loses its carry. */
  lemma CarryChain(product: nat, ad: nat, bd: nat, bc: nat, ac: nat, adbc: nat, lo: nat, hi: nat)
    requires product == ac * BASE + (ad + bc) * HALF + bd <= (BASE - 1) * (BASE - 1)
    requires ad <= (HALF - 1) * (HALF - 1) && bd <= (HALF - 1) * (HALF - 1) && bc <= (HALF - 1) * (HALF - 1)
    requires adbc == (ad + bc) % BASE
    requires lo == (bd + adbc * HALF % BASE) % BASE
    requires hi == ac + adbc / HALF + (if adbc < ad then HALF else 0) + (if lo < bd then 1 else 0)
    ensures hi % BASE == hi && lo + hi * BASE == product
  {
    assert adbc + (if adbc < ad then BASE else 0) == ad + bc;
    assert adbc * HALF % BASE == (adbc % HALF) * HALF;
    assert lo + (if lo < bd then BASE else 0) == bd + (adbc % HALF) * HALF;
  }

  lemma {:induction false} SplitProduct(ab: Limb, cd: Limb)
    ensures ab * cd == Emulu(ab / HALF, cd / HALF) * BASE
                     + (Emulu(ab / HALF, cd % HALF) + Emulu(ab % HALF, cd / HALF)) * HALF
                     + Emulu(ab % HALF, cd % HALF)
  {
    var a, b, c, d := ab / HALF, ab % HALF, cd / HALF, cd % HALF;
    assert ab == a * HALF + b && cd == c * HALF + d;
    Expand(a, b, c, d);
  }

  lemma Expand(a: int, b: int, c: int, d: int)
    ensures (a * HALF + b) * (c * HALF + d) == a * c * BASE + (a * d + b * c) * HALF + b * d
  {}

  lemma HighWordFits(x: Limb, y: Limb, carry: Limb, low: Limb, high: nat)
    requires low + high * BASE == x * y + carry
    ensures high < BASE
  {
    ProductBound(x, y);
  }

  /** The wrapped sum and whether it wrapped. */
  method ScalarAdd(x: Limb, y: Limb) returns (z: Limb, overflow: bool)
    ensures z + (if overflow then BASE else 0) == x + y
  {
    z := (x + y) % BASE;
    overflow := z < x;
  }

  /** Low word of x * y + carry, and the word carried out; neither addition loses a carry. */
  method ScalarMul(x: Limb, y: Limb, carry: Limb) returns (z: Limb, carry': Limb)
    ensures z + carry' * BASE == x * y + carry
    ensures x != 0 && y != 0 && carry' == 0 ==> z != 0
  {
    var low, high := Umul128Generic(x, y);
    var overflow;
    z, overflow := ScalarAdd(low, carry);
    var sum := high as int + if overflow then 1 else 0;
    assert z + sum * BASE == x * y + carry;
    HighWordFits(x, y, carry, z, sum);
    LowWordNonzero(x, y, carry, z, sum);
    carry' := sum;
  }

  lemma LowWordNonzero(x: Limb, y: Limb, carry: Limb, z: int, c: int)
    requires z + c * BASE == x * y + carry
    ensures x != 0 && y != 0 && c == 0 ==> z != 0
  {
    if x != 0 && y != 0 { MulLessEq(1, x, y); }
  }

  /** The mask of the upper k bits of a 2k-bit window. */
  function UpperMask(k: nat): nat {
    Shl(Pow(2, k) - 1, k)
  }

  /** In a 2k-bit window, testing the upper k bits and dropping the lower k loses no count. */
  lemma {:induction false} Narrow(x: nat, k: nat)
    requires k >= 1 && 0 < x < Pow(2, k + k)
    ensures And(x, UpperMask(k)) != 0 ==> 0 < Shr(x, k) < Pow(2, k) && BitLength(x) == k + BitLength(Shr(x, k))
    ensures And(x, UpperMask(k)) == 0 ==> x < Pow(2, k)
  {
    hide And, Shl, Shr, LowBits, BitLength, Pow;
    var h, l := Shr(x, k), LowBits(x, k);
    ShrLow(x, k);
    ShrBound(x, k, k);
    MaskHigh(h, l, k);
    if h > 0 {
      BitLengthAppend(h, k, l);
      ShlLonger(h, 0, k);
      ShlNone(h);
    } else {
      ShlZero(k);
    }
  }

  lemma {:induction false} MaskHigh(h: nat, l: nat, k: nat)
    requires h < Pow(2, k) && l < Pow(2, k)
    ensures And(Shl(h, k) + l, UpperMask(k)) == Shl(h, k)
  {
    var m := Pow(2, k) - 1;
    AndShl(h, l, m, 0, k);
    assert And(l, 0) == 0;
    AndLowMask(h, k);
    ShrUnique(0, h, k);
    ShlZero(k);
  }

  /** One line of the count: when a bit of the upper half is set, move it down and count the half. */
  method CountHalf(x: nat, k: nat, lastBit: nat) returns (x': nat, lastBit': nat)
    requires k >= 1 && 0 < x < Pow(2, k + k)
    ensures 0 < x' < Pow(2, k)
    ensures BitLength(x') + lastBit' == BitLength(x) + lastBit
  {
    x', lastBit' := x, lastBit;
    Narrow(x, k);
    if And(x, UpperMask(k)) != 0 {
      x' := Shr(x, k);
      lastBit' := lastBit + k;  // the bit k of the count is still clear: `|= k` adds
    }
  }

  /** Number of zero bits above the highest set bit. */
  method LeadingZeroesGeneric(input: Limb) returns (n: nat)
    requires input > 0
    ensures n == 64 - BitLength(input)
  {
    assert input < Pow(2, 64) by { BasePowers(); }
    var num, lastBit := CountHalf(input, 32, 0);
    num, lastBit := CountHalf(num, 16, lastBit);
    num, lastBit := CountHalf(num, 8, lastBit);
    num, lastBit := CountHalf(num, 4, lastBit);
    num, lastBit := CountHalf(num, 2, lastBit);
    num, lastBit := CountHalf(num, 1, lastBit);
    BitLengthOne(num);
    BitLengthAtMost(input, 64);
    n := 63 - lastBit;
  }

  lemma {:induction false} BitLengthOne(x: nat)
    requires 0 < x < Pow(2, 1)
    ensures BitLength(x) == 1
  {
    assert Pow(2, 1) == 2 * Pow(2, 0);
    assert BitLength(1) == 1 + BitLength(0);
  }

  // ---------- limb sequences ----------

  /** The natural number a little-endian limb sequence stands for. */
  function Value(s: seq<Limb>): nat {
    if |s| == 0 then 0 else s[0] + BASE * Value(s[1..])
  }

  predicate Normalized(s: seq<Limb>) {
    |s| > 0 ==> s[|s| - 1] != 0
  }

  /** `v` moved up by `n` limbs: v * BASE^n, one limb at a time, which keeps the proofs below linear. */
  function Up(v: nat, n: nat): nat {
    if n == 0 then v else BASE * Up(v, n - 1)
  }

  lemma {:induction false} UpIsShift(v: nat, n: nat)
    ensures Up(v, n) == Shl(v, 64 * n)
  {
    if n > 0 {
      UpIsShift(v, n - 1);
      ShlShl(v, 64 * (n - 1), 64);
      ShlLimb(Shl(v, 64 * (n - 1)));
    }
  }

  lemma {:induction false} ShlLimb(v: nat)
    ensures Shl(v, 64) == BASE * v
  {
    ShlIsPow(v, 64);
    BasePowers();
  }

  lemma {:induction false} UpAdd(v: nat, w: nat, n: nat)
    ensures Up(v + w, n) == Up(v, n) + Up(w, n)
  {
    if n > 0 { UpAdd(v, w, n - 1); }
  }

  lemma {:induction false} UpNone(v: nat)
    ensures Up(v, 0) == v
  {}

  lemma {:induction false} UpZero(n: nat)
    ensures Up(0, n) == 0
  {
    if n > 0 { UpZero(n - 1); }
  }

  lemma {:induction false} UpUp(v: nat, m: nat, n: nat)
    ensures Up(Up(v, m), n) == Up(v, m + n)
  {
    if n > 0 { UpUp(v, m, n - 1); }
  }

  lemma {:induction false} UpMonotone(v: nat, w: nat, n: nat)
    ensures v <= w <==> Up(v, n) <= Up(w, n)
  {
    if n > 0 { UpMonotone(v, w, n - 1); }
  }

  lemma {:induction false} UpLonger(v: nat, m: nat, n: nat)
    requires m <= n
    ensures Up(v, m) <= Up(v, n)
  {
    if m < n { UpLonger(v, m, n - 1); }
  }

  lemma {:induction false} UpTimes(v: nat, y: nat, n: nat)
    ensures Up(v * y, n) == Up(v, n) * y
  {
    if n > 0 {
      UpTimes(v, y, n - 1);
      MulAssoc(BASE, Up(v, n - 1), y);
    }
  }

  lemma {:induction false} ValueConcat(s: seq<Limb>, t: seq<Limb>)
    ensures Value(s + t) == Value(s) + Up(Value(t), |s|)
  {
    if |s| == 0 {
      assert s + t == t;
    } else {
      assert (s + t)[1..] == s[1..] + t;
      ValueConcat(s[1..], t);
    }
  }

  lemma {:induction false} ValueSnoc(s: seq<Limb>, z: Limb)
    ensures Value(s + [z]) == Value(s) + Up(z, |s|)
  {
    ValueConcat(s, [z]);
    assert Value([z]) == z + BASE * Value([]);
  }

  lemma {:induction false} ValueOne(z: Limb)
    ensures Value([z]) == z
  {
    assert [z][1..] == [];
  }

  lemma {:induction false} ValueSplit(s: seq<Limb>, i: nat)
    requires i <= |s|
    ensures Value(s) == Value(s[..i]) + Up(Value(s[i..]), i)
  {
    assert s == s[..i] + s[i..];
    ValueConcat(s[..i], s[i..]);
  }

  lemma {:induction false} ValueBound(s: seq<Limb>)
    ensures Value(s) < Up(1, |s|)
  {
    if |s| > 0 { ValueBound(s[1..]); }
  }

  /** A normalized number with n limbs is at least BASE^(n-1). */
  lemma {:induction false} NormalizedLower(s: seq<Limb>)
    requires |s| > 0 && Normalized(s)
    ensures Value(s) >= Up(1, |s| - 1)
  {
    var k := |s| - 1;
    assert s == s[..k] + [s[k]];
    ValueSnoc(s[..k], s[k]);
    UpMonotone(1, s[k], k);
  }

  lemma {:induction false} ValueZeros(s: seq<Limb>)
    requires forall i :: 0 <= i < |s| ==> s[i] == 0
    ensures Value(s) == 0
  {
    if |s| > 0 { ValueZeros(s[1..]); }
  }

  lemma {:induction false} ValueNonzero(s: seq<Limb>, i: nat)
    requires i < |s| && s[i] != 0
    ensures Value(s) > 0
  {
    if i > 0 { ValueNonzero(s[1..], i - 1); }
  }

}
