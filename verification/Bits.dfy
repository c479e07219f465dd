/** Powers, bit lengths and the bitwise operators of unsigned words, all on natural numbers. */
module Bits {

  function Pow(b: nat, n: nat): (r: nat)
    ensures b >= 1 ==> r >= 1
  {
    if n == 0 then 1 else b * Pow(b, n - 1)
  }

  lemma {:induction false} PowAdd(b: nat, m: nat, n: nat)
    ensures Pow(b, m + n) == Pow(b, m) * Pow(b, n)
  {
    if m == 0 {
    } else {
      PowAdd(b, m - 1, n);
      MulAssoc(b, Pow(b, m - 1), Pow(b, n));
    }
  }

  lemma MulAssoc(a: int, b: int, c: int)
    ensures a * (b * c) == (a * b) * c
  {}

  lemma {:induction false} PowMul(b: nat, m: nat, n: nat)
    ensures Pow(Pow(b, m), n) == Pow(b, m * n)
  {
    if n == 0 {
    } else {
      PowMul(b, m, n - 1);
      PowAdd(b, m, m * (n - 1));
      assert m + m * (n - 1) == m * n;
    }
  }

  lemma {:induction false} PowDistributes(a: nat, b: nat, n: nat)
    ensures Pow(a * b, n) == Pow(a, n) * Pow(b, n)
  {
    if n == 0 {
    } else {
      PowDistributes(a, b, n - 1);
      var x, y := Pow(a, n - 1), Pow(b, n - 1);
      calc {
        (a * b) * (x * y);
        a * (b * (x * y));
        { MulAssoc(b, x, y); }
        a * ((b * x) * y);
        { assert b * x == x * b; MulAssoc(x, b, y); }
        a * (x * (b * y));
        { MulAssoc(a, x, b * y); }
        (a * x) * (b * y);
      }
    }
  }

  lemma {:induction false} PowMonotone(b: nat, m: nat, n: nat)
    requires b >= 1 && m <= n
    ensures Pow(b, m) <= Pow(b, n)
  {
    if m < n {
      PowMonotone(b, m, n - 1);
      MulAtLeast(b, Pow(b, n - 1));
    }
  }

  lemma MulAtLeast(b: nat, x: nat)
    requires b >= 1
    ensures x <= b * x
  {}

  lemma MulLess(a: nat, b: nat, c: nat)
    requires a < b && c >= 1
    ensures a * c < b * c
  {}

  lemma MulLessEq(a: nat, b: nat, c: nat)
    requires a <= b
    ensures a * c <= b * c
  {}

  lemma MulLessEqLeft(c: nat, a: nat, b: nat)
    requires a <= b
    ensures c * a <= c * b
  {}

  lemma Distribute(a: int, b: int, c: int)
    ensures (a + b) * c == a * c + b * c
    ensures c * (a + b) == c * a + c * b
  {}

  lemma MulStep(a: int, b: int, d: int)
    requires a < b && d > 0
    ensures a * d + d <= b * d
  {
    assert (b - a - 1) * d >= 0;
    assert (b - a - 1) * d == b * d - a * d - d;
  }

  /** `q` and `r` are the quotient and the remainder of `n` by `d` when they look like them. */
  lemma DivModUnique(n: int, d: int, q: int, r: int)
    requires d > 0 && n == q * d + r && 0 <= r < d
    ensures n / d == q && n % d == r
  {
    var q', r' := n / d, n % d;
    assert n == d * q' + r' && 0 <= r' < d;
    assert d * q' == q' * d;
    if q' < q { MulStep(q', q, d); }
    if q < q' { MulStep(q, q', d); }
  }

  lemma DivMod(n: nat, d: nat)
    requires d > 0
    ensures n == n / d * d + n % d
  {}

  lemma ModSmall(n: nat, d: nat)
    requires n < d
    ensures n / d == 0 && n % d == n
  {
    DivModUnique(n, d, 0, n);
  }

  // ---------- shifts: one doubling or halving at a time, which keeps what follows linear ----------

  /** `a` shifted left by `k` bits. */
  function Shl(a: nat, k: nat): (r: nat)
    ensures r >= a
  {
    if k == 0 then a else 2 * Shl(a, k - 1)
  }

  /** `a` shifted right by `k` bits. */
  function Shr(a: nat, k: nat): nat {
    if k == 0 then a else Shr(a / 2, k - 1)
  }

  /** The low `k` bits of `a`. */
  function LowBits(a: nat, k: nat): nat {
    if k == 0 then 0 else a % 2 + 2 * LowBits(a / 2, k - 1)
  }

  lemma {:induction false} ShlIsPow(a: nat, k: nat)
    ensures Shl(a, k) == a * Pow(2, k)
  {
    if k > 0 {
      ShlIsPow(a, k - 1);
      MulAssoc(a, 2, Pow(2, k - 1));
      MulAssoc(2, a, Pow(2, k - 1));
    }
  }

  lemma {:induction false} ShlOne(k: nat)
    ensures Shl(1, k) == Pow(2, k)
  {
    if k > 0 { ShlOne(k - 1); }
  }

  lemma {:induction false} ShlZero(k: nat)
    ensures Shl(0, k) == 0
  {
    if k > 0 { ShlZero(k - 1); }
  }

  lemma ShlNone(a: nat)
    ensures Shl(a, 0) == a
  {}

  lemma {:induction false} ShlAdd(a: nat, b: nat, k: nat)
    ensures Shl(a + b, k) == Shl(a, k) + Shl(b, k)
  {
    if k > 0 { ShlAdd(a, b, k - 1); }
  }

  lemma {:induction false} ShlShl(a: nat, j: nat, k: nat)
    ensures Shl(Shl(a, j), k) == Shl(a, j + k)
  {
    if k > 0 { ShlShl(a, j, k - 1); }
  }

  lemma {:induction false} ShlMonotone(a: nat, b: nat, k: nat)
    ensures a <= b <==> Shl(a, k) <= Shl(b, k)
  {
    if k > 0 { ShlMonotone(a, b, k - 1); }
  }

  lemma {:induction false} ShlLonger(a: nat, j: nat, k: nat)
    requires j <= k
    ensures Shl(a, j) <= Shl(a, k)
  {
    if j < k { ShlLonger(a, j, k - 1); }
  }

  lemma {:induction false} ShlTimes(a: nat, y: nat, k: nat)
    ensures Shl(a * y, k) == Shl(a, k) * y
  {
    if k > 0 {
      ShlTimes(a, y, k - 1);
      MulAssoc(2, Shl(a, k - 1), y);
    }
  }

  /** A number is its upper bits, shifted back, and its low bits. */
  lemma {:induction false} ShrLow(a: nat, k: nat)
    ensures a == Shl(Shr(a, k), k) + LowBits(a, k)
    ensures LowBits(a, k) < Pow(2, k)
  {
    if k > 0 { ShrLow(a / 2, k - 1); }
  }

  lemma {:induction false} ShrUnique(h: nat, l: nat, k: nat)
    requires l < Pow(2, k)
    ensures Shr(Shl(h, k) + l, k) == h
    ensures LowBits(Shl(h, k) + l, k) == l
  {
    if k > 0 { ShrUnique(h, l / 2, k - 1); }
  }

  lemma {:induction false} ShrBound(a: nat, j: nat, k: nat)
    requires a < Pow(2, j + k)
    ensures Shr(a, k) < Pow(2, j)
  {
    if k > 0 { ShrBound(a / 2, j, k - 1); }
  }

  /** The two shifts are multiplication and division by a power of two. */
  lemma {:induction false} ShrIsDiv(a: nat, k: nat)
    ensures Shr(a, k) == a / Pow(2, k)
    ensures LowBits(a, k) == a % Pow(2, k)
  {
    ShrLow(a, k);
    ShlIsPow(Shr(a, k), k);
    DivModUnique(a, Pow(2, k), Shr(a, k), LowBits(a, k));
  }

  // ---------- bit lengths ----------

  /** The number of bits of `v`; zero has none. */
  function BitLength(v: nat): nat {
    if v == 0 then 0 else 1 + BitLength(v / 2)
  }

  lemma {:induction false} BitLengthBounds(v: nat)
    requires v > 0
    ensures BitLength(v) >= 1
    ensures Pow(2, BitLength(v) - 1) <= v < Pow(2, BitLength(v))
  {
    if v == 1 {
      assert BitLength(1) == 1 + BitLength(0);
      assert Pow(2, 1) == 2 * Pow(2, 0);
    } else {
      BitLengthBounds(v / 2);
    }
  }

  lemma {:induction false} BitLengthAtMost(v: nat, n: nat)
    requires v < Pow(2, n)
    ensures BitLength(v) <= n
  {
    if v > 0 {
      BitLengthBounds(v);
      if BitLength(v) > n { PowMonotone(2, n, BitLength(v) - 1); }
    }
  }

  /** Low bits below a shifted number do not change where its highest bit is. */
  lemma {:induction false} BitLengthAppend(v: nat, k: nat, low: nat)
    requires v > 0 && low < Pow(2, k)
    ensures BitLength(Shl(v, k) + low) == k + BitLength(v)
  {
    if k > 0 {
      BitLengthAppend(v, k - 1, low / 2);
      ShlLonger(v, 0, k);
    }
  }

  // ---------- bitwise operators ----------

  function And(x: nat, y: nat): nat {
    if x == 0 || y == 0 then 0 else (if x % 2 == 1 && y % 2 == 1 then 1 else 0) + 2 * And(x / 2, y / 2)
  }

  function Or(x: nat, y: nat): nat
    decreases x + y
  {
    if x == 0 && y == 0 then 0
    else (if x % 2 == 1 || y % 2 == 1 then 1 else 0) + 2 * Or(x / 2, y / 2)
  }

  lemma {:induction false} AndStep(x: nat, y: nat)
    ensures And(x, y) == (if x % 2 == 1 && y % 2 == 1 then 1 else 0) + 2 * And(x / 2, y / 2)
  {
    if x == 0 || y == 0 {
      assert And(x / 2, y / 2) == 0;
    }
  }

  lemma AndNothing(m: nat)
    ensures And(m, 0) == 0
  {}

  lemma {:induction false} HalfOfShl(a: nat, b: nat, k: nat)
    requires k > 0
    ensures (Shl(a, k) + b) / 2 == Shl(a, k - 1) + b / 2
    ensures (Shl(a, k) + b) % 2 == b % 2
  {}

  lemma {:induction false} AndShl(a: nat, b: nat, c: nat, d: nat, k: nat)
    requires b < Pow(2, k) && d < Pow(2, k)
    ensures And(Shl(a, k) + b, Shl(c, k) + d) == Shl(And(a, c), k) + And(b, d)
  {
    hide And, Pow, Shl;
    Doubles(And(a, c), k);
    if k > 0 {
      AndShl(a, b / 2, c, d / 2, k - 1);
      HalfOfShl(a, b, k);
      HalfOfShl(c, d, k);
      AndStep(Shl(a, k) + b, Shl(c, k) + d);
      AndStep(b, d);
    } else {
      ShlNone(a);
      ShlNone(c);
      AndStep(b, d);
      AndStep(0, 0);
    }
  }

  lemma Doubles(a: nat, k: nat)
    ensures k > 0 ==> Pow(2, k) == 2 * Pow(2, k - 1) && Shl(a, k) == 2 * Shl(a, k - 1)
    ensures k == 0 ==> Pow(2, k) == 1 && Shl(a, k) == a
  {}

  lemma {:induction false} OrStep(x: nat, y: nat)
    ensures Or(x, y) == (if x % 2 == 1 || y % 2 == 1 then 1 else 0) + 2 * Or(x / 2, y / 2)
  {}

  lemma {:induction false} OrShl(a: nat, b: nat, c: nat, d: nat, k: nat)
    requires b < Pow(2, k) && d < Pow(2, k)
    ensures Or(Shl(a, k) + b, Shl(c, k) + d) == Shl(Or(a, c), k) + Or(b, d)
  {
    hide Or, Pow, Shl;
    Doubles(Or(a, c), k);
    if k > 0 {
      OrShl(a, b / 2, c, d / 2, k - 1);
      HalfOfShl(a, b, k);
      HalfOfShl(c, d, k);
      OrStep(Shl(a, k) + b, Shl(c, k) + d);
      OrStep(b, d);
    } else {
      ShlNone(a);
      ShlNone(c);
      OrStep(b, d);
      OrStep(0, 0);
    }
  }

  lemma {:induction false} OrZero(x: nat)
    ensures Or(x, 0) == x && Or(0, x) == x
  {
    if x > 0 { OrZero(x / 2); }
  }

  /** Words whose set bits do not overlap: `|` is `+`. */
  lemma {:induction false} OrDisjoint(h: nat, l: nat, k: nat)
    requires l < Pow(2, k)
    ensures Or(Shl(h, k), l) == Shl(h, k) + l
  {
    OrShl(h, 0, 0, l, k);
    ShlZero(k);
    OrZero(h);
    OrZero(l);
  }

  /** Masking with 2^k - 1 takes the low k bits. */
  lemma {:induction false} AndLowMask(x: nat, k: nat)
    ensures And(x, Pow(2, k) - 1) == LowBits(x, k)
  {
    if k > 0 {
      AndLowMask(x / 2, k - 1);
      AndStep(x, Pow(2, k) - 1);
    } else {
      assert And(x, 0) == 0;
    }
  }
}
