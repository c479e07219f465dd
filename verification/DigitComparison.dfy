/** The slow path's rounding: from a big integer to the correctly rounded float. */
module DigitComparison {
  import opened Bits
  import opened Limbs
  import opened BigInts
  import opened Ieee

  /** A significand and a power of two; for a finished answer, the mantissa and exponent fields of a float. */
  datatype AdjustedMantissa = AdjustedMantissa(mantissa: nat, power2: int)

  /** The bit pattern `to_float` stores for a non-negative number. */
  function Word(f: Format, am: AdjustedMantissa): nat
    requires am.power2 >= 0
  {
    Or(am.mantissa, Shl(am.power2, f.mantissaBits))
  }

  /** The fields of a finished answer; a subnormal that was rounded up to the hidden bit keeps it in both fields. */
  ghost predicate Fields(f: Format, am: AdjustedMantissa) {
    am.power2 >= 0 && (am.mantissa < Pow(2, f.mantissaBits) || (am.mantissa == Pow(2, f.mantissaBits) && am.power2 == 1))
  }

  // ---------- rounding ----------

  function RoundDown(am: AdjustedMantissa, shift: nat): AdjustedMantissa {
    AdjustedMantissa(if shift == 64 then 0 else Shr(am.mantissa, shift), am.power2 + shift)
  }

  /** Drop `shift` bits and add one when `cb(isOdd, isHalfway, isAbove)` says so. */
  function RoundNearestTieEven(am: AdjustedMantissa, shift: nat, cb: (bool, bool, bool) -> bool): AdjustedMantissa
    requires shift <= 64
  {
    var mask := if shift == 64 then BASE - 1 else Shl(1, shift) - 1;
    var halfway := if shift == 0 then 0 else Shl(1, shift - 1);
    var truncatedBits := And(am.mantissa, mask);
    var isAbove := truncatedBits > halfway;
    var isHalfway := truncatedBits == halfway;
    var shifted := if shift == 64 then 0 else Shr(am.mantissa, shift);
    var isOdd := And(shifted, 1) == 1;
    AdjustedMantissa(shifted + (if cb(isOdd, isHalfway, isAbove) then 1 else 0), am.power2 + shift)
  }

  /** The halfway test compares exactly the bits dropped with their highest one. */
  lemma {:induction false} TieEvenShape(am: AdjustedMantissa, shift: nat, cb: (bool, bool, bool) -> bool)
    requires 1 <= shift <= 64 && am.mantissa < BASE
    ensures var q, low := Shr(am.mantissa, shift), LowBits(am.mantissa, shift);
            var up := cb(q % 2 == 1, low == Shl(1, shift - 1), low > Shl(1, shift - 1));
            RoundNearestTieEven(am, shift, cb) == AdjustedMantissa(q + (if up then 1 else 0), am.power2 + shift)
  {
    hide Shl, Shr, LowBits, And, Pow;
    BasePowers();
    ShlOne(shift);
    AndLowMask(am.mantissa, shift);
    if shift == 64 { ShrBound(am.mantissa, 0, 64); ShlOneBit(0); }
    ShlOneBit(Shr(am.mantissa, shift));
  }

  lemma {:induction false} ShlOneBit(q: nat)
    ensures Pow(2, 0) == 1
    ensures And(q, 1) == q % 2
  {
    assert Pow(2, 1) == 2 * Pow(2, 0);
    AndLowMask(q, 1);
    assert LowBits(q, 1) == q % 2 + 2 * LowBits(q / 2, 0);
  }

  /** Where `round` finds no normal float. */
  predicate BelowNormal(f: Format, am: AdjustedMantissa) {
    -am.power2 >= 63 - f.mantissaBits
  }

  /** How many bits `round` drops. */
  function DroppedBits(f: Format, am: AdjustedMantissa): (shift: int)
  {
    if BelowNormal(f, am) then (if 1 - am.power2 < 64 then 1 - am.power2 else 64) else 63 - f.mantissaBits
  }

  /** The bit pattern of the float at or below, the exponent field unbounded. */
  function Floor(f: Format, am: AdjustedMantissa): int
    requires f.mantissaBits <= 61
  {
    var q := Shr(am.mantissa, DroppedBits(f, am));
    if BelowNormal(f, am) then q
    else Shl(am.power2 + 63 - f.mantissaBits, f.mantissaBits) + q - Pow(2, f.mantissaBits)
  }

  /** Round to a float: whatever way the dropped bits are decided, the outcome is the float at or below,
      or its successor in bit-pattern order, and never past infinity. */
  method Round(f: Format, am0: AdjustedMantissa, cb: (AdjustedMantissa, nat) -> AdjustedMantissa, ghost up: nat)
    returns (am: AdjustedMantissa)
    requires f.Regular() && BASE / 2 <= am0.mantissa < BASE && up <= 1
    requires cb(am0, DroppedBits(f, am0)) ==
      AdjustedMantissa(Shr(am0.mantissa, DroppedBits(f, am0)) + up, am0.power2 + DroppedBits(f, am0))
    ensures Fields(f, am)
    ensures Floor(f, am0) >= 0
    ensures Word(f, am) == if Floor(f, am0) + up < f.Infinity() then Floor(f, am0) + up else f.Infinity()
  {
    hide Shl, Shr, Or, And, Pow;
    var n := f.mantissaBits;
    am := am0;
    var mantissaShift := 64 - n - 1;
    ShlOne(n);
    if -am.power2 >= mantissaShift {
      // a denormal float
      var shift := -am.power2 + 1;
      DroppedSubnormal(f, am0);
      am := cb(am, if shift < 64 then shift else 64);
      am := am.(power2 := if am.mantissa < Shl(1, n) then 0 else 1);
      SubnormalWord(f, am);
      return;
    }
    DroppedNormal(f, am0);
    am := cb(am, mantissaShift);
    ghost var q, p := am.mantissa, am.power2;
    // rounding up may carry into the next power of two
    if am.mantissa >= Shl(2, n) {
      am := AdjustedMantissa(Shl(1, n), am.power2 + 1);
    }
    am := am.(mantissa := And(am.mantissa, Not(Shl(1, n))));
    NormalFields(f, q, p, am);
    if am.power2 >= f.infinitePower {
      am := AdjustedMantissa(0, f.infinitePower);
    }
    NormalWord(f, q, p, am);
  }

  lemma {:induction false} DroppedSubnormal(f: Format, am: AdjustedMantissa)
    requires f.Regular() && am.mantissa < BASE && BelowNormal(f, am)
    ensures Shr(am.mantissa, DroppedBits(f, am)) < Pow(2, f.mantissaBits)
    ensures Pow(2, f.mantissaBits) <= f.Infinity()
  {
    hide Pow, Shr, Shl;
    var k, n := DroppedBits(f, am), f.mantissaBits;
    BasePowers();
    ShrBound(am.mantissa, 64 - k, k);
    PowMonotone(2, 64 - k, n);
    InfinityBound(f);
  }

  lemma {:induction false} InfinityBound(f: Format)
    requires f.Regular()
    ensures f.infinitePower >= 3
    ensures Pow(2, f.mantissaBits) <= f.Infinity()
  {
    var k :| k >= 2 && f.infinitePower + 1 == Pow(2, k);
    PowMonotone(2, 2, k);
    assert Pow(2, 2) == 4;
    ShlMonotone(1, f.infinitePower, f.mantissaBits);
    ShlOne(f.mantissaBits);
  }

  lemma {:induction false} DroppedNormal(f: Format, am: AdjustedMantissa)
    requires f.Regular() && BASE / 2 <= am.mantissa < BASE && !BelowNormal(f, am)
    ensures Pow(2, f.mantissaBits) <= Shr(am.mantissa, 63 - f.mantissaBits) < 2 * Pow(2, f.mantissaBits)
    ensures am.power2 + 63 - f.mantissaBits >= 1
  {
    hide Pow, Shr, Shl, LowBits;
    var n := f.mantissaBits;
    var s := 63 - n;
    var q := Shr(am.mantissa, s);
    BasePowers();
    ShrBound(am.mantissa, n + 1, s);
    ShrLow(am.mantissa, s);
    ShlOne(n);
    ShlShl(1, n, s);
    ShlOne(63);
    ShlAdd(q, 1, s);
    ShlOne(s);
    ShlMonotone(Pow(2, n), q, s);
    ShlMonotone(q + 1, Pow(2, n), s);
    PowAdd(2, 1, n);
    assert Pow(2, 1) == 2 by { ShlOneBit(0); TwoToOne(); }
  }

  lemma {:induction false} TwoToOne()
    ensures Pow(2, 1) == 2
  {
    assert Pow(2, 1) == 2 * Pow(2, 0);
  }

  /** A subnormal's fields, or the smallest normal's after a carry, read as one word. */
  lemma {:induction false} SubnormalWord(f: Format, am: AdjustedMantissa)
    requires am.mantissa <= Pow(2, f.mantissaBits)
    requires am.power2 == if am.mantissa < Pow(2, f.mantissaBits) then 0 else 1
    ensures Word(f, am) == am.mantissa
  {
    ShlZero(f.mantissaBits);
    OrZero(am.mantissa);
    if am.power2 == 1 {
      ShlOne(f.mantissaBits);
      OrSame(am.mantissa);
    }
  }

  lemma {:induction false} OrSame(x: nat)
    ensures Or(x, x) == x
  {
    if x > 0 { OrSame(x / 2); }
  }

  /** Clearing the hidden bit leaves the fraction, carry included. */
  lemma {:induction false} NormalFields(f: Format, q: nat, p: int, am: AdjustedMantissa)
    requires f.Regular() && Pow(2, f.mantissaBits) <= q <= 2 * Pow(2, f.mantissaBits)
    requires var carried := q >= Shl(2, f.mantissaBits);
             am == AdjustedMantissa(And(if carried then Shl(1, f.mantissaBits) else q, Not(Shl(1, f.mantissaBits))),
                                    if carried then p + 1 else p)
    ensures Shl(2, f.mantissaBits) == 2 * Pow(2, f.mantissaBits)
    ensures am.mantissa == if q < 2 * Pow(2, f.mantissaBits) then q - Pow(2, f.mantissaBits) else 0
  {
    var n := f.mantissaBits;
    ShlOne(n);
    ShlShl(1, 1, n);
    ShlShl(1, n, 1);
    if q < 2 * Pow(2, n) { ClearHiddenBit(q, n); } else { ClearHiddenBit(Pow(2, n), n); }
  }

  lemma {:induction false} ClearHiddenBit(q: nat, n: nat)
    requires n <= 61 && Pow(2, n) <= q < 2 * Pow(2, n)
    ensures And(q, Not(Shl(1, n))) == q - Pow(2, n)
  {
    hide Pow, Shl, And, LowBits;
    var low, high := q - Pow(2, n), Pow(2, 64 - n) - 2;
    ShlOne(n);
    BasePowers();
    ShlOne(64 - n);
    ShlShl(1, 64 - n, n);
    ShlOne(64);
    PowAdd(2, 1, 63 - n);
    TwoToOne();
    PowMonotone(2, 1, 63 - n);
    var h2 := Pow(2, 63 - n) - 1;
    assert high == 2 * h2;
    ShlAdd(high, 2, n);
    ShlTwo(n);
    assert Not(Shl(1, n)) == Shl(high, n) + (Pow(2, n) - 1);
    AndShl(1, low, high, Pow(2, n) - 1, n);
    AndOneEven(h2);
    ShlZero(n);
    AndLowMask(low, n);
    ShrUnique(0, low, n);
  }

  lemma {:induction false} ShlTwo(n: nat)
    ensures Shl(2, n) == 2 * Pow(2, n)
  {
    ShlAdd(1, 1, n);
    ShlOne(n);
  }

  lemma {:induction false} AndOneEven(h: nat)
    ensures And(1, 2 * h) == 0
  {
    assert And(0, h) == 0;
    AndStep(1, 2 * h);
  }

  lemma {:induction false} NormalWord(f: Format, q: nat, p: int, am: AdjustedMantissa)
    requires f.Regular() && p >= 1 && Pow(2, f.mantissaBits) <= q <= 2 * Pow(2, f.mantissaBits)
    requires var p' := if q < 2 * Pow(2, f.mantissaBits) then p else p + 1;
             am == if p' >= f.infinitePower then AdjustedMantissa(0, f.infinitePower)
                   else AdjustedMantissa(if q < 2 * Pow(2, f.mantissaBits) then q - Pow(2, f.mantissaBits) else 0, p')
    ensures var c := Shl(p, f.mantissaBits) + q - Pow(2, f.mantissaBits);
            c >= 0 && Word(f, am) == if c < f.Infinity() then c else f.Infinity()
  {
    hide Pow, Shl, Or;
    var n := f.mantissaBits;
    OrFields(am.mantissa, am.power2, n);
    ShlAdd(p, 1, n);
    ShlOne(n);
    ShlMonotone(p + 1, f.infinitePower, n);
    ShlMonotone(f.infinitePower, p, n);
    ShlMonotone(f.infinitePower, p + 1, n);
  }

  lemma {:induction false} OrFields(m: nat, p: nat, n: nat)
    requires m < Pow(2, n)
    ensures Or(m, Shl(p, n)) == Shl(p, n) + m
  {
    OrShl(0, m, p, 0, n);
    ShlZero(n);
    OrZero(p);
    OrZero(m);
  }

  /** The float at or below has the significand kept, at the exponent field's place; the next one, one more. */
  lemma {:induction false} FloorUnits(f: Format, am: AdjustedMantissa)
    requires f.Regular() && BASE / 2 <= am.mantissa < BASE
    ensures Floor(f, am) >= 0
    ensures var q, e := Shr(am.mantissa, DroppedBits(f, am)), FloorExponent(f, am);
            && Units(f, Floor(f, am)) == Shl(q, e)
            && Units(f, Floor(f, am) + 1) == Shl(q + 1, e)
            && Floor(f, am) % 2 == q % 2
  {
    hide Shl, Shr, LowBits, Pow, Units;
    var n := f.mantissaBits;
    var q := Shr(am.mantissa, DroppedBits(f, am));
    if BelowNormal(f, am) {
      DroppedSubnormal(f, am);
      SubnormalUnits(f, q);
      SubnormalUnits(f, q + 1);
      ShlNone(q);
      ShlNone(q + 1);
    } else {
      DroppedNormal(f, am);
      var p := am.power2 + 63 - n;
      NormalUnits(f, q, p);
      NormalUnits(f, q + 1, p);
      EvenParts(p, n);
    }
  }

  /** Where the lowest kept bit stands, in units of the smallest subnormal. */
  ghost function FloorExponent(f: Format, am: AdjustedMantissa): (e: nat)
  {
    if BelowNormal(f, am) then 0 else am.power2 + 62 - f.mantissaBits
  }

  lemma {:induction false} EvenParts(p: nat, n: nat)
    requires n >= 1
    ensures Shl(p, n) % 2 == 0 && Pow(2, n) % 2 == 0
    ensures Shl(p, n) >= Pow(2, n) || p == 0
  {
    ShlOne(n);
    ShlMonotone(1, p, n);
  }

  // ---------- the decimal is an integer ----------

  /** The position of an integer among the floats: its leading 64 bits at place `k`, and a rest below them. */
  lemma {:induction false} HighBitsPlaced(f: Format, v: nat, hi: nat, truncated: bool) returns (rest: nat)
    requires f.Bias() >= 64 && v > 0 && HighBits(v, hi, truncated)
    ensures BitLength(v) >= 1
    ensures var k := BitLength(v) - 64 + f.Bias() - 1;
            rest < Pow(2, k) && Shl(v, f.Bias() - 1) == Shl(hi, k) + rest && (rest != 0 <==> truncated)
  {
    hide Shl, Shr, LowBits, Pow, BitLength;
    BitLengthBounds(v);
    var n, b := BitLength(v), f.Bias() - 1;
    var k := n - 64 + b;
    if n >= 64 {
      var low := LowBits(v, n - 64);
      ShrLow(v, n - 64);
      ShlAdd(Shl(hi, n - 64), low, b);
      ShlShl(hi, n - 64, b);
      rest := Shl(low, b);
      assert rest < Pow(2, k) by {
        ShlAdd(low, 1, b);
        ShlMonotone(low + 1, Pow(2, n - 64), b);
        ShlOne(n - 64);
        ShlShl(1, n - 64, b);
        ShlOne(k);
      }
      ShlZero(b);
      ShlLonger(low, 0, b);
      ShlNone(low);
    } else {
      ShlShl(v, 64 - n, k);
      rest := 0;
    }
  }

  /** Comparing the dropped bits with their middle, the rest below them included. */
  lemma {:induction false} DroppedDecide(low: nat, s: nat, k: nat, rest: nat)
    requires s >= 1 && low < Pow(2, s) && rest < Pow(2, k)
    ensures var r, g := Shl(low, k) + rest, Shl(1, k + s);
            && r < g
            && (low > Shl(1, s - 1) ==> 2 * r > g)
            && (low < Shl(1, s - 1) ==> 2 * r < g)
            && (low == Shl(1, s - 1) ==> 2 * r == g + 2 * rest)
  {
    hide Shl, Pow;
    var half := Shl(1, s - 1);
    ShlShl(1, s - 1, k);
    ShlShl(1, k + s - 1, 1);
    ShlFirst(Shl(1, k + s - 1));
    ShlOne(s);
    ShlOne(k);
    ShlShl(1, s, k);
    ShlAdd(low, 1, k);
    ShlMonotone(low + 1, Pow(2, s), k);
    ShlMonotone(low + 1, half, k);
    ShlAdd(half, 1, k);
    ShlMonotone(half + 1, low, k);
  }

  ghost predicate Integral(f: Format, v: nat, am: AdjustedMantissa, truncated: bool) {
    && f.Regular() && v > 0
    && HighBits(v, am.mantissa, truncated)
    && am.power2 == BitLength(v) - 64 + f.Bias()
  }

  /** The rule of `positive_digit_comp` is round-to-nearest, ties to even, overflow included. */
  lemma {:induction false} IntegerRounds(f: Format, v: nat, am: AdjustedMantissa, truncated: bool, up: nat)
    requires Integral(f, v, am, truncated) && !BelowNormal(f, am) && Floor(f, am) >= 0
    requires var q, low, half := Shr(am.mantissa, 63 - f.mantissaBits), LowBits(am.mantissa, 63 - f.mantissaBits),
                                 Shl(1, 62 - f.mantissaBits);
             up == if low > half || (low == half && truncated) || (q % 2 == 1 && low == half) then 1 else 0
    ensures IsNearest(f, v, 1, if Floor(f, am) + up < f.Infinity() then Floor(f, am) + up else f.Infinity())
  {
    hide Shl, Shr, LowBits, Pow, Units, BitLength, IsNearest;
    var s, b, c := 63 - f.mantissaBits, f.Bias() - 1, Floor(f, am);
    var q, low := Shr(am.mantissa, s), LowBits(am.mantissa, s);
    var rest := HighBitsPlaced(f, v, am.mantissa, truncated);
    var k := BitLength(v) - 64 + b;
    var r, g := Shl(low, k) + rest, Shl(1, k + s);
    assert Shl(v, b) == Shl(q, k + s) + r by {
      ShrLow(am.mantissa, s);
      ShlAdd(Shl(q, s), low, k);
      ShlShl(q, s, k);
    }
    assert Units(f, c) == Shl(q, k + s) && Units(f, c + 1) == Shl(q, k + s) + g && c % 2 == q % 2 by {
      FloorUnits(f, am);
      ShlAdd(q, 1, k + s);
    }
    ShrLow(am.mantissa, s);
    DroppedDecide(low, s, k, rest);
    FloorDecides(f, v, c, r, g, up);
  }

  /** `v` lies `r` above the float pattern `c`, out of `g` to the next one. */
  lemma {:induction false} FloorDecides(f: Format, v: nat, c: nat, r: nat, g: nat, up: nat)
    requires f.Bias() >= 64 && r < g && up <= 1
    requires Shl(v, f.Bias() - 1) == Units(f, c) + r && Units(f, c + 1) == Units(f, c) + g
    requires (2 * r > g ==> up == 1) && (2 * r < g ==> up == 0) && (2 * r == g ==> up == c % 2)
    ensures IsNearest(f, v, 1, if c + up < f.Infinity() then c + up else f.Infinity())
  {
    hide Shl, Units, IsNearest;
    ShlShl(v, f.Bias() - 1, 1);
    ShlFirst(Shl(v, f.Bias() - 1));
    if c < f.Infinity() {
      BetweenIsClose(f, v, 1, c);
      HalfwayDecides(f, v, 1, c, c + up);
    } else {
      UnitsMonotone(f, f.Infinity(), c);
      OverflowDecides(f, v, 1);
    }
  }

  method PositiveDigitComp(f: Format, bigmant: BigInt, exponent: nat) returns (answer: AdjustedMantissa)
    requires f.Regular() && bigmant.Valid() && Normalized(bigmant.Vec()) && bigmant.Num() > 0
    requires bigmant.Num() * Pow(10, exponent) < bigmant.Limit()
    modifies bigmant`length, bigmant.data
    ensures Fields(f, answer)
    ensures IsNearest(f, old(bigmant.Num()) * Pow(10, exponent), 1, Word(f, answer))
  {
    hide Shl, Shr, LowBits, Pow, BitLength, Value, Up, IsNearest, RoundNearestTieEven;
    ghost var v := bigmant.Num() * Pow(10, exponent);
    ProductPositive(bigmant.Num(), Pow(10, exponent));
    var ok := bigmant.Pow10(exponent);  // the outcome is ignored; by the bound it is true
    var hi, truncated := bigmant.Hi64();
    var bits := bigmant.NumBits();
    answer := AdjustedMantissa(hi, bits - 64 + f.Bias());
    ghost var am := answer;
    BitLengthBounds(v);
    var decide := (isOdd: bool, isHalfway: bool, isAbove: bool) =>
      isAbove || (isHalfway && truncated) || (isOdd && isHalfway);
    TieEvenShape(am, 63 - f.mantissaBits, decide);
    ghost var low, half := LowBits(hi, 63 - f.mantissaBits), Shl(1, 62 - f.mantissaBits);
    ghost var up := if decide(Shr(hi, 63 - f.mantissaBits) % 2 == 1, low == half, low > half) then 1 else 0;
    answer := Round(f, answer, (a: AdjustedMantissa, shift: nat) =>
      if shift <= 64 then RoundNearestTieEven(a, shift, decide) else a, up);
    IntegerRounds(f, v, am, truncated, up);
  }

  // ---------- the decimal has a fraction: compare with the halfway point ----------

  /** Take a float's bit pattern apart again. */
  function ToExtended(f: Format, bits: nat): AdjustedMantissa {
    if And(bits, Shl(f.infinitePower, f.mantissaBits)) == 0 then
      // denormal
      AdjustedMantissa(And(bits, Shl(1, f.mantissaBits) - 1), 1 - f.Bias())
    else
      AdjustedMantissa(
        Or(And(bits, Shl(1, f.mantissaBits) - 1), Shl(1, f.mantissaBits)),
        Shr(And(bits, Shl(f.infinitePower, f.mantissaBits)), f.mantissaBits) - f.Bias())
  }

  /** Halfway between a float and its successor. */
  function ToExtendedHalfway(f: Format, bits: nat): AdjustedMantissa {
    var am := ToExtended(f, bits);
    AdjustedMantissa(Shl(am.mantissa, 1) + 1, am.power2 - 1)
  }

  /** The halfway point is exactly half of the two neighbours' sum. */
  lemma {:induction false} HalfwayUnits(f: Format, bits: nat) returns (e: nat)
    requires f.Regular() && bits <= f.Infinity()
    ensures ToExtendedHalfway(f, bits).power2 == e - f.Bias()
    ensures Units(f, bits) + Units(f, bits + 1) == Shl(ToExtendedHalfway(f, bits).mantissa, e)
    ensures 0 < ToExtendedHalfway(f, bits).mantissa < 4 * Pow(2, f.mantissaBits)
    ensures Units(f, bits + 1) <= 2 * Units(f, bits) + 1
  {
    hide Units, Shl, Shr, LowBits, Pow, And, Or;
    var n := f.mantissaBits;
    var p, m := Shr(bits, n), LowBits(bits, n);
    ShrLow(bits, n);
    ShlOne(n);
    MaskFields(f, bits);
    if p == 0 {
      e := 0;
      ShlZero(n);
      SubnormalUnits(f, bits);
      SubnormalUnits(f, bits + 1);
      ShlFirst(m);
      ShlNone(2 * m + 1);
    } else {
      e := p - 1;
      var q := Pow(2, n) + m;
      OrFields(m, 1, n);
      NormalUnits(f, q, p);
      NormalUnits(f, q + 1, p);
      ShlAdd(q, q + 1, e);
      ShlFirst(q);
      ShlMonotone(q + 1, 2 * q, e);
      ShlAdd(q, q, e);
    }
  }

  lemma {:induction false} MaskFields(f: Format, bits: nat)
    requires f.Regular() && bits <= f.Infinity()
    ensures And(bits, Shl(1, f.mantissaBits) - 1) == LowBits(bits, f.mantissaBits)
    ensures And(bits, Shl(f.infinitePower, f.mantissaBits)) == Shl(Shr(bits, f.mantissaBits), f.mantissaBits)
    ensures Shr(Shl(Shr(bits, f.mantissaBits), f.mantissaBits), f.mantissaBits) == Shr(bits, f.mantissaBits)
  {
    hide Shl, Shr, LowBits, Pow, And;
    var n := f.mantissaBits;
    var p, m := Shr(bits, n), LowBits(bits, n);
    ShlOne(n);
    AndLowMask(bits, n);
    ShrLow(bits, n);
    ShlMonotone(p, f.infinitePower, n);
    var k :| k >= 2 && f.infinitePower + 1 == Pow(2, k);
    AndLowMask(p, k);
    ShrUnique(0, p, k);
    ShlZero(k);
    AndShl(p, m, f.infinitePower, 0, n);
    AndNothing(m);
    ShrUnique(p, 0, n);
  }

  /** The two sides that `negative_digit_comp` compares, for the decimal m / 10^k and the halfway point t * 2^x. */
  ghost function RealDigits(m: nat, k: nat, x: int): nat {
    if x + k < 0 then Shl(m, -(x + k)) else m
  }

  ghost function TheorDigits(t: nat, k: nat, x: int): nat {
    if x + k > 0 then Shl(t * Pow(5, k), x + k) else t * Pow(5, k)
  }

  /** Scaling by powers of five and two keeps the order. */
  lemma {:induction false} ScaledOrder(m: nat, k: nat, t: nat, e: nat, bias: nat)
    ensures var x := e - bias;
            && (RealDigits(m, k, x) > TheorDigits(t, k, x) <==> Shl(m, bias) > Pow(10, k) * Shl(t, e))
            && (RealDigits(m, k, x) < TheorDigits(t, k, x) <==> Shl(m, bias) < Pow(10, k) * Shl(t, e))
  {
    hide Shl, Pow;
    var x, t5 := e - bias, t * Pow(5, k);
    TenPower(t, k);
    ShlTimes(t, Pow(10, k), e);
    ShlShl(t5, k, e);
    assert Pow(10, k) * Shl(t, e) == Shl(t5, k + e);
    if x + k > 0 {
      ShlShl(t5, x + k, bias);
      ShlMonotone(m, TheorDigits(t, k, x), bias);
      ShlMonotone(TheorDigits(t, k, x), m, bias);
    } else {
      ShlShl(m, -(x + k), k + e);
      ShlNone(m);
      ShlMonotone(RealDigits(m, k, x), t5, k + e);
      ShlMonotone(t5, RealDigits(m, k, x), k + e);
    }
  }

  /** num/den is close to the float `am` rounds down to and its successor: surely so when it lies between them,
      and also when it is a little outside, as the digits behind the nineteenth may put it. */
  ghost predicate Bracketed(f: Format, am: AdjustedMantissa, num: nat, den: nat)
    requires f.Regular()
  {
    && BASE / 2 <= am.mantissa < BASE
    && Floor(f, am) >= 0
    && CloseTo(f, num, den, Floor(f, am))
  }

  /** Both sides of the comparison fit the big integer. */
  ghost predicate SidesFit(f: Format, b: nat, m: nat, k: nat, limit: nat) {
    var half := ToExtendedHalfway(f, b);
    && RealDigits(m, k, half.power2) < limit
    && TheorDigits(half.mantissa, k, half.power2) < limit
  }

  lemma {:induction false} FractionRounds(f: Format, am: AdjustedMantissa, m: nat, k: nat, ord: int, up: nat)
    requires f.Regular() && Bracketed(f, am, m, Pow(10, k))
    requires var half := ToExtendedHalfway(f, Floor(f, am));
             var digits, theor := RealDigits(m, k, half.power2), TheorDigits(half.mantissa, k, half.power2);
             (ord > 0 <==> digits > theor) && (ord < 0 <==> digits < theor)
    requires up == if ord > 0 || (ord == 0 && Shr(am.mantissa, DroppedBits(f, am)) % 2 == 1) then 1 else 0
    ensures SplitAtHalfway(f, m, Pow(10, k), Floor(f, am), Floor(f, am) + up)
  {
    hide Shl, Shr, LowBits, Pow, Units, IsNearest, ToExtendedHalfway, RealDigits, TheorDigits, Floor, CloseTo;
    var b, bias, den := Floor(f, am), f.Bias(), Pow(10, k);
    CloseFinite(f, m, den, b);
    var e := HalfwayUnits(f, b);
    var half := ToExtendedHalfway(f, b);
    ScaledOrder(m, k, half.mantissa, e, bias);
    FloorUnits(f, am);
  }

  lemma CloseFinite(f: Format, num: nat, den: nat, b: nat)
    requires CloseTo(f, num, den, b)
    ensures b < f.Infinity()
  {}

  lemma {:induction false} RoundDownShape(f: Format, am: AdjustedMantissa)
    requires f.Regular() && am.mantissa < BASE
    ensures 0 <= DroppedBits(f, am) <= 64
    ensures RoundDown(am, DroppedBits(f, am)) ==
      AdjustedMantissa(Shr(am.mantissa, DroppedBits(f, am)), am.power2 + DroppedBits(f, am))
  {
    BasePowers();
    if DroppedBits(f, am) == 64 {
      ShrBound(am.mantissa, 0, 64);
      ShlOneBit(0);
    }
  }

  lemma {:induction false} HalfwayFits(f: Format, t: nat)
    requires f.Regular() && t < 4 * Pow(2, f.mantissaBits)
    ensures t < BASE
  {
    hide Pow;
    BasePowers();
    PowAdd(2, 2, f.mantissaBits);
    PowMonotone(2, 2 + f.mantissaBits, 64);
    FourIsPow();
  }

  lemma FourIsPow()
    ensures Pow(2, 2) == 4
  {}

  /** Scale both sides to the same power of two and of five. */
  method ScaleSides(realDigits: BigInt, theorDigits: BigInt, realExp: int, theorExp: int)
    requires realExp < 0 && realDigits != theorDigits && realDigits.data != theorDigits.data
    requires realDigits.Valid() && Normalized(realDigits.Vec()) && realDigits.Num() > 0
    requires theorDigits.Valid() && Normalized(theorDigits.Vec()) && theorDigits.Num() > 0
    requires RealDigits(realDigits.Num(), -realExp, theorExp) < realDigits.Limit()
    requires TheorDigits(theorDigits.Num(), -realExp, theorExp) < theorDigits.Limit()
    modifies realDigits`length, realDigits.data, theorDigits`length, theorDigits.data
    ensures realDigits.Valid() && Normalized(realDigits.Vec())
    ensures theorDigits.Valid() && Normalized(theorDigits.Vec())
    ensures realDigits.Num() == RealDigits(old(realDigits.Num()), -realExp, theorExp)
    ensures theorDigits.Num() == TheorDigits(old(theorDigits.Num()), -realExp, theorExp)
  {
    hide Shl, Pow, Value, Up;
    ghost var t, k := theorDigits.Num(), -realExp;
    var pow2Exp := theorExp - realExp;
    var pow5Exp := -realExp;
    TenPower(t, k);
    ShlLonger(t * Pow(5, k), 0, if pow2Exp > 0 then pow2Exp else 0);
    ShlNone(t * Pow(5, k));
    if pow5Exp != 0 {
      var ok := theorDigits.Pow5(pow5Exp);
      assert ok;
    }
    if pow2Exp > 0 {
      var ok := theorDigits.Shl(pow2Exp);
      assert ok;
    } else if pow2Exp < 0 {
      var ok := realDigits.Shl(-pow2Exp);
      assert ok;
    }
  }

  method NegativeDigitComp(f: Format, bigmant: BigInt, am: AdjustedMantissa, exponent: int)
    returns (answer: AdjustedMantissa)
    requires f.Regular() && exponent < 0
    requires bigmant.Valid() && Normalized(bigmant.Vec()) && bigmant.Num() > 0
    requires Bracketed(f, am, bigmant.Num(), Pow(10, -exponent))
    requires SidesFit(f, Floor(f, am), bigmant.Num(), -exponent, bigmant.Limit())
    modifies bigmant`length, bigmant.data
    ensures Fields(f, answer)
    ensures SplitAtHalfway(f, old(bigmant.Num()), Pow(10, -exponent), Floor(f, am), Word(f, answer))
    ensures IsNearest(f, old(bigmant.Num()), Pow(10, -exponent), Word(f, answer))
  {
    hide Shl, Shr, LowBits, Pow, Value, Up, IsNearest, Units, ToExtendedHalfway, And, Or, RoundNearestTieEven, CloseTo,
         SplitAtHalfway;
    CloseFinite(f, bigmant.Num(), Pow(10, -exponent), Floor(f, am));
    ghost var m, k, b := bigmant.Num(), -exponent, Floor(f, am);
    var realExp := exponent;
    // the value of `b`, rounded down, and a big integer for the point halfway to its successor
    RoundDownShape(f, am);
    var amB := Round(f, am, (a: AdjustedMantissa, shift: nat) => RoundDown(a, shift), 0);
    var theor := ToExtendedHalfway(f, Word(f, amB));
    ghost var e := HalfwayUnits(f, b);
    ghost var t := theor.mantissa;
    HalfwayFits(f, t);
    var theorDigits := new BigInt.FromU64(theor.mantissa);
    ScaleSides(bigmant, theorDigits, realExp, theor.power2);
    var ord := bigmant.Compare(theorDigits);
    var decide := (isOdd: bool, isHalfway: bool, isAbove: bool) =>
      if ord > 0 then true else if ord < 0 then false else isOdd;
    ghost var q := Shr(am.mantissa, DroppedBits(f, am));
    TieEvenShape(am, DroppedBits(f, am), decide);
    ghost var up := if ord > 0 || (ord == 0 && q % 2 == 1) then 1 else 0;
    FractionRounds(f, am, m, k, ord, up);
    HalfwayDecides(f, m, Pow(10, k), b, b + up);
    answer := Round(f, am, (a: AdjustedMantissa, shift: nat) =>
      if shift <= 64 then RoundNearestTieEven(a, shift, decide) else a, up);
  }
}
