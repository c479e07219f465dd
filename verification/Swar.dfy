/** Reading eight decimal digits at once out of one 64-bit word. */
module Swar {
  import opened Bits
  import opened Limbs
  import opened Decimal

  /** Bytes as one number, the first byte lowest: what a little-endian load of `s` yields. */
  function Lanes(s: seq<byte>): nat {
    if |s| == 0 then 0 else s[0] + 256 * Lanes(s[1..])
  }

  /** `n` lanes holding the same byte. */
  function Repeat(c: byte, n: nat): nat {
    if n == 0 then 0 else c + 256 * Repeat(c, n - 1)
  }

  function Power256(n: nat): (r: nat)
    ensures r >= 1
  {
    if n == 0 then 1 else 256 * Power256(n - 1)
  }

  lemma {:induction false} LanesBound(s: seq<byte>)
    ensures Lanes(s) < Power256(|s|)
  {
    if |s| > 0 { LanesBound(s[1..]); }
  }

  lemma {:induction false} EightLanes(s: seq<byte>)
    requires |s| == 8
    ensures Power256(8) == BASE && Lanes(s) < BASE
  {
    LanesBound(s);
    assert Power256(4) == 0x1_0000_0000;
  }

  function Read8(s: seq<byte>): nat
    requires |s| == 8
  {
    Lanes(s)
  }

  /** Adding 0x46 sets the top bit of a byte above '9', subtracting 0x30 that of a byte below '0'. */
  predicate IsMadeOfEightDigitsFast(val: nat) {
    And(Or((val + 0x4646464646464646) % BASE, (val - 0x3030303030303030) % BASE), 0x8080808080808080) == 0
  }

  // ---------- the test, lane by lane ----------

  ghost function TestWord(val: nat, n: nat): nat {
    And(Or((val + Repeat(0x46, n)) % Power256(n), (val - Repeat(0x30, n)) % Power256(n)), Repeat(0x80, n))
  }

  /** Of one byte: the top bit is clear in both the sum and the difference just for '0'..'9'. */
  lemma {:induction false} OneLane(b: byte)
    ensures And(Or((b + 0x46) % 256, (b - 0x30) % 256), 0x80) == 0 <==> IsInteger(b)
  {
    hide And, Or;
    var x, y := (b + 0x46) % 256, (b - 0x30) % 256;
    OrBelow(x, y);
    TopBit(Or(x, y));
  }

  lemma {:induction false} TopBit(x: nat)
    requires x < 256
    ensures And(x, 0x80) == 0 <==> x < 128
  {
    hide And;
    SevenShift(1);
    SevenShift(x / 128);
    AndShl(x / 128, x % 128, 1, 0, 7);
    SevenShift(And(x / 128, 1));
    assert And(0, 1) == 0 && And(1, 1) == 1 by { AndStep(1, 1); AndStep(0, 1); AndStep(0, 0); }
    AndNothing(x % 128);
  }

  lemma {:induction false} SevenShift(h: nat)
    ensures Pow(2, 7) == 128 && Shl(h, 7) == 128 * h
  {
    assert Pow(2, 7) == 128;
    ShlIsPow(h, 7);
  }

  lemma {:induction false} EightShift(h: nat)
    ensures Pow(2, 8) == 256 && Shl(h, 8) == 256 * h
  {
    assert Pow(2, 8) == 256;
    ShlIsPow(h, 8);
  }

  lemma {:induction false} OrBelow(x: nat, y: nat)
    requires x < 256 && y < 256
    ensures Or(x, y) < 256
    ensures Or(x, y) < 128 <==> x < 128 && y < 128
  {
    hide Or;
    SevenShift(x / 128);
    SevenShift(y / 128);
    OrShl(x / 128, x % 128, y / 128, y % 128, 7);
    SevenShift(Or(x / 128, y / 128));
    OrBit(x / 128, y / 128);
    OrSmall(x % 128, y % 128, 7);
  }

  lemma OrBit(x: nat, y: nat)
    requires x <= 1 && y <= 1
    ensures Or(x, y) == if x == 1 || y == 1 then 1 else 0
  {}

  lemma {:induction false} OrSmall(x: nat, y: nat, k: nat)
    requires x < Pow(2, k) && y < Pow(2, k)
    ensures Or(x, y) < Pow(2, k)
  {
    if k > 0 { OrSmall(x / 2, y / 2, k - 1); }
  }

  /** The masked word of a lane and the rest is the masked lane and the masked rest. */
  lemma {:induction false} MaskedLanes(a: nat, a': nat, b: nat, b': nat, m: nat)
    requires a < 256 && b < 256
    ensures And(Or(a + 256 * a', b + 256 * b'), 0x80 + 256 * m) == 0 <==>
      And(Or(a, b), 0x80) == 0 && And(Or(a', b'), m) == 0
  {
    hide And, Or;
    EightShift(a'); EightShift(b'); EightShift(m); EightShift(Or(a', b'));
    OrShl(a', a, b', b, 8);
    OrBelow(a, b);
    AndShl(Or(a', b'), Or(a, b), m, 0x80, 8);
    EightShift(And(Or(a', b'), m));
  }

  lemma {:induction false} LaneSplit(v: int, p: nat)
    requires p >= 1
    ensures v % (256 * p) == v % 256 + 256 * ((v / 256) % p)
  {
    var q, r := v / 256, v % 256;
    DivModUnique(v, 256 * p, q / p, r + 256 * (q % p)) by {
      assert q == p * (q / p) + q % p;
      MulAssoc(q / p, 256, p);
      assert q / p * (256 * p) == 256 * (p * (q / p)) by {
        assert q / p * 256 * p == 256 * (p * (q / p));
      }
    }
  }

  lemma FirstLane(s: seq<byte>)
    requires |s| > 0
    ensures Lanes(s) == s[0] + 256 * Lanes(s[1..])
  {}

  lemma OneLaneMore(c: byte, n: nat)
    ensures Repeat(c, n + 1) == c + 256 * Repeat(c, n)
    ensures Power256(n + 1) == 256 * Power256(n)
  {}

  lemma FirstDigitFirst(s: seq<byte>)
    requires |s| > 0
    ensures AllDigits(s) <==> IsInteger(s[0]) && AllDigits(s[1..])
  {
    assert s == [s[0]] + s[1..];
  }

  /** Adding lane-wise: the lowest lane wraps, and carries into the rest. */
  lemma LaneSum(b: int, v: int, c: int, rest: int, p: nat)
    requires p >= 1
    ensures (b + 256 * v + (c + 256 * rest)) % (256 * p) == (b + c) % 256 + 256 * ((v + rest + (b + c) / 256) % p)
  {
    var t := b + 256 * v + (c + 256 * rest);
    assert t % 256 == (b + c) % 256 && t / 256 == v + rest + (b + c) / 256;
    LaneSplit(t, p);
  }

  lemma {:induction false} LaneDecides(b: byte, high: nat, low: nat, mask: nat)
    ensures And(Or((b + 0x46) % 256 + 256 * high, (b - 0x30) % 256 + 256 * low), 0x80 + 256 * mask) == 0 <==>
      IsInteger(b) && And(Or(high, low), mask) == 0
  {
    hide And, Or;
    MaskedLanes((b + 0x46) % 256, high, (b - 0x30) % 256, low, mask);
    OneLane(b);
  }

  /** A digit does not carry into the lanes above it. */
  lemma {:induction false} NoCarry(b: byte)
    ensures IsInteger(b) ==> (b + 0x46) / 256 == 0 && (b - 0x30) / 256 == 0
  {}

  lemma LaneDifference(b: int, v: int, c: int, rest: int, p: nat)
    requires p >= 1
    ensures (b + 256 * v - (c + 256 * rest)) % (256 * p) == (b - c) % 256 + 256 * ((v - rest + (b - c) / 256) % p)
  {
    LaneSum(b, v, -c, -rest, p);
    assert b + 256 * v - (c + 256 * rest) == b + 256 * v + (-c + 256 * -rest);
  }

  /** The words' lowest lanes and the rest, as the two lemmas above give them. */
  lemma {:induction false} LanesDecide(b: byte, sum: nat, dif: nat, high: nat, low: nat, high0: nat, low0: nat, mask: nat)
    requires sum == (b + 0x46) % 256 + 256 * high && dif == (b - 0x30) % 256 + 256 * low
    requires IsInteger(b) ==> high == high0 && low == low0
    ensures And(Or(sum, dif), 0x80 + 256 * mask) == 0 <==> IsInteger(b) && And(Or(high0, low0), mask) == 0
  {
    hide And, Or;
    LaneDecides(b, high, low, mask);
  }

  lemma {:induction false} NextLane(b: byte, v: nat, add: nat, sub: nat, mask: nat, p: nat,
    word: nat, add': nat, sub': nat, mask': nat, p': nat)
    requires p >= 1 && word == b + 256 * v && p' == 256 * p
    requires add' == 0x46 + 256 * add && sub' == 0x30 + 256 * sub && mask' == 0x80 + 256 * mask
    ensures And(Or((word + add') % p', (word - sub') % p'), mask') == 0 <==>
      IsInteger(b) && And(Or((v + add) % p, (v - sub) % p), mask) == 0
  {
    hide And, Or, IsInteger;
    LaneSum(b, v, 0x46, add, p);
    LaneDifference(b, v, 0x30, sub, p);
    NoCarry(b);
    LanesDecide(b, (word + add') % p', (word - sub') % p',
                (v + add + (b + 0x46) / 256) % p, (v as int - sub + (b - 0x30) / 256) % p,
                (v + add) % p, (v as int - sub) % p, mask);
  }

  /** One lane more: the words of the test, and those of the lanes above. */
  lemma {:induction false} TestStep(b: byte, v: nat, word: nat, n: nat)
    requires word == b + 256 * v
    ensures TestWord(word, n + 1) == 0 <==> IsInteger(b) && TestWord(v, n) == 0
  {
    hide And, Or, Power256, Repeat, IsInteger;
    OneLaneMore(0x46, n);
    OneLaneMore(0x30, n);
    OneLaneMore(0x80, n);
    NextLane(b, v, Repeat(0x46, n), Repeat(0x30, n), Repeat(0x80, n), Power256(n),
             word, Repeat(0x46, n + 1), Repeat(0x30, n + 1), Repeat(0x80, n + 1), Power256(n + 1));
  }

  lemma {:induction false} TestLanes(s: seq<byte>)
    ensures TestWord(Lanes(s), |s|) == 0 <==> AllDigits(s)
  {
    if |s| == 0 {
      hide Or, And;
      AndNothing(Or(0, 0));
    } else {
      hide TestWord, IsInteger, AllDigits;
      TestLanes(s[1..]);
      FirstDigitFirst(s);
      FirstLane(s);
      TestStep(s[0], Lanes(s[1..]), Lanes(s), |s| - 1);
    }
  }

  /** The word test accepts exactly eight digits. */
  lemma {:induction false} EightDigitsTest(s: seq<byte>)
    requires |s| == 8
    ensures IsMadeOfEightDigitsFast(Read8(s)) <==> AllDigits(s)
  {
    hide And, Or;
    TestLanes(s);
    EightLanes(s);
    assert Repeat(0x46, 8) == 0x4646464646464646;
    assert Repeat(0x30, 8) == 0x3030303030303030;
    assert Repeat(0x80, 8) == 0x8080808080808080;
  }

  // ---------- the value ----------

  /** Pairs of digits, then pairs of pairs, by two multiplications. */
  function ParseEightDigitsUnrolled(val0: nat): nat {
    var val := (val0 - 0x3030303030303030) % BASE;
    Combine((val * 10 + Shr(val, 8)) % BASE)
  }

  function Combine(pairs: nat): nat {
    var mask := 0x000000FF000000FF;
    Weighed(And(pairs, mask), And(Shr(pairs, 16), mask))
  }

  function Weighed(first: nat, second: nat): nat {
    var mul1 := 0x000F424000000064;  // 100 + (1000000 << 32)
    var mul2 := 0x0000271000000001;  // 1 + (10000 << 32)
    Shr((first * mul1 % BASE + second * mul2 % BASE) % BASE, 32) % HALF
  }

  /** The mask keeps the lowest byte of each 32-bit half. */
  lemma {:induction false} PickLanes(a: nat, x: nat, c: nat, y: nat)
    requires a < 256 && c < 256 && a + 256 * x < HALF
    ensures And(a + 256 * x + HALF * (c + 256 * y), 0x000000FF000000FF) == a + HALF * c
  {
    hide And, Shl, LowBits;
    var lo, hi := a + 256 * x, c + 256 * y;
    ThirtyTwoShift(hi);
    ThirtyTwoShift(0xFF);
    AndShl(hi, lo, 0xFF, 0xFF, 32);
    LowByte(a, x);
    LowByte(c, y);
    ThirtyTwoShift(And(hi, 0xFF));
  }

  lemma {:induction false} ThirtyTwoShift(h: nat)
    ensures Pow(2, 32) == HALF && Shl(h, 32) == HALF * h
  {
    BasePowers();
    ShlIsPow(h, 32);
  }

  lemma {:induction false} LowByte(a: nat, x: nat)
    requires a < 256
    ensures And(a + 256 * x, 0xFF) == a
    ensures Shr(a + 256 * x, 8) == x
  {
    hide And, Shl, LowBits, Shr;
    EightShift(x);
    AndLowMask(a + 256 * x, 8);
    ShrUnique(x, a, 8);
  }

  /** Four lanes of one byte each. */
  function Four(a: nat, b: nat, c: nat, d: nat): nat {
    a + 0x100 * b + 0x10000 * c + 0x1000000 * d
  }

  /** Ten times each lane plus the next one: no lane overflows into its neighbour. */
  lemma {:induction false} PairedLanes(d0: nat, d1: nat, d2: nat, d3: nat, d4: nat, d5: nat, d6: nat, d7: nat)
    requires d0 <= 9 && d1 <= 9 && d2 <= 9 && d3 <= 9 && d4 <= 9 && d5 <= 9 && d6 <= 9 && d7 <= 9
    ensures var val := Four(d0, d1, d2, d3) + HALF * Four(d4, d5, d6, d7);
            && (val + 0x3030303030303030 - 0x3030303030303030) % BASE == val
            && (val * 10 + Shr(val, 8)) % BASE ==
                 Four(10 * d0 + d1, 10 * d1 + d2, 10 * d2 + d3, 10 * d3 + d4)
                 + HALF * Four(10 * d4 + d5, 10 * d5 + d6, 10 * d6 + d7, 10 * d7)
  {
    hide Shr;
    var val := Four(d0, d1, d2, d3) + HALF * Four(d4, d5, d6, d7);
    var rest := d1 + 0x100 * d2 + 0x10000 * d3 + 0x1000000 * Four(d4, d5, d6, d7);
    var target := Four(10 * d0 + d1, 10 * d1 + d2, 10 * d2 + d3, 10 * d3 + d4)
                + HALF * Four(10 * d4 + d5, 10 * d5 + d6, 10 * d6 + d7, 10 * d7);
    assert Shr(val, 8) == rest by { LowByte(d0, rest); }
    assert val * 10 + rest == target < BASE;
    ModSmall(target, BASE);
    ModSmall(val, BASE);
  }

  lemma FourBelow(a: nat, b: nat, c: nat, d: nat)
    requires a < 256 && b < 256 && c < 256 && d < 256
    ensures Four(a, b, c, d) < HALF
    ensures Four(a, b, c, d) == a + 256 * (b + 0x100 * c + 0x10000 * d)
  {}

  /** The two multiplications leave their sums in the upper half; what passes 2^64 is dropped. */
  lemma WeighFirst(a: nat, c: nat)
    requires a <= 99 && c <= 99
    ensures (a + HALF * c) * 0x000F424000000064 % BASE == 100 * a + HALF * (1000000 * a + 100 * c)
  {
    WrapMultiple(100 * a + HALF * (1000000 * a + 100 * c), 1000000 * c);
  }

  lemma WeighSecond(a: nat, c: nat)
    requires a <= 99 && c <= 99
    ensures (a + HALF * c) * 0x0000271000000001 % BASE == a + HALF * (10000 * a + c)
  {
    WrapMultiple(a + HALF * (10000 * a + c), 10000 * c);
  }

  lemma {:induction false} UpperHalf(x: nat, y: nat, low: nat, high: nat)
    requires x + y == low + HALF * high && low < HALF && high < HALF
    ensures Shr((x + y) % BASE, 32) % HALF == high
  {
    hide Shr;
    ModSmall(x + y, BASE);
    ModSmall(high, HALF);
    ThirtyTwoShift(high);
    BasePowers();
    ShrUnique(high, low, 32);
  }

  lemma {:induction false} WeighedIs(e0: nat, e2: nat, e4: nat, e6: nat)
    requires e0 <= 99 && e2 <= 99 && e4 <= 99 && e6 <= 99
    ensures Weighed(e0 + HALF * e4, e2 + HALF * e6) == 1000000 * e0 + 10000 * e2 + 100 * e4 + e6
  {
    hide Shr;
    WeighFirst(e0, e4);
    WeighSecond(e2, e6);
    UpperHalf((e0 + HALF * e4) * 0x000F424000000064 % BASE, (e2 + HALF * e6) * 0x0000271000000001 % BASE,
              100 * e0 + e2, 1000000 * e0 + 10000 * e2 + 100 * e4 + e6);
  }

  lemma {:induction false} CombinePairs(e0: nat, e1: nat, e2: nat, e3: nat, e4: nat, e5: nat, e6: nat, e7: nat)
    requires e0 <= 99 && e1 <= 99 && e2 <= 99 && e3 <= 99 && e4 <= 99 && e5 <= 99 && e6 <= 99 && e7 <= 99
    ensures Combine(Four(e0, e1, e2, e3) + HALF * Four(e4, e5, e6, e7)) == 1000000 * e0 + 10000 * e2 + 100 * e4 + e6
  {
    hide And, Shr, Four, Weighed;
    var pairs := Four(e0, e1, e2, e3) + HALF * Four(e4, e5, e6, e7);
    assert And(pairs, 0x000000FF000000FF) == e0 + HALF * e4 by {
      FourBelow(e0, e1, e2, e3);
      FourBelow(e4, e5, e6, e7);
      PickLanes(e0, e1 + 0x100 * e2 + 0x10000 * e3, e4, e5 + 0x100 * e6 + 0x10000 * e7);
    }
    assert And(Shr(pairs, 16), 0x000000FF000000FF) == e2 + HALF * e6 by {
      SixteenDown(e0, e1, e2, e3, e4, e5, e6, e7);
      FourBelow(e2, e3, e4, e5);
      PickLanes(e2, e3 + 0x100 * e4 + 0x10000 * e5, e6, e7);
    }
    WeighedIs(e0, e2, e4, e6);
  }

  lemma {:induction false} SixteenDown(e0: nat, e1: nat, e2: nat, e3: nat, e4: nat, e5: nat, e6: nat, e7: nat)
    requires e0 <= 99 && e1 <= 99
    ensures Shr(Four(e0, e1, e2, e3) + HALF * Four(e4, e5, e6, e7), 16) == Four(e2, e3, e4, e5) + HALF * (e6 + 256 * e7)
  {
    hide Shr, Shl;
    var high := Four(e2, e3, e4, e5) + HALF * (e6 + 256 * e7);
    BasePowers();
    ShlIsPow(high, 16);
    ShrUnique(high, e0 + 256 * e1, 16);
  }

  /** On eight digits the reader returns their decimal value. */
  lemma {:induction false} EightDigitsValue(s: seq<byte>)
    requires |s| == 8 && AllDigits(s)
    ensures ParseEightDigitsUnrolled(Read8(s)) == Dec(s)
  {
    hide Combine, Shr, Four;
    var d0, d1, d2, d3 := Digit(s[0]), Digit(s[1]), Digit(s[2]), Digit(s[3]);
    var d4, d5, d6, d7 := Digit(s[4]), Digit(s[5]), Digit(s[6]), Digit(s[7]);
    LanesOfDigits(s);
    PairedLanes(d0, d1, d2, d3, d4, d5, d6, d7);
    CombinePairs(10 * d0 + d1, 10 * d1 + d2, 10 * d2 + d3, 10 * d3 + d4, 10 * d4 + d5, 10 * d5 + d6, 10 * d6 + d7, 10 * d7);
    DecOfEight(s);
  }

  lemma {:induction false} LanesOfDigits(s: seq<byte>)
    requires |s| == 8 && AllDigits(s)
    ensures Lanes(s) == Four(Digit(s[0]), Digit(s[1]), Digit(s[2]), Digit(s[3]))
                      + HALF * Four(Digit(s[4]), Digit(s[5]), Digit(s[6]), Digit(s[7])) + 0x3030303030303030
  {
    hide Lanes;
    LanesAt(s, 0); LanesAt(s, 1); LanesAt(s, 2); LanesAt(s, 3);
    LanesAt(s, 4); LanesAt(s, 5); LanesAt(s, 6); LanesAt(s, 7);
    assert s[0..] == s;
    NoLanes(s[8..]);
  }

  lemma NoLanes(s: seq<byte>)
    requires |s| == 0
    ensures Lanes(s) == 0
  {}

  lemma {:induction false} LanesAt(s: seq<byte>, i: nat)
    requires i < |s|
    ensures Lanes(s[i..]) == s[i] as int + 256 * Lanes(s[i + 1..])
  {
    assert s[i..][1..] == s[i + 1..];
  }

  lemma {:induction false} DecOfEight(s: seq<byte>)
    requires |s| == 8
    ensures Dec(s) == 10000000 * Digit(s[0]) + 1000000 * Digit(s[1]) + 100000 * Digit(s[2]) + 10000 * Digit(s[3])
                    + 1000 * Digit(s[4]) + 100 * Digit(s[5]) + 10 * Digit(s[6]) + Digit(s[7])
  {
    DecTake(s, 0); DecTake(s, 1); DecTake(s, 2); DecTake(s, 3);
    DecTake(s, 4); DecTake(s, 5); DecTake(s, 6); DecTake(s, 7);
    assert s[..0] == [] && s[..8] == s;
  }

  lemma {:induction false} DecTake(s: seq<byte>, i: nat)
    requires i < |s|
    ensures Dec(s[..i + 1]) == 10 * Dec(s[..i]) + Digit(s[i])
  {
    assert s[..i + 1] == s[..i] + [s[i]];
    DecSnoc(s[..i], s[i]);
  }

  // ---------- accumulating digits, modulo 2^64 ----------

  lemma WrapStep(x: nat, m: nat, a: nat)
    ensures ((x % BASE) * m + a) % BASE == (x * m + a) % BASE
  {
    var q, r := x / BASE, x % BASE;
    assert x * m + a == BASE * (q * m) + (r * m + a) by { Distribute(q * BASE, r, m); assert q * BASE * m == BASE * (q * m); }
    WrapMultiple(r * m + a, q * m);
  }

  lemma WrapMultiple(x: int, k: int)
    ensures (BASE * k + x) % BASE == x % BASE
  {
    DivModUnique(BASE * k + x, BASE, k + x / BASE, x % BASE);
  }

  /** Consume eight digits at a time while there are eight. */
  method LoopParseIfEightDigits(text: seq<byte>, start: nat, i0: Limb) returns (p: nat, i: Limb)
    requires start <= |text|
    ensures start <= p <= |text| && AllDigits(text[start..p])
    ensures i == (Tens(i0, p - start) + Dec(text[start..p])) % BASE
    ensures |text| - p >= 8 ==> !AllDigits(text[p..p + 8])
  {
    hide ParseEightDigitsUnrolled, IsMadeOfEightDigitsFast, Tens, Dec;
    p, i := start, i0;
    TensNone(i0);
    DecEmpty();
    assert text[start..p] == [];
    while |text| - p >= 8 && IsMadeOfEightDigitsFast(Read8(text[p..p + 8]))
      invariant start <= p <= |text| && AllDigits(text[start..p])
      invariant i == (Tens(i0, p - start) + Dec(text[start..p])) % BASE
    {
      ghost var chunk, total := text[p..p + 8], Tens(i0, p - start) + Dec(text[start..p]);
      EightDigitsTest(chunk);
      EightDigitsValue(chunk);
      i := (i * 100000000 + ParseEightDigitsUnrolled(Read8(text[p..p + 8]))) % BASE;
      WrapStep(total, 100000000, Dec(chunk));
      assert text[start..p + 8] == text[start..p] + chunk;
      DecConcat(text[start..p], chunk);
      EightTens(total);
      TensAdd(Tens(i0, p - start), Dec(text[start..p]), 8);
      TensTens(i0, p - start, 8);
      p := p + 8;
    }
    if |text| - p >= 8 { EightDigitsTest(text[p..p + 8]); }
  }

  lemma TensNone(v: nat)
    ensures Tens(v, 0) == v
  {}

  lemma {:induction false} EightTens(v: nat)
    ensures Tens(v, 8) == v * 100000000
  {
    TensIsPow(v, 8);
    assert Pow(10, 8) == 100000000;
  }
}
