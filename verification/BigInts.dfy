/** The stack-allocated big integer: at most 62 limbs, every operation in place. */
module BigInts {
  import opened Bits
  import opened Limbs

  const LIMBS: nat := 62  // 4000 bits / 64

  // ---------- the two carry loops, on values ----------

  /** `done` holds the limbs already written, the rest of `s` is still to come, `carry` is in between. */
  ghost predicate Adding(s: seq<Limb>, done: seq<Limb>, carry: Limb, total: int) {
    && |done| <= |s|
    && Value(done) + Up(carry, |done|) == Value(s[..|done|]) + total
  }

  lemma {:induction false} AddingStep(s: seq<Limb>, done: seq<Limb>, carry: Limb, total: int, y: Limb, z: Limb, c: Limb)
    requires Adding(s, done, carry, total) && |done| < |s|
    requires z + c * BASE == s[|done|] + y + carry
    ensures Adding(s, done + [z], c, total + Up(y, |done|))
  {
    var i := |done|;
    SnocTake(s, i);
    ValueSnoc(done, z);
    LimbSum(s[i], y, carry, z, c, i);
    assert |done + [z]| == i + 1;
  }

  lemma {:induction false} LimbSum(x: Limb, y: Limb, carry: Limb, z: Limb, c: Limb, i: nat)
    requires z + c * BASE == x + y + carry
    ensures Up(z, i) + Up(c, i + 1) == Up(x, i) + Up(y, i) + Up(carry, i)
  {
    UpAdd(x + y, carry, i);
    UpAdd(x, y, i);
    CarryUp(z, c, i);
  }

  lemma {:induction false} LimbProduct(x: Limb, y: Limb, carry: Limb, z: Limb, c: Limb, i: nat)
    requires z + c * BASE == x * y + carry
    ensures Up(z, i) + Up(c, i + 1) == Up(x, i) * y + Up(carry, i)
  {
    UpAdd(x * y, carry, i);
    UpTimes(x, y, i);
    CarryUp(z, c, i);
  }

  lemma {:induction false} SnocTake(s: seq<Limb>, i: nat)
    requires i < |s|
    ensures Value(s[..i + 1]) == Value(s[..i]) + Up(s[i], i)
  {
    ValueSnoc(s[..i], s[i]);
    assert s[..i + 1] == s[..i] + [s[i]];
  }

  lemma {:induction false} CarryUp(z: Limb, c: nat, i: nat)
    ensures Up(z + c * BASE, i) == Up(z, i) + Up(c, i + 1)
  {
    UpAdd(z, c * BASE, i);
    UpUp(c, 1, i);
    assert Up(c, 1) == BASE * Up(c, 0);
  }

  ghost predicate Multiplying(s: seq<Limb>, done: seq<Limb>, carry: Limb, y: Limb) {
    && |done| <= |s|
    && Value(done) + Up(carry, |done|) == Value(s[..|done|]) * y
  }

  lemma {:induction false} MultiplyingStep(s: seq<Limb>, done: seq<Limb>, carry: Limb, y: Limb, z: Limb, c: Limb)
    requires Multiplying(s, done, carry, y) && |done| < |s|
    requires z + c * BASE == s[|done|] * y + carry
    ensures Multiplying(s, done + [z], c, y)
  {
    var i := |done|;
    SnocTake(s, i);
    ValueSnoc(done, z);
    LimbProduct(s[i], y, carry, z, c, i);
    Distribute(Value(s[..i]), Up(s[i], i), y);
    assert |done + [z]| == i + 1;
  }

  /** The outcome of an operation meant to leave `target` in `cap` limbs: done, or reported as not fitting. */
  ghost predicate Became(after: seq<Limb>, ok: bool, target: int, cap: nat) {
    && (ok <==> target < Up(1, cap))
    && (ok ==> Value(after) == target)
  }

  /** What stays in the limbs when an overflow is ignored. */
  ghost predicate Wrapped(after: seq<Limb>, target: int, cap: nat) {
    Up(1, cap) > 0 && Value(after) == target % Up(1, cap)
  }

  lemma {:induction false} FittedWraps(after: seq<Limb>, target: nat, cap: nat)
    requires Became(after, true, target, cap)
    ensures Wrapped(after, target, cap)
  {
    hide Value, Up;
    ModSmall(target, Up(1, cap));
  }

  lemma {:induction false} CarryWraps(v: seq<Limb>, carry: nat, target: int)
    requires Value(v) + Up(carry, |v|) == target
    ensures Wrapped(v, target, |v|)
  {
    hide Value, Up;
    ValueBound(v);
    UpTimes(1, carry, |v|);
    assert carry * 1 == carry;
    DivModUnique(target, Up(1, |v|), carry, Value(v));
  }

  /** A carry left at the end is either a new top limb or an overflow. */
  lemma {:induction false} CarryOut(v: seq<Limb>, carry: nat, target: int, cap: nat)
    requires |v| <= cap
    requires Value(v) + Up(carry, |v|) == target
    ensures carry == 0 ==> Became(v, true, target, cap)
    ensures 0 < carry < BASE && |v| < cap ==> Became(v + [carry], true, target, cap)
    ensures carry != 0 && |v| == cap ==> Became(v, false, target, cap)
  {
    if carry == 0 {
      ValueBound(v);
      UpZero(|v|);
      UpLonger(1, |v|, cap);
    } else if |v| < cap && carry < BASE {
      ValueSnoc(v, carry);
      ValueBound(v + [carry]);
      UpLonger(1, |v| + 1, cap);
    } else {
      UpMonotone(1, carry, |v|);
    }
  }

  lemma AddingNothing(s: seq<Limb>, y: Limb)
    ensures Adding(s, s, y, Up(y, |s|))
  {
    assert s[..|s|] == s;
  }

  lemma {:induction false} AddingDone(s: seq<Limb>, done: seq<Limb>, carry: Limb, total: int, cap: nat)
    requires Adding(s, done, carry, total) && |s| <= cap
    requires carry == 0 || |done| == |s|
    ensures carry == 0 ==> Became(done + s[|done|..], true, Value(s) + total, cap)
    ensures carry != 0 && |s| < cap ==> Became(done + [carry], true, Value(s) + total, cap)
    ensures carry != 0 && |s| == cap ==> Became(done, false, Value(s) + total, cap)
  {
    var i := |done|;
    ValueSplit(s, i);
    ValueConcat(done, s[i..]);
    if carry != 0 {
      assert s[..i] == s && done + s[i..] == done;
    } else {
      UpZero(i);
      UpZero(|s|);
    }
    CarryOut(done + s[i..], carry, Value(s) + total, cap);
  }

  /** However the carry loop ends, the sum is there, or its low part and the report that it does not fit. */
  lemma {:induction false} AddingEnds(s: seq<Limb>, v: seq<Limb>, end: nat, carry: Limb, total: int, cap: nat)
    requires end <= |v| == |s| <= cap && Adding(s, v[..end], carry, total) && v[end..] == s[end..]
    requires carry == 0 || end == |v|
    ensures carry == 0 ==> Became(v, true, Value(s) + total, cap) && Wrapped(v, Value(s) + total, cap)
    ensures carry != 0 && |v| < cap ==>
              Became(v + [carry], true, Value(s) + total, cap) && Wrapped(v + [carry], Value(s) + total, cap)
    ensures carry != 0 && |v| == cap ==> Became(v, false, Value(s) + total, cap) && Wrapped(v, Value(s) + total, cap)
  {
    hide Value, Up, Adding, Wrapped;
    var target := Value(s) + total;
    assert v == v[..end] + s[end..];
    AddingDone(s, v[..end], carry, total, cap);
    AddingSoFar(s, v[..end], carry, total);
    if carry == 0 {
      FittedWraps(v, target, cap);
    } else {
      assert v[..end] == v;
      if |v| < cap { FittedWraps(v + [carry], target, cap); } else { CarryWraps(v, carry, target); }
    }
  }

  /** What the limbs are worth while the last carry is still to be added. */
  lemma {:induction false} AddingSoFar(s: seq<Limb>, done: seq<Limb>, carry: Limb, total: int)
    requires Adding(s, done, carry, total)
    ensures Value(done + s[|done|..]) + Up(carry, |done|) == Value(s) + total
  {
    ValueSplit(s, |done|);
    ValueConcat(done, s[|done|..]);
  }

  lemma {:induction false} NextDigit(y: seq<Limb>, index: nat, start: nat)
    requires index < |y|
    ensures Up(Value(y[..index + 1]), start) == Up(Value(y[..index]), start) + Up(y[index], start + index)
  {
    SnocTake(y, index);
    UpAdd(Value(y[..index]), Up(y[index], index), start);
    UpUp(y[index], index, start);
  }

  lemma {:induction false} MultiplyingDone(s: seq<Limb>, done: seq<Limb>, carry: Limb, y: Limb, cap: nat)
    requires Multiplying(s, done, carry, y) && |done| == |s| <= cap
    ensures carry == 0 ==> Became(done, true, Value(s) * y, cap)
    ensures carry != 0 && |s| < cap ==> Became(done + [carry], true, Value(s) * y, cap)
    ensures carry != 0 && |s| == cap ==> Became(done, false, Value(s) * y, cap)
  {
    assert s[..|done|] == s;
    CarryOut(done, carry, Value(s) * y, cap);
  }

  // ---------- powers of five ----------

  const LARGE_STEP: nat := 135
  const SMALL_STEP: nat := 27
  const MAX_NATIVE: Limb := 7450580596923828125

  const SMALL_POWER_OF_5: seq<Limb> := [
    1, 5, 25, 125, 625, 3125, 15625, 78125, 390625,
    1953125, 9765625, 48828125, 244140625, 1220703125,
    6103515625, 30517578125, 152587890625, 762939453125,
    3814697265625, 19073486328125, 95367431640625, 476837158203125,
    2384185791015625, 11920928955078125, 59604644775390625,
    298023223876953125, 1490116119384765625, 7450580596923828125
  ]

  const LARGE_POWER_OF_5: seq<Limb> := [
    1414648277510068013, 9180637584431281687, 4539964771860779200,
    10482974169319127550, 198276706040285095
  ]

  /** Every entry of the small table is the power its index says. */
  lemma {:induction false} SmallPower(e: nat)
    requires e < |SMALL_POWER_OF_5|
    ensures SMALL_POWER_OF_5[e] == Pow(5, e) > 0
  {
    if e > 0 { SmallPower(e - 1); }
  }

  /** The five limbs of the large table entry are 5^135. */
  lemma {:induction false} LargePower()
    ensures Value(LARGE_POWER_OF_5) == Pow(5, LARGE_STEP) > 0
    ensures |LARGE_POWER_OF_5| > 0
  {
    SmallPower(SMALL_STEP);
    PowAdd(5, 27, 27);
    PowAdd(5, 54, 54);
    PowAdd(5, 108, 27);
    var s := LARGE_POWER_OF_5;
    assert Value(s[5..]) == 0;
    assert s[4..][1..] == s[5..] && s[3..][1..] == s[4..] && s[2..][1..] == s[3..] && s[1..][1..] == s[2..];
  }

  class BigInt {
    const data: array<Limb>
    var length: nat

    ghost predicate Valid()
      reads this
    {
      data.Length == LIMBS && length <= LIMBS
    }

    /** The limbs in use, least significant first. */
    ghost function Vec(): (s: seq<Limb>)
      requires Valid()
      reads this, data
    {
      data[..length]
    }

    /** The number represented. */
    ghost function Num(): nat
      requires Valid()
      reads this, data
    {
      Value(Vec())
    }

    /** The first number that needs more limbs than there are. */
    ghost function Limit(): nat {
      Up(1, data.Length)
    }

    constructor ()
      ensures Valid() && fresh(data) && Vec() == []
    {
      data := new Limb[LIMBS];
      length := 0;
    }

    constructor FromU64(value: Limb)
      ensures Valid() && fresh(data) && Normalized(Vec()) && Num() == value
    {
      data := new Limb[LIMBS];
      length := 0;
      new;
      data[0] := value;
      length := 1;
      assert Vec() == [value];
      ValueSnoc([], value);
      Normalize();
    }

    method TryPush(value: Limb) returns (ok: bool)
      requires Valid()
      modifies this`length, data
      ensures Valid()
      ensures ok <==> old(length) < data.Length
      ensures Vec() == if ok then old(Vec()) + [value] else old(Vec())
    {
      if length < data.Length {
        data[length] := value;
        length := length + 1;
        return true;
      }
      return false;
    }

    method TryExtend(s: seq<Limb>) returns (ok: bool)
      requires Valid()
      modifies this`length, data
      ensures Valid()
      ensures ok <==> old(length) + |s| <= data.Length
      ensures Vec() == if ok then old(Vec()) + s else old(Vec())
    {
      if length + |s| <= data.Length {
        forall i | 0 <= i < |s| { data[length + i] := s[i]; }
        length := length + |s|;
        assert Vec() == old(Vec()) + s;
        return true;
      }
      return false;
    }

    /** Grow with copies of `value`, or cut. */
    method TryResize(newLen: nat, value: Limb) returns (ok: bool)
      requires Valid()
      modifies this`length, data
      ensures Valid()
      ensures ok <==> newLen <= data.Length
      ensures ok && newLen >= old(length) ==> Vec() == old(Vec()) + seq(newLen - old(length), _ => value)
      ensures ok && newLen < old(length) ==> Vec() == old(Vec())[..newLen]
      ensures !ok ==> Vec() == old(Vec())
    {
      if newLen > data.Length {
        return false;
      }
      if newLen > length {
        forall i | length <= i < newLen { data[i] := value; }
      }
      length := newLen;
      assert newLen >= old(length) ==> Vec() == old(Vec()) + seq(newLen - old(length), _ => value);
      return true;
    }

    /** Whether a limb at or below position `index`, counted from the most significant one, is not zero. */
    method Nonzero(index: nat) returns (found: bool)
      requires Valid()
      ensures found <==> index < length && Value(Vec()[..length - index]) != 0
    {
      var i := index;
      while i < length
        invariant index <= i && (i <= length || i == index)
        invariant forall k :: length - i <= k < length - index ==> data[k] == 0
      {
        if data[length - i - 1] != 0 {
          ValueNonzero(Vec()[..length - index], length - i - 1);
          return true;
        }
        i := i + 1;
      }
      if index < length { ValueZeros(Vec()[..length - index]); }
      return false;
    }

    /** Drop the most significant zero limbs. */
    method Normalize()
      requires Valid()
      modifies this`length
      ensures Valid() && Normalized(Vec())
      ensures length <= old(length) && Vec() == old(Vec())[..length]
      ensures Num() == old(Num())
    {
      while length > 0 && data[length - 1] == 0
        invariant Valid() && length <= old(length)
        invariant Num() == old(Num())
      {
        ValueSnoc(data[..length - 1], 0);
        UpZero(length - 1);
        assert data[..length] == data[..length - 1] + [0];
        length := length - 1;
      }
    }

    /** The carry loop: from `start` on, as far as there is a carry and a limb for it. */
    method AddCarry(y: Limb, start: nat) returns (carry: Limb, ghost end: nat)
      requires Valid()
      modifies data
      ensures end <= length && (carry == 0 || end == length)
      ensures Adding(old(Vec()), Vec()[..end], carry, Up(y, if start < length then start else length))
      ensures Vec()[end..] == old(Vec())[end..]
      ensures carry == 0 && Normalized(old(Vec())) ==> Normalized(Vec())
    {
      hide Up, Value;
      ghost var s := Vec();
      ghost var at := if start < length then start else length;
      var index := start;
      carry := y;
      var overflow;
      assert data[..at] == s[..at];
      while carry != 0 && index < length
        invariant at <= index && length == |s| && (index <= length || (index == start && carry == y))
        invariant forall k :: index <= k < length ==> data[k] == s[k]
        invariant index <= length ==> Adding(s, data[..index], carry, Up(y, at))
        invariant index > length ==> Vec() == s
        invariant index == length > 0 && s[length - 1] != 0 && carry == 0 ==> data[length - 1] != 0
      {
        ghost var was, done := carry, data[..index];
        data[index], overflow := ScalarAdd(data[index], carry);
        carry := if overflow then 1 else 0;
        index := index + 1;
        assert data[..index] == done + [data[index - 1]];
        AddingStep(s, done, was, Up(y, at), 0, data[index - 1], carry);
        UpZero(index - 1);
      }
      end := if index < length then index else length;
      assert Vec()[..end] == data[..end];
      if index > length { AddingNothing(s, y); }
    }

    /** Add y * BASE^start; a start beyond the limbs in use counts as their number. */
    method SmallAddFrom(y: Limb, start: nat) returns (ok: bool)
      requires Valid()
      modifies this`length, data
      ensures Valid()
      ensures Became(Vec(), ok, old(Num()) + Up(y, if start < old(length) then start else old(length)), data.Length)
      ensures ok && Normalized(old(Vec())) ==> Normalized(Vec())
      ensures Wrapped(Vec(), old(Num()) + Up(y, if start < old(length) then start else old(length)), data.Length)
    {
      hide Up, Value, Adding, Became, Wrapped;
      ghost var s := Vec();
      ghost var total := Up(y, if start < length then start else length);
      var carry;
      ghost var end;
      carry, end := AddCarry(y, start);
      AddingEnds(s, Vec(), end, carry, total, data.Length);
      if carry == 0 {
        return true;
      }
      ok := TryPush(carry);
    }

    /** Multiply by one limb. */
    method SmallMul(y: Limb) returns (ok: bool)
      requires Valid()
      modifies this`length, data
      ensures Valid()
      ensures Became(Vec(), ok, old(Num()) * y, data.Length)
      ensures ok && Normalized(old(Vec())) && y != 0 ==> Normalized(Vec())
      ensures Wrapped(Vec(), old(Num()) * y, data.Length)
    {
      hide Up, Value;
      ghost var s := Vec();
      ValueZeros([]);
      UpZero(0);
      assert s[..0] == [];
      var carry: Limb := 0;
      var index := 0;
      while index < length
        invariant 0 <= index <= length == |s| == old(length)
        invariant forall k :: index <= k < length ==> data[k] == s[k]
        invariant Multiplying(s, data[..index], carry, y)
        invariant index > 0 && s[index - 1] != 0 && y != 0 && carry == 0 ==> data[index - 1] != 0
      {
        ghost var was, done := carry, data[..index];
        data[index], carry := ScalarMul(data[index], y, carry);
        MultiplyingStep(s, done, was, y, data[index], carry);
        index := index + 1;
        assert data[..index] == done + [data[index - 1]];
      }
      assert y != 0 && carry == 0 && Normalized(s) ==> Normalized(Vec());
      MultiplyingDone(s, Vec(), carry, y, data.Length);
      ghost var product := Value(s) * y;
      if carry != 0 {
        assert s[..|s|] == s;
        ghost var v := Vec();
        ok := TryPush(carry);
        if ok { FittedWraps(Vec(), product, data.Length); } else { CarryWraps(v, carry, product); }
        return ok;
      }
      FittedWraps(Vec(), product, data.Length);
      return true;
    }

    /** Widen with zero limbs; the number stays. */
    method Widen(newLen: nat) returns (ok: bool)
      requires Valid() && newLen >= length
      modifies this`length, data
      ensures Valid()
      ensures ok <==> newLen <= data.Length
      ensures ok ==> length == newLen && Num() == old(Num())
    {
      ghost var before := Vec();
      ok := TryResize(newLen, 0);
      if ok {
        ghost var zeros := Vec()[|before|..];
        assert Vec() == before + zeros;
        ValueZeros(zeros);
        ValueConcat(before, zeros);
        UpZero(|before|);
      }
    }

    /** Add the limbs of `y` from position `start` on; what is carried out of the last one is not added. */
    method AddLimbs(y: seq<Limb>, start: nat) returns (carry: bool)
      requires Valid() && |y| + start <= length
      modifies data
      ensures Num() + Up(if carry then 1 else 0, |y| + start) == old(Num()) + Up(Value(y), start)
    {
      hide Up, Value;
      ghost var s := Vec();
      ghost var c: Limb, done := 0, s[..start];
      carry := false;
      var index := 0;
      ValueZeros(y[..0]);
      UpZero(start);
      while index < |y|
        invariant 0 <= index <= |y| && |done| == start + index <= |s|
        invariant data[..start + index] == done
        invariant forall k :: start + index <= k < length ==> data[k] == s[k]
        invariant c == if carry then 1 else 0
        invariant Adding(s, done, c, Up(Value(y[..index]), start))
      {
        var xi, yi := data[index + start], y[index];
        var c1, c2 := false, false;
        xi, c1 := ScalarAdd(xi, yi);
        if carry {
          xi, c2 := ScalarAdd(xi, 1);
        }
        data[index + start] := xi;
        carry := c1 || c2;
        AddingStep(s, done, c, Up(Value(y[..index]), start), yi, xi, if carry then 1 else 0);
        NextDigit(y, index, start);
        c := if carry then 1 else 0;
        done := done + [xi];
        index := index + 1;
      }
      assert y[..index] == y;
      assert Vec() == done + s[|done|..];
      AddingSoFar(s, done, c, Up(Value(y), start));
    }

    /** Add y * BASE^start, widening first when the sum's top lies beyond the limbs in use. */
    method LargeAddFrom(y: seq<Limb>, start: nat) returns (ok: bool)
      requires Valid()
      modifies this`length, data
      ensures Valid()
      ensures ok ==> Became(Vec(), true, old(Num()) + Up(Value(y), start), data.Length)
      ensures !ok ==> |y| + start > data.Length || old(Num()) + Up(Value(y), start) >= Limit()
    {
      hide Up, Value;
      ghost var target := Num() + Up(Value(y), start);
      if length < start || |y| > length - start {
        ok := Widen(|y| + start);
        if !ok { return false; }
      }
      assert Num() + Up(Value(y), start) == target;
      var carry := AddLimbs(y, start);
      if carry {
        ghost var sum := Num() + Up(1, |y| + start);
        ok := SmallAddFrom(1, |y| + start);
        assert Became(Vec(), ok, sum, data.Length);
        assert sum == target;
      } else {
        assert Num() == target by { UpZero(|y| + start); }
        UpZero(length);
        CarryOut(Vec(), 0, target, data.Length);
        ok := true;
      }
    }

    /** One row of a product, in a vector of its own. */
    static method Row(zs: seq<Limb>, yi: Limb) returns (ok: bool, zis: seq<Limb>)
      requires |zs| <= LIMBS && yi != 0
      ensures ok <==> Value(zs) * yi < Up(1, LIMBS)
      ensures ok ==> Value(zis) == Value(zs) * yi && (Normalized(zs) ==> Normalized(zis))
    {
      hide Up, Value;
      var zi := new BigInt();
      ok := zi.TryExtend(zs);
      assert zi.Vec() == zs;
      ok := zi.SmallMul(yi);
      zis := zi.Snapshot();
    }

    /** Add one row of a product: zs * yi, moved up by `index` limbs. */
    method AddRow(zs: seq<Limb>, yi: Limb, index: nat) returns (ok: bool)
      requires Valid() && |zs| <= data.Length && yi != 0
      modifies this`length, data
      ensures Valid()
      ensures ok ==> Num() == old(Num()) + Up(Value(zs) * yi, index)
      ensures !ok && Normalized(zs) && Value(zs) > 0 ==>
        Value(zs) * yi >= Limit() || old(Num()) + Up(Value(zs) * yi, index) >= Limit()
      ensures !ok && zs == [] ==> index > data.Length
    {
      hide Up, Value;
      LimitIs();
      NothingIs(zs);
      NoneTimes(yi);
      ValueBound(Vec());
      UpLonger(1, length, data.Length);
      var zis;
      ok, zis := Row(zs, yi);
      if !ok { return; }
      if zs == [] { NothingIs(zis); UpZero(index); }
      ok := LargeAddFrom(zis, index);
      if !ok && Normalized(zs) && Value(zs) > 0 && |zis| + index > data.Length {
        ProductPositive(Value(zs), yi);
        RowTooLong(zis, index, data.Length);
      }
    }

    /** Grade-school multiplication; an empty `y` leaves the number as it is. */
    method LongMul(y: seq<Limb>) returns (ok: bool)
      requires Valid()
      modifies this`length, data
      ensures Valid()
      ensures ok ==> Num() == (if |y| == 0 then old(Num()) else old(Num()) * Value(y)) && Normalized(Vec())
      ensures !ok && Normalized(old(Vec())) && old(Num()) > 0 ==> old(Num()) * Value(y) >= Limit()
      ensures !ok ==> |y| > 0 && (old(Vec()) == [] ==> |y| > data.Length)
    {
      hide Up, Value;
      LimitIs();
      if Vec() == [] { NothingIs(Vec()); }
      ghost var v, target := Num(), Num() * Value(y);
      var zs := Snapshot();
      if |y| != 0 {
        FirstDigit(zs, y);
        ok := SmallMul(y[0]);
        if !ok { return; }
        var index := 1;
        while index < |y|
          invariant 1 <= index <= |y| && Valid()
          invariant Num() == v * Value(y[..index])
        {
          var yi := y[index];
          DigitTimes(zs, y, index);
          DigitBound(zs, y, index);
          if yi != 0 {
            ok := AddRow(zs, yi, index);
            if !ok { return; }
          }
          index := index + 1;
        }
        assert y[..index] == y;
      }
      Normalize();
      ok := true;
    }

    /** Zero and numbers that are not normalized included; only an empty `y` is no number. */
    method LargeMul(y: seq<Limb>) returns (ok: bool)
      requires Valid()
      modifies this`length, data
      ensures Valid()
      ensures ok ==> Num() == if |y| == 0 then old(Num()) else old(Num()) * Value(y)
      ensures |y| > 0 && Normalized(old(Vec())) && old(Num()) > 0 ==> (ok <==> old(Num()) * Value(y) < Limit())
      ensures |y| == 0 || (old(Vec()) == [] && |y| <= data.Length) ==> ok
      ensures ok && (|y| == 1 ==> Normalized(old(Vec())) && y[0] != 0) ==> Normalized(Vec())
    {
      hide Up, Value;
      LimitIs();
      if Vec() == [] { NothingIs(Vec()); }
      if |y| == 1 {
        ValueOne(y[0]);
        NoneTimes(y[0]);
        assert y == [y[0]];
        ok := SmallMul(y[0]);
      } else {
        ok := LongMul(y);
        ValueBound(Vec());
        UpLonger(1, length, data.Length);
      }
    }

    lemma {:induction false} LimitIs()
      ensures Limit() == Up(1, data.Length) > 0
    {
      UpLonger(1, 0, data.Length);
    }

    /** Shift left by 1..63 bits. */
    method ShlBits(n: nat) returns (ok: bool)
      requires Valid() && 0 < n < 64
      modifies this`length, data
      ensures Valid()
      ensures Became(Vec(), ok, Bits.Shl(old(Num()), n), data.Length)
      ensures ok && Normalized(old(Vec())) ==> Normalized(Vec())
    {
      hide Up, Value, Pow, Or, Bits.Shl, Shr;
      ghost var s := Vec();
      var shr := 64 - n;
      var prev: Limb := 0;
      ShiftingStart(s, n);
      var index := 0;
      while index < length
        invariant 0 <= index <= length == |s| == old(length)
        invariant forall k :: index <= k < length ==> data[k] == s[k]
        invariant Shr(prev, shr) < Pow(2, n)
        invariant Shifting(s, data[..index], Shr(prev, shr), n)
        invariant index > 0 && s[index - 1] != 0 && Shr(prev, shr) == 0 ==> data[index - 1] != 0
      {
        ghost var was, done := Shr(prev, shr), data[..index];
        var xi := data[index];
        ShiftLimb(xi, was, n);
        data[index] := Or(Bits.Shl(xi, n) % BASE, Shr(prev, shr));
        prev := xi;
        ShiftingStep(s, done, was, n, data[index], Shr(xi, shr));
        index := index + 1;
        assert data[..index] == done + [data[index - 1]];
      }
      assert Shr(prev, shr) == 0 && Normalized(s) ==> Normalized(Vec());
      assert s[..|s|] == s;
      CarryOut(Vec(), Shr(prev, shr), Bits.Shl(Value(s), n), data.Length);
      BasePowers();
      PowMonotone(2, n, 64);
      var carry := Shr(prev, shr);
      if carry != 0 {
        ok := TryPush(carry);
        return ok;
      }
      return true;
    }

    /** Move the limbs up by `n` positions. */
    method ShlLimbs(n: nat) returns (ok: bool)
      requires Valid() && n != 0
      modifies this`length, data
      ensures Valid()
      ensures ok ==> Num() == Up(old(Num()), n) && (Normalized(old(Vec())) ==> Normalized(Vec()))
      ensures ok <==> n + old(length) <= data.Length
      ensures !ok ==> Vec() == old(Vec())
    {
      hide Up, Value;
      if n + length > data.Length {
        return false;
      } else if length != 0 {
        ghost var s := Vec();
        forall i | 0 <= i < length { data[n + i] := data[i]; }
        assert data[n..n + |s|] == s;
        forall i | 0 <= i < n { data[i] := 0; }
        assert data[n..n + |s|] == s;
        length := n + length;
        ghost var zeros := data[..n];
        assert Vec() == zeros + s;
        ValueZeros(zeros);
        ValueConcat(zeros, s);
        return true;
      } else {
        ValueZeros(Vec());
        UpZero(n);
        return true;
      }
    }

    /** Shift left by `n` bits. Zero stays zero, but more limbs than there are are refused even then. */
    method Shl(n: nat) returns (ok: bool)
      requires Valid() && Normalized(Vec())
      modifies this`length, data
      ensures Valid()
      ensures old(Num()) > 0 ==> Became(Vec(), ok, Bits.Shl(old(Num()), n), data.Length)
      ensures old(Num()) == 0 ==> Num() == 0 && (ok <==> n / 64 <= data.Length)
      ensures ok ==> Normalized(Vec())
    {
      hide Up, Value, Pow, Bits.Shl;
      ghost var v := Num();
      LimitIs();
      NothingIs(Vec());
      var rem, div := n % 64, n / 64;
      ShlNone(v);
      ShlZero(rem);
      ShlShl(v, rem, 64 * div);
      UpIsShift(Bits.Shl(v, rem), div);
      ShlLonger(v, rem, n);
      ok := true;
      if rem != 0 {
        ok := ShlBits(rem);
        if !ok { return; }
      }
      NothingIs(Vec());
      ShlLonger(v, 0, rem);
      ghost var s := Vec();
      if div != 0 {
        UpZero(div);
        ok := ShlLimbs(div);
        if !ok && v > 0 { RowTooLong(s, div, data.Length); }
      }
      ValueBound(Vec());
      UpLonger(1, length, data.Length);
    }

    /** The number of bits in use, counted from the top limb. */
    method NumBits() returns (bits: nat)
      requires Valid() && Normalized(Vec())
      ensures bits == BitLength(Num())
    {
      if length == 0 {
        return 0;
      }
      var lz := LeadingZeroesGeneric(data[length - 1]);
      TopLimbBits(Vec());
      return 64 * length - lz;
    }

    /** The most significant 64 bits, and whether anything below them is not zero. */
    method Hi64() returns (hi: Limb, truncated: bool)
      requires Valid() && Normalized(Vec())
      ensures Num() == 0 ==> hi == 0 && !truncated
      ensures Num() > 0 ==> HighBits(Num(), hi, truncated)
    {
      hide Value, Up, Pow, Or, BitLength, Bits.Shl, Shr, LowBits;
      if length == 0 {
        ValueZeros(Vec());
        return 0, false;
      }
      ghost var s := Vec();
      var r0 := data[length - 1];
      var shl := LeadingZeroesGeneric(r0);
      TopAligned(r0, shl);
      ValueNonzero(s, length - 1);
      if length == 1 {
        hi, truncated := Bits.Shl(r0, shl) % BASE, false;
        ValueOne(r0);
        assert s == [r0];
        OneLimbHigh(r0, shl);
      } else {
        var r1 := data[length - 2];
        TwoLimbWindow(r0, r1, shl);
        if shl == 0 {
          hi, truncated := r0, r1 != 0;
        } else {
          truncated := Bits.Shl(r1, shl) % BASE != 0;
          hi := Or(Bits.Shl(r0, shl) % BASE, Shr(r1, 64 - shl));
        }
        var rest := Nonzero(2);
        ValueZeros(s[..0]);
        truncated := truncated || rest;
        TwoLimbsHigh(s, hi, LowBits(r1, 64 - shl), 64 - shl, truncated);
      }
    }

    /** Three-way comparison of two normalized numbers, most significant limb first. */
    method Compare(other: BigInt) returns (ord: int)
      requires Valid() && other.Valid() && Normalized(Vec()) && Normalized(other.Vec())
      ensures ord in {-1, 0, 1}
      ensures ord == 1 <==> Num() > other.Num()
      ensures ord == -1 <==> Num() < other.Num()
    {
      hide Value, Up;
      if length > other.length {
        LongerIsLarger(other.Vec(), Vec());
        return 1;
      } else if length < other.length {
        LongerIsLarger(Vec(), other.Vec());
        return -1;
      }
      var index := length;
      while index > 0
        invariant 0 <= index <= length
        invariant forall k :: index <= k < length ==> data[k] == other.data[k]
      {
        var xi, yi := data[index - 1], other.data[index - 1];
        if xi > yi {
          HigherLimbDecides(other.Vec(), Vec(), index - 1);
          return 1;
        } else if xi < yi {
          HigherLimbDecides(Vec(), other.Vec(), index - 1);
          return -1;
        }
        index := index - 1;
      }
      assert Vec() == other.Vec();
      return 0;
    }

    /** Multiply by 5^exp: large steps, then single-limb steps, then a table entry. */
    method Pow5(exp: nat) returns (ok: bool)
      requires Valid() && Normalized(Vec())
      modifies this`length, data
      ensures Valid()
      ensures Became(Vec(), ok, old(Num()) * Pow(5, exp), data.Length)
      ensures ok ==> Normalized(Vec())
    {
      hide Value, Up, Pow;
      ghost var v, target := Num(), Num() * Pow(5, exp);
      LimitIs();
      var e: nat := exp;
      ValueBound(Vec());
      UpLonger(1, length, data.Length);
      ok := true;
      while e >= LARGE_STEP
        invariant Valid() && Normalized(Vec()) && Num() < Limit() && (Num() == 0 <==> v == 0)
        invariant Num() * Pow(5, e) == target
      {
        LargePower();
        NothingIs(Vec());
        PowerLeft(Num(), LARGE_STEP, e);
        ok := LargeMul(LARGE_POWER_OF_5);
        if !ok { return; }
        e := e - LARGE_STEP;
      }
      while e >= SMALL_STEP
        invariant Valid() && Normalized(Vec()) && Num() < Limit() && (Num() == 0 <==> v == 0)
        invariant Num() * Pow(5, e) == target
      {
        SmallPower(SMALL_STEP);
        PowerLeft(Num(), SMALL_STEP, e);
        ok := SmallMul(MAX_NATIVE);
        if !ok { return; }
        e := e - SMALL_STEP;
      }
      PowerLeft(Num(), e, e);
      if e != 0 {
        SmallPower(e);
        ok := SmallMul(SMALL_POWER_OF_5[e]);
      }
    }

    /** Multiply by 10^exp. */
    method Pow10(exp: nat) returns (ok: bool)
      requires Valid() && Normalized(Vec())
      modifies this`length, data
      ensures Valid()
      ensures old(Num()) > 0 ==> Became(Vec(), ok, old(Num()) * Pow(10, exp), data.Length)
      ensures old(Num()) == 0 ==> Num() == 0 && (ok <==> exp / 64 <= data.Length)
      ensures ok ==> Normalized(Vec())
    {
      hide Value, Up, Pow, Bits.Shl;
      ghost var v := Num();
      LimitIs();
      TenPower(v, exp);
      NoneTimes(Pow(5, exp));
      ok := Pow5(exp);
      if !ok { return; }
      ok := Shl(exp);
    }

    /** num * power + value. Failures are not reported: the assertions around it are compiled away,
        and what is left is the result modulo the capacity. */
    method AddNative(power: Limb, value: Limb)
      requires Valid()
      modifies this`length, data
      ensures Valid()
      ensures Wrapped(Vec(), old(Num()) * power + value, data.Length)
      ensures old(Num()) * power + value < Limit() ==> Num() == old(Num()) * power + value
      ensures old(Num()) * power + value < Limit() && power != 0 && Normalized(old(Vec())) ==> Normalized(Vec())
    {
      hide Value, Up;
      ghost var product := Num() * power;
      LimitIs();
      var ok := SmallMul(power);
      UpNone(value);
      ghost var wrapped := Num();
      ok := SmallAddFrom(value, 0);
      WrapTwice(product, wrapped, value, Limit());
      if product + value < Limit() { ModSmall(product + value, Limit()); }
    }

    /** The limbs in use as a span. */
    method Snapshot() returns (s: seq<Limb>)
      requires Valid()
      ensures s == Vec()
    {
      s := data[..length];
    }
  }

  lemma {:induction false} WrapTwice(a: int, b: int, c: int, m: nat)
    requires m > 0 && b == a % m
    ensures (b + c) % m == (a + c) % m
  {
    var q := a / m;
    var r, s := (b + c) / m, (b + c) % m;
    assert a == m * q + b;
    assert m * q == q * m && m * r == r * m;
    Distribute(q, r, m);
    DivModUnique(a + c, m, q + r, s);
  }

  lemma NoneTimes(x: int)
    ensures 0 * x == 0
  {}

  lemma {:induction false} PowerLeft(v: nat, step: nat, e: nat)
    requires step <= e
    ensures v * Pow(5, step) * Pow(5, e - step) == v * Pow(5, e)
    ensures v * Pow(5, step) <= v * Pow(5, e)
    ensures v > 0 ==> v * Pow(5, step) > 0
    ensures v == 0 ==> v * Pow(5, step) == v * Pow(5, e) == 0
    ensures v * Pow(5, 0) == v
  {
    PowAdd(5, step, e - step);
    MulAssoc(v, Pow(5, step), Pow(5, e - step));
    PowMonotone(5, step, e);
    MulLessEqLeft(v, Pow(5, step), Pow(5, e));
    if v > 0 { ProductPositive(v, Pow(5, step)); }
  }

  // ---------- the top of a number ----------

  /** `hi` is the number's leading 64 bits, left-aligned; `truncated` tells whether it has more, not all zero. */
  ghost predicate HighBits(v: nat, hi: nat, truncated: bool) {
    var n := BitLength(v);
    && BASE / 2 <= hi < BASE
    && if n >= 64 then hi == Shr(v, n - 64) && (truncated <==> LowBits(v, n - 64) != 0)
       else hi == Shl(v, 64 - n) && !truncated
  }

  lemma {:induction false} TopLimbBits(s: seq<Limb>)
    requires |s| > 0 && Normalized(s)
    ensures BitLength(Value(s)) == 64 * (|s| - 1) + BitLength(s[|s| - 1])
  {
    hide Value, Up, Shl;
    var k := |s| - 1;
    assert s == s[..k] + [s[k]];
    ValueSnoc(s[..k], s[k]);
    ValueBound(s[..k]);
    UpIsShift(1, k);
    ShlOne(64 * k);
    UpIsShift(s[k], k);
    BitLengthAppend(s[k], 64 * k, Value(s[..k]));
  }

  /** Shifting out the leading zeroes of a limb puts its highest bit on top. */
  lemma {:induction false} TopAligned(r0: Limb, shl: nat)
    requires r0 > 0 && shl == 64 - BitLength(r0)
    ensures shl <= 63
    ensures BASE / 2 <= Shl(r0, shl) <= Shl(r0, shl) + Pow(2, shl) <= BASE
  {
    hide Pow, Shl;
    BitLengthBounds(r0);
    BasePowers();
    ShlOne(63 - shl);
    ShlOne(64 - shl);
    ShlOne(shl);
    ShlMonotone(Pow(2, 63 - shl), r0, shl);
    ShlMonotone(r0 + 1, Pow(2, 64 - shl), shl);
    ShlShl(1, 63 - shl, shl);
    ShlShl(1, 64 - shl, shl);
    ShlOne(63);
    ShlOne(64);
    ShlAdd(r0, 1, shl);
  }

  lemma {:induction false} OneLimbHigh(r0: Limb, shl: nat)
    requires r0 > 0 && shl == 64 - BitLength(r0)
    ensures HighBits(r0, Shl(r0, shl) % BASE, false)
  {
    hide BitLength;
    TopAligned(r0, shl);
    assert Pow(2, shl) > 0;
    if shl == 0 { assert LowBits(r0, 0) == 0; }
  }

  /** The two top limbs as one 128-bit number: its leading 64 bits, and the bits of the second limb left over. */
  lemma {:induction false} TwoLimbWindow(r0: Limb, r1: Limb, shl: nat)
    requires r0 > 0 && shl == 64 - BitLength(r0)
    ensures var hi := if shl == 0 then r0 else Or(Shl(r0, shl) % BASE, Shr(r1, 64 - shl));
            BASE / 2 <= hi < BASE && r0 * BASE + r1 == Shl(hi, 64 - shl) + LowBits(r1, 64 - shl)
    ensures (if shl == 0 then r1 else Shl(r1, shl) % BASE) != 0 <==> LowBits(r1, 64 - shl) != 0
    ensures LowBits(r1, 64 - shl) < Pow(2, 64 - shl)
  {
    hide Pow, Shl, Shr, LowBits, Or, BitLength;
    TopAligned(r0, shl);
    ShrLow(r1, 64 - shl);
    Limbs.ShlLimb(r0);
    if shl == 0 {
      WholeWindow(r0, r1);
    } else {
      ShiftedWindow(r0, r1, shl);
      ShiftedLimb(r1, shl);
      var l := LowBits(r1, 64 - shl);
      ShlLonger(l, 0, shl);
      ShlNone(l);
      ShlZero(shl);
    }
  }

  lemma {:induction false} WholeWindow(r0: Limb, r1: Limb)
    ensures Shl(r0, 0) == r0 && LowBits(r1, 64) == r1
  {
    BasePowers();
    ShrLow(r1, 64);
    ShrBound(r1, 0, 64);
    ShlZero(64);
  }

  lemma {:induction false} ShiftedWindow(r0: Limb, r1: Limb, shl: nat)
    requires 0 < shl < 64 && Shl(r0, shl) + Pow(2, shl) <= BASE
    ensures var hi := Or(Shl(r0, shl) % BASE, Shr(r1, 64 - shl));
            Shl(r0, shl) <= hi < BASE && Shl(r0, 64) + r1 == Shl(hi, 64 - shl) + LowBits(r1, 64 - shl)
  {
    hide Pow, Shl, Shr, LowBits, Or;
    var h := Shr(r1, 64 - shl);
    ShrLow(r1, 64 - shl);
    assert h < Pow(2, shl) by { BasePowers(); ShrBound(r1, shl, 64 - shl); }
    OrDisjoint(r0, h, shl);
    ShlAdd(Shl(r0, shl), h, 64 - shl);
    ShlShl(r0, shl, 64 - shl);
  }

  /** The high bits of a number from those of its two top limbs. */
  lemma {:induction false} TwoLimbsHigh(s: seq<Limb>, hi: Limb, low: nat, d: nat, truncated: bool)
    requires |s| >= 2 && s[|s| - 1] > 0 && d == BitLength(s[|s| - 1])
    requires BASE / 2 <= hi && low < Pow(2, d)
    requires s[|s| - 1] * BASE + s[|s| - 2] == Shl(hi, d) + low
    requires truncated <==> low != 0 || Value(s[..|s| - 2]) != 0
    ensures HighBits(Value(s), hi, truncated)
  {
    hide Value, Up, Pow, Shl, Shr, LowBits, BitLength;
    var k := |s| - 2;
    var w, rest, p := s[k + 1] * BASE + s[k], Value(s[..k]), 64 * k;
    TopTwoValue(s);
    ValueBound(s[..k]);
    UpIsShift(1, k);
    UpIsShift(w, k);
    ShlAdd(Shl(hi, d), low, p);
    ShlShl(hi, d, p);
    assert Value(s) == Shl(hi, d + p) + (Shl(low, p) + rest);
    assert Shl(low, p) + rest < Pow(2, d + p) by {
      ShlAdd(low, 1, p);
      ShlMonotone(low + 1, Pow(2, d), p);
      ShlOne(d);
      ShlShl(1, d, p);
      ShlOne(d + p);
    }
    assert Shl(low, p) == 0 <==> low == 0 by {
      ShlZero(p);
      ShlLonger(low, 0, p);
      ShlNone(low);
    }
    ShrUnique(hi, Shl(low, p) + rest, d + p);
    TopLimbBits(s);
  }

  lemma {:induction false} TopTwoValue(s: seq<Limb>)
    requires |s| >= 2
    ensures Value(s) == Value(s[..|s| - 2]) + Up(s[|s| - 1] * BASE + s[|s| - 2], |s| - 2)
  {
    var k := |s| - 2;
    ValueSplit(s, k);
    assert s[k..] == [s[k], s[k + 1]];
    assert s[k..][1..] == [s[k + 1]] && [s[k + 1]][1..] == [];
    assert Value([s[k + 1]]) == s[k + 1] + BASE * Value([]);
  }

  lemma {:induction false} LongerIsLarger(s: seq<Limb>, t: seq<Limb>)
    requires Normalized(t) && |s| < |t|
    ensures Value(s) < Value(t)
  {
    ValueBound(s);
    NormalizedLower(t);
    UpLonger(1, |s|, |t| - 1);
  }

  lemma {:induction false} HigherLimbDecides(s: seq<Limb>, t: seq<Limb>, i: nat)
    requires |s| == |t| && i < |s| && s[i] < t[i]
    requires forall k :: i < k < |s| ==> s[k] == t[k]
    ensures Value(s) < Value(t)
  {
    hide Value, Up;
    SnocTake(s, i);
    SnocTake(t, i);
    ValueSplit(s, i + 1);
    ValueSplit(t, i + 1);
    assert s[i + 1..] == t[i + 1..];
    ValueBound(s[..i]);
    UpAdd(1, s[i], i);
    UpMonotone(1 + s[i], t[i], i);
  }

  // ---------- the shift's carry loop ----------

  ghost predicate Shifting(s: seq<Limb>, done: seq<Limb>, carry: nat, n: nat) {
    && |done| <= |s|
    && Value(done) + Up(carry, |done|) == Shl(Value(s[..|done|]), n)
  }

  lemma {:induction false} ShiftingStart(s: seq<Limb>, n: nat)
    requires n <= 64
    ensures Shr(0, 64 - n) == 0 < Pow(2, n)
    ensures Shifting(s, [], 0, n)
  {
    ShrUnique(0, 0, 64 - n);
    ShlZero(64 - n);
    ShlZero(n);
    assert s[..0] == [];
  }

  lemma {:induction false} ShiftingStep(s: seq<Limb>, done: seq<Limb>, carry: nat, n: nat, z: Limb, c: nat)
    requires Shifting(s, done, carry, n) && |done| < |s|
    requires z + c * BASE == Shl(s[|done|], n) + carry
    ensures Shifting(s, done + [z], c, n)
  {
    hide Value, Up, Shl;
    var i := |done|;
    var x := s[i];
    SnocTake(s, i);
    ValueSnoc(done, z);
    ShlAdd(Value(s[..i]), Up(x, i), n);
    UpIsShift(x, i);
    UpIsShift(Shl(x, n), i);
    ShlShl(x, 64 * i, n);
    ShlShl(x, n, 64 * i);
    UpAdd(Shl(x, n), carry, i);
    CarryUp(z, c, i);
    assert |done + [z]| == i + 1;
  }

  /** A limb shifted left and cut to 64 bits keeps just its low bits. */
  lemma {:induction false} ShiftedLimb(x: Limb, n: nat)
    requires 0 < n < 64
    ensures Shl(x, n) == BASE * Shr(x, 64 - n) + Shl(LowBits(x, 64 - n), n)
    ensures Shl(x, n) % BASE == Shl(LowBits(x, 64 - n), n) <= BASE - Pow(2, n)
    ensures Shr(x, 64 - n) < Pow(2, n)
  {
    hide Pow, Shl, Shr, LowBits;
    var h, l := Shr(x, 64 - n), LowBits(x, 64 - n);
    BasePowers();
    ShrLow(x, 64 - n);
    ShrBound(x, n, 64 - n);
    ShlAdd(Shl(h, 64 - n), l, n);
    ShlShl(h, 64 - n, n);
    Limbs.ShlLimb(h);
    ShlAdd(l, 1, n);
    ShlOne(n);
    ShlOne(64 - n);
    ShlMonotone(l + 1, Pow(2, 64 - n), n);
    ShlShl(1, 64 - n, n);
    ShlOne(64);
  }

  /** One limb of a bit shift: the word written is the low part, what `prev >> shr` yields next is the carry. */
  lemma {:induction false} ShiftLimb(x: Limb, carry: nat, n: nat)
    requires 0 < n < 64 && carry < Pow(2, n)
    ensures var z, c := Or(Shl(x, n) % BASE, carry), Shr(x, 64 - n);
            z < BASE && z + c * BASE == Shl(x, n) + carry && c < Pow(2, n) && (x != 0 && c == 0 ==> z != 0)
  {
    hide Pow, Shl, Shr, LowBits, Or;
    ShiftedLimb(x, n);
    OrDisjoint(LowBits(x, 64 - n), carry, n);
    ShlLonger(x, 0, n);
    ShlNone(x);
  }

  lemma {:induction false} TenPower(v: nat, exp: nat)
    ensures Shl(v * Pow(5, exp), exp) == v * Pow(10, exp)
    ensures v * Pow(5, exp) <= v * Pow(10, exp)
    ensures v > 0 ==> v * Pow(5, exp) > 0
  {
    hide Shl;
    ShlIsPow(v * Pow(5, exp), exp);
    PowDistributes(5, 2, exp);
    MulAssoc(v, Pow(5, exp), Pow(2, exp));
    ShlLonger(v * Pow(5, exp), 0, exp);
    ShlNone(v * Pow(5, exp));
    if v > 0 { ProductPositive(v, Pow(5, exp)); }
  }

  lemma {:induction false} FirstDigit(s: seq<Limb>, y: seq<Limb>)
    requires |y| > 0
    ensures Value(s) * y[0] == Value(s) * Value(y[..1])
    ensures Value(s) * y[0] <= Value(s) * Value(y)
  {
    ValueSnoc([], y[0]);
    assert y[..1] == [] + [y[0]];
    MulLessEqLeft(Value(s), y[0], Value(y));
  }

  /** Zero is normalized when it has no limbs. */
  lemma {:induction false} NothingIs(s: seq<Limb>)
    ensures s == [] ==> Value(s) == 0
    ensures Normalized(s) && Value(s) == 0 ==> s == []
  {
    if s != [] && Normalized(s) { ValueNonzero(s, |s| - 1); }
  }

  lemma ProductPositive(a: nat, b: nat)
    requires a > 0 && b > 0
    ensures a * b > 0
  {}

  /** A normalized row whose top limb lies beyond the capacity is too large by itself. */
  lemma {:induction false} RowTooLong(row: seq<Limb>, index: nat, cap: nat)
    requires Normalized(row) && Value(row) > 0 && |row| + index > cap
    ensures Up(Value(row), index) >= Up(1, cap)
  {
    if |row| == 0 { ValueZeros(row); }
    NormalizedLower(row);
    UpMonotone(Up(1, |row| - 1), Value(row), index);
    UpUp(1, |row| - 1, index);
    UpLonger(1, cap, |row| - 1 + index);
  }

  /** One more digit of the multiplier: the partial product grows by a shifted row. */
  lemma {:induction false} DigitTimes(s: seq<Limb>, y: seq<Limb>, index: nat)
    requires index < |y|
    ensures Value(s) * Value(y[..index]) + Up(Value(s) * y[index], index) == Value(s) * Value(y[..index + 1])
    ensures y[index] == 0 ==> Value(y[..index + 1]) == Value(y[..index])
  {
    hide Value, Up;
    SnocTake(y, index);
    UpTimes(y[index], Value(s), index);
    assert y[index] * Value(s) == Value(s) * y[index];
    Distribute(Value(y[..index]), Up(y[index], index), Value(s));
    if y[index] == 0 { UpZero(index); }
  }

  /** Neither a partial product nor a row passes the whole product. */
  lemma {:induction false} DigitBound(s: seq<Limb>, y: seq<Limb>, index: nat)
    requires index < |y|
    ensures Value(s) * Value(y[..index + 1]) <= Value(s) * Value(y)
    ensures Value(s) * y[index] <= Value(s) * Value(y)
  {
    SnocTake(y, index);
    ValueSplit(y, index + 1);
    UpLonger(y[index], 0, index);
    MulLessEqLeft(Value(s), Value(y[..index + 1]), Value(y));
    MulLessEqLeft(Value(s), y[index], Value(y));
  }
}
