/**
 The big integer used for exact decimal conversion: a fixed array of 64-bit limbs and a
 limb count, changed in place. Every operation is proved against the number the limbs
 denote; machine words wrap around explicitly.
 */
module BigInteger {
  import opened Bytes
  import opened Limbs
  import opened Borrowing

  const BIT_COUNT: nat := 3328
  const CAPACITY: nat := BIT_COUNT / 8
  const MAX_DIGITS: nat := 19

  const POW5_27: limb := 0x6765_C793_FA10_079D
  const POW5_13: limb := 1220703125

  lemma {:induction false} DecimalConcat(a: bytes, b: bytes)
    requires AllDigits(a + b) && AllDigits(a) && AllDigits(b)
    ensures DecimalValue(a + b) == DecimalValue(a) * Pow(10, |b|) + DecimalValue(b)
    decreases |b|
  {
    hide DigitValue;
    if b == [] {
      assert a + b == a;
    } else {
      var n := |b| - 1;
      assert (a + b)[..|a| + n] == a + b[..n];
      DecimalConcat(a, b[..n]);
      assert DecimalValue(a + b) == DecimalValue(a + b[..n]) * 10 + DigitValue(b[n]);
      assert DecimalValue(b) == DecimalValue(b[..n]) * 10 + DigitValue(b[n]);
      TimesTen(DecimalValue(a), Pow(10, n), DecimalValue(b[..n]));
      assert Pow(10, |b|) == 10 * Pow(10, n);
    }
  }

  lemma TimesTen(x: nat, p: nat, y: nat)
    ensures (x * p + y) * 10 == x * (10 * p) + y * 10
  {
  }

  lemma {:induction false} DecimalBound(ds: bytes)
    requires AllDigits(ds)
    ensures DecimalValue(ds) < Pow(10, |ds|)
    decreases |ds|
  {
    if ds != [] {
      DecimalBound(ds[..|ds| - 1]);
    }
  }

  /** Nineteen decimal digits fit a word. */
  lemma NineteenDigits(e: nat)
    requires e <= MAX_DIGITS
    ensures Pow(10, e) < BASE
  {
    PowGrows(10, e, 19);
    assert Pow(10, 4) == 10000;
    PowAdd(10, 4, 4);
    PowAdd(10, 8, 8);
    PowAdd(10, 16, 3);
    assert Pow(10, 3) == 1000;
  }

  method ParseUint64(decimals: bytes) returns (r: limb)
    requires |decimals| <= MAX_DIGITS && AllDigits(decimals)
    ensures r == DecimalValue(decimals)
  {
    r := 0;
    var p := 0;
    while p != |decimals|
      invariant 0 <= p <= |decimals|
      invariant r == DecimalValue(decimals[..p])
    {
      assert decimals[..p + 1][..p] == decimals[..p];
      DecimalBound(decimals[..p + 1]);
      NineteenDigits(p + 1);
      r := r * 10 + DigitValue(decimals[p]);
      p := p + 1;
    }
    assert decimals[..p] == decimals;
  }

  lemma BoundedProduct(x: int, y: int, m: int)
    requires 0 <= x <= m && 0 <= y <= m
    ensures 0 <= x * y <= m * m
  {
    assert m * m - x * y == m * (m - y) + (m - x) * y;
  }

  lemma Expand(a1: int, a0: int, b1: int, b0: int, h: int)
    ensures (a1 * h + a0) * (b1 * h + b0) == a0 * b0 + (a0 * b1 + a1 * b0) * h + (a1 * b1) * (h * h)
  {
    assert (a1 * h + a0) * (b1 * h + b0) == (a1 * h) * (b1 * h) + (a1 * h) * b0 + a0 * (b1 * h) + a0 * b0;
    assert (a1 * h) * (b1 * h) == (a1 * b1) * (h * h);
    assert (a1 * h) * b0 == (a1 * b0) * h && a0 * (b1 * h) == (a0 * b1) * h;
  }

  lemma HalfProducts(a: limb, b: limb)
    ensures var x0, x1, x2, x3 :=
            (a % HALF) * (b % HALF), (a % HALF) * (b / HALF), (a / HALF) * (b % HALF), (a / HALF) * (b / HALF);
            && a * b == x0 + (x1 + x2) * HALF + x3 * BASE
            && PartialProduct(x0) && PartialProduct(x1) && PartialProduct(x2) && PartialProduct(x3)
  {
    var a0: int, a1: int, b0: int, b1: int := a % HALF, a / HALF, b % HALF, b / HALF;
    Expand(a1, a0, b1, b0, HALF);
    BoundedProduct(a0, b0, HALF - 1);
    BoundedProduct(a0, b1, HALF - 1);
    BoundedProduct(a1, b0, HALF - 1);
    BoundedProduct(a1, b1, HALF - 1);
  }

  predicate PartialProduct(x: int) {
    0 <= x <= (HALF - 1) * (HALF - 1)
  }

  lemma WordProduct(a: limb, b: limb, k: limb)
    ensures 0 <= a * b + k < BASE * BASE
  {
    BoundedProduct(a, b, BASE - 1);
  }

  /** Adds up four products of halves and a word; words wrap around and carries are found by comparison. */
  method AddPartialProducts(x0: int, x1: int, x2: int, x3: int, k: limb) returns (lo: limb, hi: limb)
    requires PartialProduct(x0) && PartialProduct(x1) && PartialProduct(x2) && PartialProduct(x3)
    requires x0 + (x1 + x2) * HALF + x3 * BASE + k < BASE * BASE
    ensures lo + hi * BASE == x0 + (x1 + x2) * HALF + x3 * BASE + k
  {
    var y1: int, y3: int := x1 + x0 / HALF, x3;
    assert 0 <= y1 < BASE;
    ghost var sum: int := y1 + x2;
    Wrapped(y1, x2);
    y1 := (y1 + x2) % BASE;
    if y1 < x2 {
      y3 := y3 + HALF;
    }
    assert sum * HALF + x3 * BASE == y1 * HALF + y3 * BASE;
    MiddleWord(y1);
    var low: int, high: int := (y1 * HALF) % BASE + x0 % HALF, y3 + y1 / HALF;
    assert low + high * BASE == x0 + (x1 + x2) * HALF + x3 * BASE;
    Wrapped(low, k);
    low := (low + k) % BASE;
    if low < k {
      high := high + 1;
    }
    lo, hi := low, high;
  }

  /** The sum of two words wraps around exactly if it is smaller than what was added. */
  lemma Wrapped(a: int, b: int)
    requires 0 <= a < BASE && 0 <= b < BASE
    ensures var w := (a + b) % BASE;
            w + (if w < b then BASE else 0) == a + b && 0 <= w < BASE
  {
  }

  lemma MiddleWord(y: int)
    requires 0 <= y < BASE
    ensures (y * HALF) % BASE + y / HALF * BASE == y * HALF && 0 <= (y * HALF) % BASE <= BASE - HALF
  {
    var q: int, r: int := y / HALF, y % HALF;
    assert y * HALF == q * BASE + r * HALF && 0 <= r < HALF;
    assert (y * HALF) % BASE == r * HALF;
  }

  /** a * b + k as two words. */
  method MulAdd64(a: limb, b: limb, k: limb) returns (lo: limb, hi: limb)
    ensures lo + hi * BASE == a * b + k
  {
    var a0: int, a1: int, b0: int, b1: int := a % HALF, a / HALF, b % HALF, b / HALF;
    HalfProducts(a, b);
    WordProduct(a, b, k);
    lo, hi := AddPartialProducts(a0 * b0, a0 * b1, a1 * b0, a1 * b1, k);
  }

  class BigInteger {
    const digits: array<limb>
    var count: nat
    /** One more than the highest limb index that has been written. */
    ghost var reach: nat

    /** The limbs in use are in normal form, and have been written. */
    ghost predicate Valid()
      reads this, digits
    {
      1 <= count <= digits.Length && Normal(digits[..count]) && count <= reach <= digits.Length
    }

    function Value(): nat
      reads this, digits
      requires count <= digits.Length
    {
      Val(digits[..count])
    }

    constructor FromInteger(u: limb)
      ensures Valid() && fresh(digits) && digits.Length == CAPACITY && Value() == u
    {
      digits := new limb[CAPACITY](_ => 0);
      count, reach := 1, 1;
      new;
      digits[0] := u;
      assert digits[..1] == [u];
      OneLimb(u);
    }

    predicate IsZero()
      reads this, digits
      requires 1 <= count <= digits.Length && Normal(digits[..count])
      ensures IsZero() <==> Value() == 0
    {
      assert count == 1 ==> digits[..count] == [digits[0]];
      TopLimb(digits[..count]);
      PowPositive(BASE, count - 1);
      count == 1 && digits[0] == 0
    }

    /** `operator=` with a word. */
    method Assign(u: limb)
      requires Valid()
      modifies this, digits
      ensures Valid() && Value() == u && reach == old(reach)
    {
      digits[0] := u;
      reach := Max(reach, 1);
      count := 1;
      assert digits[..1] == [u];
      OneLimb(u);
    }

    method PushBack(digit: limb)
      requires count < digits.Length
      modifies this, digits
      ensures count == old(count) + 1 && digits[..count] == old(digits[..count]) + [digit]
      ensures reach == Max(old(reach), count)
    {
      digits[count] := digit;
      reach := Max(reach, count + 1);
      count := count + 1;
    }

    /** `operator+=` */
    method Add(u: limb)
      requires Valid() && Value() + u < Pow(BASE, digits.Length)
      modifies this, digits
      ensures Valid() && Value() == old(Value()) + u && reach == Max(old(reach), count)
    {
      hide Val, Pow, Normal;
      ghost var before := digits[..count];
      PowOne();
      OneLimb(before[0]);
      assert before[..1] == [before[0]];
      var backup: limb := digits[0];
      digits[0] := (digits[0] + u as int) % BASE;
      reach := Max(reach, 1);
      OneLimb(digits[0]);
      assert digits[..1] == [digits[0]];
      var i := 0;
      while i < count - 1
        invariant 0 <= i <= count - 1 && count == old(count) && reach == old(reach)
        invariant forall j :: i < j < count ==> digits[j] == before[j]
        invariant Val(digits[..i + 1]) + (if digits[i] < backup then Pow(BASE, i + 1) else 0)
                  == Val(before[..i + 1]) + u
      {
        if digits[i] >= backup {
          assert digits[..count][..i + 1] == digits[..i + 1];
          SameRest(digits[..count], before, i + 1);
          SumIsNormal(digits[..count], before);
          return;
        }
        backup := digits[i + 1];
        ghost var low := digits[..i + 1];
        digits[i + 1] := (digits[i + 1] + 1) % BASE;
        reach := Max(reach, i + 2);
        assert digits[..i + 1] == low && digits[..i + 2] == low + [digits[i + 1]];
        CarryStep(low, before, i + 1, digits[i + 1], u);
        i := i + 1;
      }
      assert before[..count] == before;
      if digits[count - 1] < backup {
        ghost var low := digits[..count];
        CarryFits(low, before, u, digits.Length);
        PushBack(1);
        ValSnoc(low, 1);
        assert Normal(digits[..count]) by {
          PushedIsNormal(low, 1);
        }
      } else {
        SumIsNormal(digits[..count], before);
      }
    }

    /** `operator*=` with a 64-bit word. */
    method Multiply64(u: limb)
      requires Valid() && Value() * u < Pow(BASE, digits.Length)
      modifies this, digits
      ensures Valid() && Value() == old(Value()) * u && reach == Max(old(reach), count)
      ensures u > 0 ==> count >= old(count)
    {
      hide Val, Pow, Normal;
      if u == 0 {
        Assign(0);
        return;
      }
      if u == 1 {
        return;
      }
      if count == 1 && digits[0] == 1 {
        assert digits[..count] == [1];
        OneLimb(1);
        Assign(u);
        return;
      }
      ghost var before := digits[..count];
      var k: limb := 0;
      var i := 0;
      EmptyProduct(before, u);
      assert digits[..0] == [];
      while i < count
        invariant 0 <= i <= count && count == old(count) && reach == old(reach)
        invariant forall j :: i <= j < count ==> digits[j] == before[j]
        invariant Val(digits[..i]) + Pow(BASE, i) * k == Val(before[..i]) * u
      {
        ghost var low := digits[..i];
        var lo, hi := MulAdd64(digits[i], u, k);
        digits[i] := lo;
        reach := Max(reach, i + 1);
        assert digits[..i] == low && digits[..i + 1] == low + [lo];
        ProductStep(low, before, i, u, k, lo, hi);
        k := hi;
        i := i + 1;
      }
      FinishProduct(before, u, k);
    }

    /** `operator*=` with a 32-bit word: each limb by halves, so that no product exceeds a word. */
    method Multiply32(u: int)
      requires 0 <= u < HALF
      requires Valid() && Value() * u < Pow(BASE, digits.Length)
      modifies this, digits
      ensures Valid() && Value() == old(Value()) * u && reach == Max(old(reach), count)
      ensures u > 0 ==> count >= old(count)
    {
      hide Val, Pow, Normal;
      if u == 0 {
        Assign(0);
        return;
      }
      if u == 1 {
        return;
      }
      if count == 1 && digits[0] == 1 {
        assert digits[..count] == [1];
        OneLimb(1);
        Assign(u);
        return;
      }
      ghost var before := digits[..count];
      var k: int := 0;
      var i := 0;
      EmptyProduct(before, u);
      assert digits[..0] == [];
      while i < count
        invariant 0 <= i <= count && count == old(count) && reach == old(reach)
        invariant 0 <= k < HALF
        invariant forall j :: i <= j < count ==> digits[j] == before[j]
        invariant Val(digits[..i]) + Pow(BASE, i) * k == Val(before[..i]) * u
      {
        ghost var low := digits[..i];
        var lo, hi := MulAdd32(digits[i], u, k);
        digits[i] := lo;
        reach := Max(reach, i + 1);
        assert digits[..i] == low && digits[..i + 1] == low + [lo];
        ProductStep(low, before, i, u, k, lo, hi);
        k := hi;
        i := i + 1;
      }
      FinishProduct(before, u, k);
    }

    /** The last carry of a product becomes a new top limb if it is not zero. */
    method FinishProduct(ghost before: seq<limb>, ghost u: nat, k: limb)
      requires count == |before| && 1 <= count <= reach <= digits.Length && Normal(before)
      requires u > 0 && Val(before) * u < Pow(BASE, digits.Length)
      requires Val(digits[..count]) + Pow(BASE, count) * k == Val(before[..count]) * u
      modifies this, digits
      ensures Valid() && Value() == Val(before) * u && reach == Max(old(reach), count) && count >= old(count)
    {
      hide Val, Pow, Normal;
      assert before[..count] == before;
      ghost var low := digits[..count];
      Scaled(Pow(BASE, count), k);
      Scaled(Val(before), u);
      if k > 0 {
        if count >= digits.Length {
          PowGrows(BASE, digits.Length, count);
          assert false;
        }
        PushBack(k);
        ValSnoc(low, k);
        PushedIsNormal(low, k);
      } else {
        SumIsNormal(low, before);
      }
    }

    /** `operator<<=`: whole limbs by moving, the rest bit by bit from the top down, in place. */
    method ShiftLeft(shift: nat)
      requires Valid() && ShiftReach(Value(), shift) <= digits.Length
      modifies this, digits
      ensures Valid() && Value() == old(Value()) * Pow(2, shift)
      ensures reach == Max(old(reach), ShiftReach(old(Value()), shift))
    {
      hide Val, Pow, Normal, NumLimbs;
      NoShift();
      LimbsAre(digits[..count]);
      if IsZero() || shift == 0 {
        return;
      }
      var offset: nat, interShift: nat := shift / 64, shift % 64;
      ShiftSplits(shift);
      if interShift == 0 {
        ShiftLimbs(offset);
      } else {
        ShiftBits(offset, interShift);
      }
    }

    method ShiftLimbs(offset: nat)
      requires Valid() && Value() > 0 && count + offset <= digits.Length
      modifies this, digits
      ensures Valid() && Value() == old(Value()) * (Pow(BASE, offset) * Pow(2, 0))
      ensures reach == Max(old(reach), old(count) + offset)
    {
      hide Val, Pow, Normal;
      ghost var before := digits[..count];
      MoveUp(offset);
      ClearLow(offset);
      MovedValue(digits[..count], before, offset);
      NoShift();
    }

    method ShiftBits(offset: nat, bits: nat)
      requires Valid() && Value() > 0 && 0 < bits < 64 && count + offset < digits.Length
      modifies this, digits
      ensures Valid() && Value() == old(Value()) * (Pow(BASE, offset) * Pow(2, bits))
      ensures reach == Max(old(reach), old(count) + offset + 1)
    {
      hide Val, Pow, Normal, Shifted;
      ghost var before := digits[..count];
      var up, down := BitPowers(bits);
      MoveBits(offset, up, down);
      ClearLow(offset);
      ShiftedResult(digits[..count], before, offset, up, down);
    }

    /** `memmove` to higher limbs: the ranges may overlap, so it goes from the top down. */
    method MoveUp(offset: nat)
      requires 1 <= count <= reach <= digits.Length && count + offset <= digits.Length
      modifies this, digits
      ensures count == old(count) + offset && digits[offset..count] == old(digits[..count])
      ensures reach == Max(old(reach), count)
    {
      ghost var before := digits[..count];
      var i := count;
      while i > 0
        invariant 0 <= i <= count && count == old(count)
        invariant reach == if i == count then old(reach) else Max(old(reach), count + offset)
        invariant forall j :: 0 <= j < i ==> digits[j] == before[j]
        invariant forall j :: i + offset <= j < count + offset ==> digits[j] == before[j - offset]
      {
        digits[i - 1 + offset] := digits[i - 1];
        reach := Max(reach, i + offset);
        i := i - 1;
      }
      count := count + offset;
    }

    /** The bit loop: each limb takes its own low bits and the high bits of the limb below. */
    method MoveBits(offset: nat, up: int, down: int)
      requires 1 <= count <= reach && count + offset < digits.Length
      requires up > 0 && down > 0 && up * down == BASE
      modifies this, digits
      ensures var s := Shifted(old(digits[..count]), up, down, 0);
              && count == old(count) + offset + (if s[old(count)] != 0 then 1 else 0)
              && digits[offset..count] == if s[old(count)] != 0 then s else s[..old(count)]
      ensures reach == Max(old(reach), old(count) + offset + 1)
    {
      hide Shifted, BitsMoved, MovedLimb;
      ghost var before := digits[..count];
      ghost var s := Shifted(before, up, down, 0);
      ghost var n := count;
      digits[count] := 0;
      ghost var top := count + 1;
      NoBitsMoved(digits[..], before, s, offset);
      var i := count;
      while i > 0
        invariant 0 <= i <= count == n
        invariant reach == old(reach) && top == n + 1 + if i == n then 0 else offset
        invariant BitsMoved(digits[..], before, s, offset, i)
      {
        ghost var now := digits[..];
        BitsStep(now, before, s, offset, i, up, down);
        digits[i + offset] := MovedLimb(digits[i], digits[i - 1], up, down);
        top := Max(top, i + offset + 1);
        assert digits[..] == now[i + offset := s[i]];
        i := i - 1;
      }
      reach := Max(reach, top);
      LastBit(before, s, offset, up, down);
    }

    /** The lowest limb, and the count: the limb above the top one counts if bits were moved into it. */
    method LastBit(ghost before: seq<limb>, ghost s: seq<limb>, offset: nat, up: int, down: int)
      requires up > 0 && down > 0 && up * down == BASE && s == Shifted(before, up, down, 0)
      requires 1 <= count == |before| && offset < reach && BitsMoved(digits[..], before, s, offset, 0)
      modifies this, digits
      ensures reach == old(reach) && count == |before| + offset + (if s[|before|] != 0 then 1 else 0)
      ensures count <= digits.Length && digits[offset..count] == if s[|before|] != 0 then s else s[..|before|]
    {
      hide Shifted, BitsMoved, MovedLimb;
      ghost var now := digits[..];
      LastBits(now, before, s, offset, up, down);
      RoomAbove(now, before, s, offset);
      digits[offset] := MovedLimb(digits[0], 0, up, down);
      reach := Max(reach, offset + 1);
      assert digits[..] == now[offset := s[0]];
      TopOfMoved(digits[..], s, offset, |before|);
      count := count + offset;
      if digits[count] != 0 {
        count := count + 1;
      }
      assert digits[offset..count] == digits[..][offset..count];
    }

    /** `memset` of the limbs below the moved ones. */
    method ClearLow(offset: nat)
      requires offset <= count <= digits.Length
      modifies this`reach, digits
      ensures digits[offset..count] == old(digits[offset..count]) && reach == Max(old(reach), offset)
      ensures forall j :: 0 <= j < offset ==> digits[j] == 0
    {
      var i := 0;
      while i < offset
        invariant 0 <= i <= offset && reach == Max(old(reach), i)
        invariant digits[offset..count] == old(digits[offset..count])
        invariant forall j :: 0 <= j < i ==> digits[j] == 0
      {
        digits[i] := 0;
        reach := Max(reach, i + 1);
        i := i + 1;
      }
    }

    /** Multiplies by 5^exp with the largest factors that fit a word: 5^27, 5^13 and a table up to 5^12. */
    method MultiplyPow5(exp: nat)
      requires Valid() && Value() * Pow(5, exp) < Pow(BASE, digits.Length)
      modifies this, digits
      ensures Valid() && Value() == old(Value()) * Pow(5, exp) && reach == Max(old(reach), count)
    {
      hide Val, Pow, Normal;
      PowersOfFive();
      ghost var before := Value();
      var e := exp;
      while e >= 27
        invariant 0 <= e <= exp && Valid() && reach == Max(old(reach), count)
        invariant Value() * Pow(5, e) == before * Pow(5, exp)
      {
        FactorOut(Value(), e, 27, Pow(BASE, digits.Length));
        Multiply64(POW5_27);
        e := e - 27;
      }
      while e >= 13
        invariant 0 <= e < 27 && e <= exp && Valid() && reach == Max(old(reach), count)
        invariant Value() * Pow(5, e) == before * Pow(5, exp)
      {
        FactorOut(Value(), e, 13, Pow(BASE, digits.Length));
        Multiply32(POW5_13);
        e := e - 13;
      }
      if e > 0 {
        SmallPowerOfFive(e);
        PowPositive(5, e);
        Multiply32(Pow(5, e));
      }
    }

    /** Negative, zero or positive as this number is smaller, equal or larger. */
    method Compare(rhs: BigInteger) returns (cmp: int)
      requires Valid() && rhs.Valid()
      ensures -1 <= cmp <= 1
      ensures cmp < 0 <==> Value() < rhs.Value()
      ensures cmp > 0 <==> Value() > rhs.Value()
    {
      hide Val, Pow;
      if count != rhs.count {
        if count < rhs.count {
          MoreLimbs(digits[..count], rhs.digits[..rhs.count]);
          return -1;
        }
        MoreLimbs(rhs.digits[..rhs.count], digits[..count]);
        return 1;
      }
      var i := count;
      while i > 0
        invariant 0 <= i <= count
        invariant forall j :: i <= j < count ==> digits[j] == rhs.digits[j]
      {
        i := i - 1;
        if digits[i] != rhs.digits[i] {
          if digits[i] < rhs.digits[i] {
            HighestDecides(digits[..count], rhs.digits[..count], i);
            return -1;
          }
          HighestDecides(rhs.digits[..count], digits[..count], i);
          return 1;
        }
      }
      assert digits[..count] == rhs.digits[..count];
      cmp := 0;
    }

    /**
     Absolute difference into `out`, and whether this number is the smaller one. The
     result is right exactly when no limb of the smaller number is all ones where the
     limbs below it borrow.
     */
    method Difference(rhs: BigInteger, out: BigInteger) returns (smaller: bool)
      requires Valid() && rhs.Valid() && count <= out.digits.Length && rhs.count <= out.digits.Length
      requires out != this && out != rhs && out.digits != digits && out.digits != rhs.digits
      requires Value() != rhs.Value() && out.reach <= out.digits.Length
      modifies out, out.digits
      ensures Valid() && rhs.Valid() && out.Valid()
      ensures smaller <==> Value() < rhs.Value()
      ensures var a, b := if smaller then rhs else this, if smaller then this else rhs;
              && out.Value() == a.Value() - b.Value() + Lost(a.digits[..a.count], b.digits[..b.count], 0)
              && b.count <= a.count
              && (out.Value() == a.Value() - b.Value() <==> BorrowsKept(a.digits[..a.count], b.digits[..b.count], 0))
    {
      hide Val, Pow, Normal, Lost, BorrowsKept, Diff;
      var cmp := Compare(rhs);
      var a, b := this, rhs;
      smaller := false;
      if cmp < 0 {
        a, b, smaller := rhs, this, true;
      }
      ghost var as', bs := a.digits[..a.count], b.digits[..b.count];
      LargerHasMoreLimbs(as', bs);
      DiffIsExact(as', bs);
      out.Subtract(a, b);
    }

    /** The subtraction loop; this number takes the limbs up to the highest that is not zero. */
    method Subtract(a: BigInteger, b: BigInteger)
      requires a.Valid() && b.Valid() && b.count <= a.count <= digits.Length
      requires a != this && b != this && a.digits != digits && b.digits != digits
      requires Val(Diff(a.digits[..a.count], b.digits[..b.count], 0)) > 0
      requires reach <= digits.Length
      modifies this, digits
      ensures a.Valid() && b.Valid() && Valid()
      ensures Value() == Val(Diff(a.digits[..a.count], b.digits[..b.count], 0))
    {
      hide Val, Pow, Normal, Diff, DiffLimb, BorrowOut, BorrowAt;
      ghost var as', bs := a.digits[..a.count], b.digits[..b.count];
      ghost var d := Diff(as', bs, 0);
      NoBorrowYet(as', bs);
      var borrow: bit := 0;
      var i := 0;
      var top: nat := count;
      ghost var written := 0;
      while i < a.count
        invariant 0 <= i <= a.count && 0 <= written <= i && reach == Max(old(reach), i)
        invariant borrow == BorrowAt(as', bs, 0, i)
        invariant forall j :: 0 <= j < i ==> digits[j] == d[j]
        invariant forall j :: written <= j < i ==> d[j] == 0
        invariant written > 0 ==> count == written && d[written - 1] != 0
        invariant a.digits[..a.count] == as' && b.digits[..b.count] == bs
      {
        DiffAt(as', bs, 0, i);
        var x := DiffLimb(a.digits[i], if i < b.count then b.digits[i] else 0, borrow);
        borrow := BorrowOut(a.digits[i], if i < b.count then b.digits[i] else 0, borrow);
        digits[i] := x;
        reach := Max(reach, i + 1);
        if x != 0 {
          count := i + 1;
          written := i + 1;
        }
        i := i + 1;
      }
      assert d == d[..written] + d[written..];
      ValConcat(d[..written], d[written..]);
      ZeroLimbs(d[written..]);
      Scaled(Pow(BASE, written), 0);
      if written == 0 {
        ZeroLimbs(d);
      }
      assert digits[..count] == d[..written];
      assert Normal(digits[..count]) by {
        TopIsNormal(d[..written]);
      }
    }

    /** Multiplies by 10^n and adds the next n digits, or just takes them if the number is still zero. */
    method AppendDecimal64(decimals: bytes)
      requires Valid() && 0 < |decimals| <= MAX_DIGITS && AllDigits(decimals)
      requires AppendReach(Value(), |decimals|) <= digits.Length
      modifies this, digits
      ensures Valid() && Value() == old(Value()) * Pow(10, |decimals|) + DecimalValue(decimals)
      ensures reach == Max(old(reach), AppendReach(old(Value()), |decimals|))
    {
      hide Val, Pow, Normal, DecimalValue, AllDigits, NumLimbs;
      var u := ParseUint64(decimals);
      if IsZero() {
        NothingTimes(Pow(10, |decimals|));
        Assign(u);
      } else {
        TimesTenPlus(|decimals|, u);
      }
    }

    /** `(MultiplyPow5(exp) <<= exp) += u` */
    method TimesTenPlus(exp: nat, u: limb)
      requires Valid() && Value() > 0 && 0 < exp <= MAX_DIGITS
      requires AppendReach(Value(), exp) <= digits.Length
      modifies this, digits
      ensures Valid() && Value() == old(Value()) * Pow(10, exp) + u
      ensures reach == Max(old(reach), AppendReach(old(Value()), exp))
    {
      hide Val, Pow, Normal, NumLimbs;
      ghost var before := Value();
      ghost var product := before * Pow(5, exp);
      RoomToMultiply(product, digits.Length);
      ProductPositive(before, exp);
      MultiplyPow5(exp);
      LimbsAre(digits[..count]);
      ShiftLeft(exp);
      ByTens(before, exp);
      RoomToAdd(product, exp, u, digits.Length);
      Add(u);
      NormalCount(digits[..count], NumLimbs(product) + 1);
    }

    /** The next `n` digits of a string whose digits before position `i` have been read. */
    method AppendChunk(decimals: bytes, i: nat, n: nat)
      requires Valid() && 0 < n <= MAX_DIGITS && i + n <= |decimals| && AllDigits(decimals)
      requires Value() == DecimalValue(decimals[..i]) && AppendReach(Value(), n) <= digits.Length
      modifies this, digits
      ensures Valid() && Value() == DecimalValue(decimals[..i + n])
      ensures reach == Max(old(reach), AppendReach(DecimalValue(decimals[..i]), n))
    {
      hide Val, Pow, Normal, DecimalValue, AllDigits, AppendReach;
      PrefixSplits(decimals, i, n);
      AppendDecimal64(decimals[i..i + n]);
    }

    /**
     From a string of decimal digits, nineteen at a time, in an array of `room` limbs; the source's room
     is `CAPACITY`.
     */
    constructor FromDecimals(decimals: bytes, room: nat)
      requires |decimals| > 0 && AllDigits(decimals) && Reach(decimals, 0) <= room
      ensures Valid() && fresh(digits) && digits.Length == room && Value() == DecimalValue(decimals)
      ensures reach == Reach(decimals, 0)
    {
      digits := new limb[room](_ => 0);
      count, reach := 1, 1;
      new;
      hide Val, Pow, Normal, DecimalValue, AppendReach, Reach, AllDigits;
      digits[0] := 0;
      assert digits[..1] == [0];
      OneLimb(0);
      OneLimbIsNormal(0);
      NoDigits();
      var length, i := |decimals|, 0;
      assert decimals[..0] == [];
      while length >= MAX_DIGITS
        invariant 0 <= i && 0 <= length && i + length == |decimals| && Valid() && fresh(digits) && digits.Length == room
        invariant Max(reach, Reach(decimals, i)) == Reach(decimals, 0) && Value() == DecimalValue(decimals[..i])
      {
        ReachUnfold(decimals, i);
        AppendChunk(decimals, i, MAX_DIGITS);
        length := length - MAX_DIGITS;
        i := i + MAX_DIGITS;
      }
      ReachUnfold(decimals, i);
      if length > 0 {
        AppendChunk(decimals, i, length);
        i := i + length;
        ReachUnfold(decimals, i);
      }
      assert decimals[..i] == decimals;
    }
  }

  function Max(a: nat, b: nat): nat {
    if a < b then b else a
  }

  /**
   One more than the highest limb index that `<<=` writes on this value: a shift by bits starts with
   the limb above the top one.
   */
  function ShiftReach(value: nat, shift: nat): nat {
    if value == 0 || shift == 0 then 0 else NumLimbs(value) + shift / 64 + if shift % 64 == 0 then 0 else 1
  }

  /** One more than the highest limb index that appending `n` digits to this value writes. */
  function AppendReach(value: nat, n: nat): nat {
    if value == 0 then 1 else NumLimbs(value * Pow(5, n)) + 1
  }

  /** One more than the highest limb index that the construction writes from position `i` on. */
  function Reach(decimals: bytes, i: nat): (r: nat)
    requires i <= |decimals| && AllDigits(decimals)
    ensures r >= 1
    decreases |decimals| - i
  {
    if i == |decimals| then 1
    else
      var n := if |decimals| - i >= MAX_DIGITS then MAX_DIGITS else |decimals| - i;
      Max(AppendReach(DecimalValue(decimals[..i]), n), Reach(decimals, i + n))
  }

  lemma ReachUnfold(decimals: bytes, i: nat)
    requires i <= |decimals| && AllDigits(decimals)
    ensures i == |decimals| ==> Reach(decimals, i) == 1
    ensures i < |decimals| ==>
              var n := if |decimals| - i >= MAX_DIGITS then MAX_DIGITS else |decimals| - i;
              Reach(decimals, i) == Max(AppendReach(DecimalValue(decimals[..i]), n), Reach(decimals, i + n))
  {
    hide AppendReach, DecimalValue;
  }

  /** How many digits the last chunk of a string of this length has. */
  function LastChunk(length: nat): (n: nat)
    requires length > 0
    ensures 0 < n <= MAX_DIGITS && n <= length
  {
    if length % MAX_DIGITS == 0 then MAX_DIGITS else length % MAX_DIGITS
  }

  /** The number before the last chunk of digits. */
  function BeforeLast(decimals: bytes): nat
    requires |decimals| > 0 && AllDigits(decimals)
  {
    DecimalValue(decimals[..|decimals| - LastChunk(|decimals|)])
  }

  /** The last chunk reaches highest: it has the largest number before it. */
  lemma {:induction false} LastReachesHighest(decimals: bytes, i: nat)
    requires i < |decimals| && i % MAX_DIGITS == 0 && AllDigits(decimals)
    ensures Reach(decimals, i) == AppendReach(BeforeLast(decimals), LastChunk(|decimals|))
    decreases |decimals| - i
  {
    hide DecimalValue, Pow, NumLimbs;
    if |decimals| - i > MAX_DIGITS {
      LastReachesHighest(decimals, i + MAX_DIGITS);
      EarlierReachesLess(decimals, i, |decimals| - LastChunk(|decimals|), LastChunk(|decimals|));
    } else {
      assert Reach(decimals, |decimals|) == 1;
      assert LastChunk(|decimals|) == |decimals| - i;
    }
  }

  lemma EarlierReachesLess(decimals: bytes, i: nat, m: nat, n: nat)
    requires AllDigits(decimals) && i + MAX_DIGITS <= m <= |decimals|
    ensures AppendReach(DecimalValue(decimals[..i]), MAX_DIGITS) <= AppendReach(DecimalValue(decimals[..m]), n)
  {
    hide DecimalValue, Pow, NumLimbs;
    var before := decimals[..m];
    assert before[..i] == decimals[..i];
    PrefixFits(before, i, MAX_DIGITS);
    PowPositive(5, n);
    Scaled(DecimalValue(before), Pow(5, n));
    PowPositive(5, MAX_DIGITS);
    Scaled(DecimalValue(decimals[..i]), Pow(5, MAX_DIGITS));
    MoreHasMoreLimbs(DecimalValue(decimals[..i]) * Pow(5, MAX_DIGITS), DecimalValue(before) * Pow(5, n));
  }

  /**
   Main result on the capacity: the construction writes no limb beyond an array of `room` limbs
   exactly if the number before its last chunk is zero, or its product with the chunk's power of
   five is below the power that leaves one limb free.
   */
  lemma StaysInside(decimals: bytes, room: nat)
    requires |decimals| > 0 && AllDigits(decimals) && room > 1
    ensures Reach(decimals, 0) <= room <==>
            BeforeLast(decimals) == 0 || BeforeLast(decimals) * Pow(5, LastChunk(|decimals|)) < Pow(BASE, room - 1)
  {
    hide Pow, NumLimbs, BeforeLast, Reach;
    LastReachesHighest(decimals, 0);
    NumLimbsIs(BeforeLast(decimals) * Pow(5, LastChunk(|decimals|)), room - 1);
  }

  /** Every number that leaves one limb of the capacity free can be built. */
  lemma SmallNumbersFit(decimals: bytes)
    requires |decimals| > 0 && AllDigits(decimals) && DecimalValue(decimals) < Pow(BASE, CAPACITY - 1)
    ensures Reach(decimals, 0) <= CAPACITY
  {
    hide Pow, DecimalValue, Reach;
    var n := LastChunk(|decimals|);
    StaysInside(decimals, CAPACITY);
    PrefixFits(decimals, |decimals| - n, n);
  }

  lemma OneLimb(d: limb)
    ensures Val([d]) == d
  {
    assert [d][1..] == [];
  }

  lemma PowOne()
    ensures Pow(BASE, 1) == BASE && Pow(BASE, 0) == 1
  {
  }

  /** Limbs above a position that have not changed contribute the same. */
  lemma SameRest(a: seq<limb>, b: seq<limb>, i: nat)
    requires |a| == |b| && i <= |a| && forall j :: i <= j < |a| ==> a[j] == b[j]
    ensures Val(a) - Val(a[..i]) == Val(b) - Val(b[..i])
  {
    hide Val, Pow;
    assert a == a[..i] + a[i..] && b == b[..i] + b[i..] && a[i..] == b[i..];
    ValConcat(a[..i], a[i..]);
    ValConcat(b[..i], b[i..]);
  }

  /** A sum with as many limbs as a normal summand is normal. */
  lemma SumIsNormal(s: seq<limb>, before: seq<limb>)
    requires Normal(before) && |s| == |before| && Val(s) >= Val(before)
    ensures Normal(s)
  {
    hide Val, Pow;
    TopLimb(s);
    TopLimb(before);
  }

  lemma PushedIsNormal(s: seq<limb>, d: limb)
    requires d != 0
    ensures Normal(s + [d])
  {
  }

  /** The carry moves one limb up. */
  lemma CarryStep(low: seq<limb>, before: seq<limb>, i: nat, d: limb, u: limb)
    requires |low| == i < |before| && d == (before[i] + 1) % BASE
    requires Val(low) + Pow(BASE, i) == Val(before[..i]) + u
    ensures Val(low + [d]) + (if d < before[i] then Pow(BASE, i + 1) else 0) == Val(before[..i + 1]) + u
  {
    hide Val, Pow;
    PowNext(i);
    ValSnoc(low, d);
    ValSplit(before, i);
    CarryProduct(Pow(BASE, i), before[i], d);
  }

  lemma CarryProduct(p: nat, x: limb, d: limb)
    requires d == (x + 1) % BASE
    ensures p * d + (if d < x then BASE * p else 0) == p * x + p
  {
    if d < x {
      assert d == 0 && x == BASE - 1;
      assert p * 0 == 0 && p * (BASE - 1) == BASE * p - p;
    } else {
      assert d == x + 1;
      assert p * (x + 1) == p * x + p;
    }
  }

  /** A carry out of the top limb needs one more limb, and the number has it. */
  lemma CarryFits(low: seq<limb>, before: seq<limb>, u: limb, room: nat)
    requires |low| == |before| && Val(low) + Pow(BASE, |low|) == Val(before) + u
    requires Val(before) + u < Pow(BASE, room)
    ensures |low| < room
  {
    if |low| >= room {
      PowGrows(BASE, room, |low|);
    }
  }

  lemma EmptyProduct(before: seq<limb>, u: nat)
    ensures before[..0] == [] && Val([]) == 0 && Pow(BASE, 0) == 1
  {
  }

  lemma ProductStep(low: seq<limb>, before: seq<limb>, i: nat, u: nat, k: nat, lo: limb, hi: nat)
    requires |low| == i < |before|
    requires Val(low) + Pow(BASE, i) * k == Val(before[..i]) * u
    requires lo + hi * BASE == before[i] * u + k
    ensures Val(low + [lo]) + Pow(BASE, i + 1) * hi == Val(before[..i + 1]) * u
  {
    hide Val;
    assert Pow(BASE, i + 1) == BASE * Pow(BASE, i);
    hide Pow;
    ValSnoc(low, lo);
    ValSplit(before, i);
    MulStep(Val(before[..i]), before[i], u, k, Val(low), lo, hi, Pow(BASE, i));
  }

  /** d * u + k for a word d and 32-bit u and k, by halves. */
  method MulAdd32(digit: limb, u: int, k: int) returns (lo: limb, hi: int)
    requires 0 <= u < HALF && 0 <= k < HALF
    ensures lo + hi * BASE == digit * u + k && 0 <= hi < HALF
  {
    var c: int, d: int := digit / HALF, digit % HALF;
    var uc: int, ud: int := u * c, u * d;
    BoundedProduct(u, c, HALF - 1);
    BoundedProduct(u, d, HALF - 1);
    assert digit * u == uc * HALF + ud by {
      assert (c * HALF + d) * u == (u * c) * HALF + u * d;
    }
    lo, hi := AddHalves(uc, ud, k);
  }

  method AddHalves(uc: int, ud: int, k: int) returns (lo: limb, hi: int)
    requires PartialProduct(uc) && PartialProduct(ud) && 0 <= k < HALF
    ensures lo + hi * BASE == uc * HALF + ud + k && 0 <= hi < HALF
  {
    var p0: int := ud + k;
    assert p0 < BASE;
    var p1: int := uc + p0 / HALF;
    assert p1 < BASE;
    assert (p1 * HALF) % BASE == p1 % HALF * HALF by {
      assert p1 * HALF == p1 / HALF * BASE + p1 % HALF * HALF;
    }
    lo := p0 % HALF + (p1 * HALF) % BASE;
    hi := p1 / HALF;
  }

  /** The limbs above position `i` have their final values, the ones up to it are still the old ones. */
  predicate BitsMoved(digits: seq<limb>, before: seq<limb>, s: seq<limb>, offset: nat, i: nat) {
    var n := |before|;
    && i <= n && n + offset < |digits| && |s| == n + 1
    && (i == n ==> digits[n] == 0)
    && (forall j :: 0 <= j <= i && j < n ==> digits[j] == before[j])
    && (forall j :: i < j <= n ==> digits[j + offset] == s[j])
  }

  /** A limb shifted up, with the bits of the limb below it. */
  function MovedLimb(high: limb, low: limb, up: int, down: int): int
    requires down > 0
  {
    high * up % BASE + low / down
  }

  lemma RoomAbove(digits: seq<limb>, before: seq<limb>, s: seq<limb>, offset: nat)
    requires BitsMoved(digits, before, s, offset, 0)
    ensures |before| + offset < |digits| && |s| == |before| + 1
    ensures before != [] ==> digits[0] == before[0]
  {
  }

  lemma TopOfMoved(digits: seq<limb>, s: seq<limb>, offset: nat, n: nat)
    requires |s| == n + 1 && offset + n < |digits| && digits[offset..offset + n + 1] == s
    ensures digits[offset + n] == s[n] && digits[offset..offset + n] == s[..n]
  {
    assert digits[offset..offset + n + 1][n] == digits[offset + n];
    assert digits[offset..offset + n + 1][..n] == digits[offset..offset + n];
  }

  lemma NoBitsMoved(digits: seq<limb>, before: seq<limb>, s: seq<limb>, offset: nat)
    requires |before| + offset < |digits| && |s| == |before| + 1 && digits[|before|] == 0
    requires digits[..|before|] == before
    ensures BitsMoved(digits, before, s, offset, |before|)
  {
    assert forall j :: 0 <= j < |before| ==> digits[j] == digits[..|before|][j];
  }

  lemma BitsStep(digits: seq<limb>, before: seq<limb>, s: seq<limb>, offset: nat, i: nat, up: int, down: int)
    requires up > 0 && down > 0 && up * down == BASE && s == Shifted(before, up, down, 0)
    requires 0 < i && BitsMoved(digits, before, s, offset, i)
    ensures MovedLimb(digits[i], digits[i - 1], up, down) == s[i]
    ensures BitsMoved(digits[i + offset := s[i]], before, s, offset, i - 1)
  {
    ShiftedLimb(before, up, down, 0, i);
    hide Shifted;
    assert digits[i - 1] == before[i - 1] && digits[i] == if i < |before| then before[i] else 0;
  }

  lemma LastBits(digits: seq<limb>, before: seq<limb>, s: seq<limb>, offset: nat, up: int, down: int)
    requires up > 0 && down > 0 && up * down == BASE && s == Shifted(before, up, down, 0)
    requires before != [] && BitsMoved(digits, before, s, offset, 0)
    ensures MovedLimb(digits[0], 0, up, down) == s[0]
    ensures digits[offset := s[0]][offset..offset + |before| + 1] == s
  {
    ShiftedLimb(before, up, down, 0, 0);
    hide Shifted;
  }

  lemma NoShift()
    ensures Pow(2, 0) == 1
  {
  }

  /** A shift is a number of whole limbs and a number of bits. */
  lemma ShiftSplits(shift: nat)
    ensures Pow(2, shift) == Pow(BASE, shift / 64) * Pow(2, shift % 64)
  {
    assert shift == 64 * (shift / 64) + shift % 64;
    PowAdd(2, 64 * (shift / 64), shift % 64);
    LimbPowers(shift / 64);
  }

  lemma {:induction false} LimbPowers(n: nat)
    ensures Pow(2, 64 * n) == Pow(BASE, n)
  {
    if n > 0 {
      LimbPowers(n - 1);
      PowTwo64();
      PowAdd(2, 64, 64 * (n - 1));
      assert 64 + 64 * (n - 1) == 64 * n;
    }
  }

  /** 2^s and 2^(64-s), the factors that stand for shifting left by s and right by 64 - s. */
  method BitPowers(s: nat) returns (up: int, down: int)
    requires 0 < s < 64
    ensures up == Pow(2, s) && up > 1 && down > 0 && up * down == BASE
  {
    up, down := Pow(2, s), Pow(2, 64 - s);
    PowAdd(2, s, 64 - s);
    PowTwo64();
    PowPositive(2, 64 - s);
    PowPositive(2, s - 1);
  }

  /** Limbs above cleared ones count by the power of the offset. */
  lemma OffsetValue(s: seq<limb>, offset: nat)
    requires offset <= |s| && forall j :: 0 <= j < offset ==> s[j] == 0
    ensures Val(s) == Pow(BASE, offset) * Val(s[offset..])
  {
    hide Val, Pow;
    assert s == s[..offset] + s[offset..];
    ValConcat(s[..offset], s[offset..]);
    ZeroLimbs(s[..offset]);
  }

  lemma MovedValue(s: seq<limb>, before: seq<limb>, offset: nat)
    requires offset <= |s| && s[offset..] == before && (forall j :: 0 <= j < offset ==> s[j] == 0)
    requires Normal(before) && Val(before) > 0
    ensures Normal(s) && Val(s) == Val(before) * Pow(BASE, offset)
  {
    hide Val, Pow;
    OffsetValue(s, offset);
    assert before[|before| - 1] != 0 by {
      if |before| == 1 {
        assert before == [before[0]];
        OneLimb(before[0]);
      }
    }
    assert s[|s| - 1] == before[|before| - 1];
  }

  lemma ShiftedResult(s: seq<limb>, before: seq<limb>, offset: nat, up: int, down: int)
    requires offset <= |s| && (forall j :: 0 <= j < offset ==> s[j] == 0)
    requires Normal(before) && Val(before) > 0 && up > 1 && down > 0 && up * down == BASE
    requires var moved := Shifted(before, up, down, 0);
             s[offset..] == if moved[|before|] != 0 then moved else moved[..|before|]
    ensures Normal(s) && Val(s) == Val(before) * (Pow(BASE, offset) * up)
  {
    assert |before| >= 1;
    hide Val, Shifted, Pow, Normal;
    var top := s[offset..];
    ShiftedTop(top, before, up, down);
    TopOfShifted(top, before, up, |before|);
    Scaled(Val(before), up);
    MovedValue(s, top, offset);
    Regroup(Val(before), up, Pow(BASE, offset));
  }

  lemma Regroup(v: nat, up: nat, p: nat)
    ensures (v * up) * p == v * (p * up)
  {
  }

  lemma ShiftedTop(top: seq<limb>, before: seq<limb>, up: int, down: int)
    requires up > 1 && down > 0 && up * down == BASE && |before| >= 1
    requires var moved := Shifted(before, up, down, 0);
             top == if moved[|before|] != 0 then moved else moved[..|before|]
    ensures Val(top) == Val(before) * up
    ensures |top| == |before| || (|top| == |before| + 1 && top[|before|] != 0)
  {
    hide Val, Shifted, Pow;
    var moved, n := Shifted(before, up, down, 0), |before|;
    ShiftedVal(before, up, down, 0);
    assert moved[..n + 1] == moved;
    ValSplit(moved, n);
    Scaled(Pow(BASE, n), moved[n]);
  }

  lemma TopOfShifted(top: seq<limb>, before: seq<limb>, up: int, n: nat)
    requires n == |before| && Normal(before) && Val(before) > 0 && up > 1
    requires Val(top) == Val(before) * up
    requires |top| == n || (|top| == n + 1 && top[n] != 0)
    ensures Normal(top)
  {
    hide Val, Pow;
    Scaled(Val(before), up);
    if |top| == n {
      SumIsNormal(top, before);
    }
  }

  lemma PowersOfFive()
    ensures Pow(5, 13) == POW5_13 && Pow(5, 27) == POW5_27 && Pow(5, 0) == 1
  {
    assert Pow(5, 3) == 125 && Pow(5, 1) == 5;
    PowAdd(5, 3, 3);
    PowAdd(5, 6, 6);
    PowAdd(5, 12, 1);
    PowAdd(5, 13, 13);
    PowAdd(5, 26, 1);
  }

  lemma SmallPowerOfFive(e: nat)
    requires e < 13
    ensures Pow(5, e) < HALF
  {
    PowersOfFive();
    PowGrows(5, e, 13);
  }

  /** A power of five leaves the exponent and enters the number. */
  lemma FactorOut(v: nat, e: nat, f: nat, room: nat)
    requires f <= e && v * Pow(5, e) < room
    ensures v * Pow(5, f) < room
    ensures (v * Pow(5, f)) * Pow(5, e - f) == v * Pow(5, e)
  {
    PowAdd(5, f, e - f);
    PowPositive(5, e - f);
    hide Pow;
    var x, y := Pow(5, f), Pow(5, e - f);
    assert v * (x * y) == (v * x) * y;
    Scaled(v * x, y);
  }

  lemma LargerHasMoreLimbs(a: seq<limb>, b: seq<limb>)
    requires Normal(a) && Normal(b) && Val(a) > Val(b)
    ensures |b| <= |a|
  {
    hide Val, Pow;
    if |a| < |b| {
      MoreLimbs(a, b);
    }
  }

  lemma NoBorrowYet(a: seq<limb>, b: seq<limb>)
    ensures BorrowAt(a, b, 0, 0) == 0
  {
  }

  lemma TopIsNormal(s: seq<limb>)
    requires |s| >= 1 && s[|s| - 1] != 0
    ensures Normal(s)
  {
  }

  lemma OneLimbIsNormal(d: limb)
    ensures Normal([d])
  {
  }

  lemma NoDigits()
    ensures DecimalValue([]) == 0
  {
  }

  lemma NothingTimes(p: nat)
    ensures 0 * p == 0
  {
  }

  lemma ProductPositive(v: nat, exp: nat)
    requires v > 0
    ensures v * Pow(5, exp) > 0
  {
    PowPositive(5, exp);
    hide Pow;
    Scaled(v, Pow(5, exp));
  }

  lemma ByTens(v: nat, exp: nat)
    ensures (v * Pow(5, exp)) * Pow(2, exp) == v * Pow(10, exp)
  {
    PowTen(exp);
    hide Pow;
    Associate(v, Pow(5, exp), Pow(2, exp));
  }

  lemma RoomToMultiply(v: nat, room: nat)
    requires NumLimbs(v) < room
    ensures v < Pow(BASE, room)
  {
    NumLimbsIs(v, room);
  }

  /** A shift by less than twenty bits and a word added reach at most one more limb. */
  lemma RoomToAdd(v: nat, exp: nat, u: limb, room: nat)
    requires NumLimbs(v) < room && exp <= MAX_DIGITS
    ensures v * Pow(2, exp) + u < Pow(BASE, NumLimbs(v) + 1) <= Pow(BASE, room)
  {
    hide Pow, NumLimbs;
    var n := NumLimbs(v);
    SmallShift(exp);
    NumLimbsIs(v, n);
    PowGrows(BASE, 1, n);
    PowGrows(BASE, n + 1, room);
    PowOne();
    var p, t := Pow(BASE, n), Pow(2, exp);
    assert Pow(BASE, n + 1) == BASE * p by {
      PowNext(n);
    }
    assert v * t <= (p - 1) * 524288 by {
      assert (p - 1) * 524288 - v * t == (p - 1 - v) * 524288 + v * (524288 - t);
    }
  }

  lemma SmallShift(exp: nat)
    requires exp <= MAX_DIGITS
    ensures Pow(2, exp) <= 524288
  {
    PowGrows(2, exp, 19);
    assert Pow(2, 8) == 256;
    PowAdd(2, 8, 8);
    PowAdd(2, 16, 3);
  }

  lemma TopPower()
    ensures Pow(BASE, CAPACITY) == BASE * Pow(BASE, CAPACITY - 1) && Pow(BASE, CAPACITY - 1) >= BASE
  {
    PowGrows(BASE, 1, CAPACITY - 1);
    PowOne();
  }

  lemma PrefixSplits(decimals: bytes, i: nat, n: nat)
    requires AllDigits(decimals) && i + n <= |decimals|
    ensures AllDigits(decimals[..i]) && AllDigits(decimals[i..i + n]) && AllDigits(decimals[..i + n])
    ensures DecimalValue(decimals[..i + n])
            == DecimalValue(decimals[..i]) * Pow(10, n) + DecimalValue(decimals[i..i + n])
  {
    hide DecimalValue, Pow;
    assert decimals[..i + n] == decimals[..i] + decimals[i..i + n];
    DecimalConcat(decimals[..i], decimals[i..i + n]);
  }

  /** The digits read so far, times the power of five of the next step, do not exceed what the whole string denotes. */
  lemma PrefixFits(decimals: bytes, i: nat, n: nat)
    requires AllDigits(decimals) && i + n <= |decimals|
    ensures DecimalValue(decimals[..i]) * Pow(5, n) <= DecimalValue(decimals)
  {
    hide DecimalValue, Pow;
    PrefixSplits(decimals, i, n);
    PrefixBelow(decimals, i + n);
    PowTen(n);
    PowPositive(2, n);
    FiveBelowTen(DecimalValue(decimals[..i]), Pow(5, n), Pow(2, n), Pow(10, n));
  }

  lemma FiveBelowTen(v: nat, five: nat, two: nat, ten: nat)
    requires ten == five * two && two > 0
    ensures v * five <= v * ten
  {
    assert v * ten == (v * five) * two;
    Scaled(v * five, two);
  }

  lemma PrefixBelow(decimals: bytes, i: nat)
    requires AllDigits(decimals) && i <= |decimals|
    ensures AllDigits(decimals[..i]) && DecimalValue(decimals[..i]) <= DecimalValue(decimals)
  {
    hide DecimalValue, Pow;
    assert decimals == decimals[..i] + decimals[i..];
    DecimalConcat(decimals[..i], decimals[i..]);
    PowPositive(10, |decimals| - i);
    Scaled(DecimalValue(decimals[..i]), Pow(10, |decimals| - i));
  }

  /**
   A shift by bits stays inside the array exactly when the number leaves free the limbs it moves by and
   one more, whether or not the result needs it.
   */
  lemma ShiftStaysInside(value: nat, shift: nat)
    requires value > 0 && shift % 64 != 0 && shift / 64 + 1 < CAPACITY
    ensures ShiftReach(value, shift) <= CAPACITY <==> value < Pow(BASE, CAPACITY - 1 - shift / 64)
  {
    hide Pow, NumLimbs;
    NumLimbsIs(value, CAPACITY - 1 - shift / 64);
  }

  /**
   Some number fills the array once its digits are appended up to the shift, although the result of
   appending them fits.
   */
  lemma RoomIsTight() returns (v: nat)
    ensures v > 0 && v * Pow(10, 19) < Pow(BASE, CAPACITY) && v * Pow(5, 19) >= Pow(BASE, CAPACITY - 1)
  {
    hide Pow;
    TopPower();
    PowTen(19);
    SmallShift(19);
    NineteenDigits(19);
    PowPositive(5, 19);
    PowPositive(2, 19);
    v := Pow(BASE, CAPACITY - 1) / Pow(5, 19) + 1;
    QuotientAbove(Pow(BASE, CAPACITY - 1), Pow(5, 19));
    JustAbove(v, Pow(BASE, CAPACITY - 1), Pow(5, 19), Pow(2, 19), Pow(10, 19));
  }

  lemma JustAbove(v: nat, room: nat, five: nat, two: nat, ten: nat)
    requires ten == five * two && v * five <= room + five
    requires room >= BASE && two <= 524288 && ten < BASE
    ensures v * ten < BASE * room
  {
    assert v * (five * two) == (v * five) * two;
    assert (room + five) * two - (v * five) * two == (room + five - v * five) * two;
    assert (room + five) * two == room * two + ten;
    RoomLeft(room, two, ten);
  }

  lemma QuotientAbove(room: nat, five: nat)
    requires five > 0
    ensures room <= (room / five + 1) * five <= room + five
  {
    assert room == room / five * five + room % five;
    assert (room / five + 1) * five == room / five * five + five;
  }

  lemma RoomLeft(room: nat, two: nat, ten: nat)
    requires room >= BASE && two <= 524288 && ten < BASE
    ensures room * two + ten < BASE * room
  {
    assert room * two <= room * 524288 by {
      assert room * 524288 - room * two == room * (524288 - two);
    }
  }

  /** A number in `n` decimal digits, with leading zeros. */
  function Padded(v: nat, n: nat): (r: bytes)
    requires v < Pow(10, n)
    ensures |r| == n && AllDigits(r) && DecimalValue(r) == v
  {
    if n == 0 then [] else Padded(v / 10, n - 1) + [0x30 + v % 10]
  }

  /** A limb is worth less than twenty decimal digits. */
  lemma {:induction false} LimbsInDigits(n: nat)
    ensures Pow(BASE, n) <= Pow(10, 20 * n)
  {
    if n > 0 {
      LimbsInDigits(n - 1);
      TwentyDigits();
      PowAdd(10, 20, 20 * (n - 1));
      assert 20 + 20 * (n - 1) == 20 * n;
      PowNext(n - 1);
      hide Pow;
      ProductsOrdered(BASE, Pow(10, 20), Pow(BASE, n - 1), Pow(10, 20 * (n - 1)));
    }
  }

  lemma TwentyDigits()
    ensures BASE <= Pow(10, 20)
  {
    assert Pow(10, 5) == 100000;
    PowAdd(10, 5, 5);
    PowAdd(10, 10, 10);
  }

  lemma ProductsOrdered(a: nat, b: nat, c: nat, d: nat)
    requires a <= b && c <= d
    ensures a * c <= b * d
  {
    assert b * d - a * c == b * (d - c) + (b - a) * c;
  }

  /** As many whole chunks as hold every number that fits the array. */
  const CHUNKS: nat := 20 * CAPACITY / MAX_DIGITS + 1

  lemma FitsInChunks(v: nat)
    requires v * Pow(10, MAX_DIGITS) < Pow(BASE, CAPACITY)
    ensures v < Pow(10, MAX_DIGITS * CHUNKS)
  {
    LimbsInDigits(CAPACITY);
    PowGrows(10, 20 * CAPACITY, MAX_DIGITS * CHUNKS);
    PowPositive(10, MAX_DIGITS);
    hide Pow;
    ProductsOrdered(v, v, 1, Pow(10, MAX_DIGITS));
  }

  /**
   A value that fits the capacity does not suffice: some string of digits, of ordinary
   length, denotes one, and building it writes the limb behind the array.
   */
  lemma FittingIsNotEnough()
    ensures exists d: bytes ::
              && 0 < |d| <= 20 * CAPACITY + 40 && AllDigits(d)
              && DecimalValue(d) < Pow(BASE, CAPACITY) && Reach(d, 0) == CAPACITY + 1
  {
    hide Pow, DecimalValue, Padded, Reach, NumLimbs;
    var v := RoomIsTight();
    FitsInChunks(v);
    PowPositive(10, MAX_DIGITS);
    var front, zeros := Padded(v, MAX_DIGITS * CHUNKS), Padded(0, MAX_DIGITS);
    var d := front + zeros;
    DecimalConcat(front, zeros);
    assert d[..MAX_DIGITS * CHUNKS] == front;
    LastReachesHighest(d, 0);
    FillsTheArray(v);
  }

  lemma FillsTheArray(v: nat)
    requires v > 0 && v * Pow(10, MAX_DIGITS) < Pow(BASE, CAPACITY) && v * Pow(5, MAX_DIGITS) >= Pow(BASE, CAPACITY - 1)
    ensures AppendReach(v, MAX_DIGITS) == CAPACITY + 1
  {
    hide Pow, NumLimbs;
    var product := v * Pow(5, MAX_DIGITS);
    PowTen(MAX_DIGITS);
    PowPositive(2, MAX_DIGITS);
    FiveBelowTen(v, Pow(5, MAX_DIGITS), Pow(2, MAX_DIGITS), Pow(10, MAX_DIGITS));
    NumLimbsIs(product, CAPACITY);
    NumLimbsIs(product, CAPACITY - 1);
  }
}
