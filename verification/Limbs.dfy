/**
 Numbers as little-endian sequences of 64-bit limbs, and the arithmetic facts that the
 in-place algorithms of `BigInteger` rest on.
 */
module Limbs {
  const BASE: int := 0x1_0000_0000_0000_0000
  const HALF: int := 0x1_0000_0000

  type limb = x: int | 0 <= x < BASE

  function Pow(b: nat, e: nat): nat {
    if e == 0 then 1 else b * Pow(b, e - 1)
  }

  function Val(s: seq<limb>): nat {
    if s == [] then 0 else s[0] + BASE * Val(s[1..])
  }

  lemma {:induction false} PowPositive(b: nat, e: nat)
    requires b > 0
    ensures Pow(b, e) > 0
  {
    if e > 0 {
      PowPositive(b, e - 1);
    }
  }

  lemma Associate(a: int, b: int, c: int)
    ensures (a * b) * c == a * (b * c)
  {
  }

  lemma {:induction false} PowAdd(b: nat, m: nat, n: nat)
    ensures Pow(b, m + n) == Pow(b, m) * Pow(b, n)
  {
    if m > 0 {
      PowAdd(b, m - 1, n);
      Associate(b, Pow(b, m - 1), Pow(b, n));
    }
  }

  lemma {:induction false} PowGrows(b: nat, m: nat, n: nat)
    requires b > 0 && m <= n
    ensures Pow(b, m) <= Pow(b, n)
  {
    PowAdd(b, m, n - m);
    PowPositive(b, n - m);
    hide Pow;
    Scaled(Pow(b, m), Pow(b, n - m));
  }

  lemma {:induction false} PowTen(e: nat)
    ensures Pow(10, e) == Pow(5, e) * Pow(2, e)
  {
    if e > 0 {
      PowTen(e - 1);
      var f, t := Pow(5, e - 1), Pow(2, e - 1);
      assert 10 * (f * t) == (5 * f) * (2 * t);
    }
  }

  lemma PowTwo64()
    ensures Pow(2, 64) == BASE
  {
    assert Pow(2, 8) == 256;
    PowAdd(2, 8, 8);
    PowAdd(2, 16, 16);
    PowAdd(2, 32, 32);
  }

  lemma {:induction false} ValConcat(a: seq<limb>, b: seq<limb>)
    ensures Val(a + b) == Val(a) + Pow(BASE, |a|) * Val(b)
  {
    if a == [] {
      assert a + b == b;
    } else {
      hide Val, Pow;
      assert (a + b)[0] == a[0] && (a + b)[1..] == a[1..] + b;
      ValConcat(a[1..], b);
      ValNext(a);
      ValNext(a + b);
      PowNext(|a| - 1);
      Associate(BASE, Pow(BASE, |a| - 1), Val(b));
      Gather(a[0], Val(a[1..]), Pow(BASE, |a| - 1) * Val(b));
    }
  }

  lemma ValNext(s: seq<limb>)
    requires s != []
    ensures Val(s) == s[0] + BASE * Val(s[1..])
  {
  }

  lemma PowNext(n: nat)
    ensures Pow(BASE, n + 1) == BASE * Pow(BASE, n)
  {
  }

  lemma Gather(low: int, x: int, y: int)
    ensures low + BASE * (x + y) == low + BASE * x + BASE * y
  {
  }

  lemma ValSnoc(s: seq<limb>, d: limb)
    ensures Val(s + [d]) == Val(s) + Pow(BASE, |s|) * d
  {
    ValConcat(s, [d]);
    assert Val([d]) == d;
  }

  lemma ValSplit(s: seq<limb>, i: nat)
    requires i < |s|
    ensures Val(s[..i + 1]) == Val(s[..i]) + Pow(BASE, i) * s[i]
  {
    assert s[..i + 1] == s[..i] + [s[i]];
    ValSnoc(s[..i], s[i]);
  }

  lemma {:induction false} ValBound(s: seq<limb>)
    ensures Val(s) < Pow(BASE, |s|)
  {
    if s != [] {
      ValBound(s[1..]);
      assert BASE * (Val(s[1..]) + 1) <= BASE * Pow(BASE, |s| - 1);
    }
  }

  /** A limb sequence is in normal form when its top limb is not zero; zero itself is one zero limb. */
  predicate Normal(s: seq<limb>) {
    |s| >= 1 && (|s| == 1 || s[|s| - 1] != 0)
  }

  lemma Scaled(p: nat, d: nat)
    ensures d == 0 ==> p * d == 0
    ensures d > 0 ==> p * d >= p
  {
  }

  /** The top limb is not zero exactly when the value reaches the power below it. */
  lemma TopLimb(s: seq<limb>)
    requires |s| >= 1
    ensures s[|s| - 1] != 0 <==> Val(s) >= Pow(BASE, |s| - 1)
  {
    hide Val, Pow;
    var n := |s| - 1;
    assert s[..n + 1] == s;
    ValSplit(s, n);
    ValBound(s[..n]);
    Scaled(Pow(BASE, n), s[n]);
  }

  /** The number of limbs of a normal form follows from the value. */
  lemma NormalCount(s: seq<limb>, n: nat)
    requires Normal(s) && n >= 1
    ensures Val(s) < Pow(BASE, n) <==> |s| <= n
  {
    ValBound(s);
    if |s| <= n {
      PowGrows(BASE, |s|, n);
    } else {
      TopLimb(s);
      PowGrows(BASE, n, |s| - 1);
    }
  }

  /** How many limbs a number takes. */
  function NumLimbs(v: nat): (n: nat)
    ensures n >= 1
  {
    if v < BASE then 1 else 1 + NumLimbs(v / BASE)
  }

  lemma {:induction false} NumLimbsIs(v: nat, n: nat)
    requires n >= 1
    ensures NumLimbs(v) <= n <==> v < Pow(BASE, n)
    decreases n
  {
    PowGrows(BASE, 1, n);
    assert Pow(BASE, 1) == BASE * Pow(BASE, 0) == BASE;
    if v >= BASE && n > 1 {
      NumLimbsIs(v / BASE, n - 1);
      assert Pow(BASE, n) == BASE * Pow(BASE, n - 1);
      QuotientBelow(v, Pow(BASE, n - 1));
    }
  }

  lemma QuotientBelow(v: nat, p: nat)
    ensures v / BASE < p <==> v < BASE * p
  {
  }

  lemma MoreHasMoreLimbs(v: nat, w: nat)
    requires v <= w
    ensures NumLimbs(v) <= NumLimbs(w)
  {
    hide NumLimbs, Pow;
    NumLimbsIs(w, NumLimbs(w));
    NumLimbsIs(v, NumLimbs(w));
  }

  /** A normal form has as many limbs as its number takes. */
  lemma LimbsAre(s: seq<limb>)
    requires Normal(s)
    ensures |s| == NumLimbs(Val(s))
  {
    hide NumLimbs, Pow, Val;
    var n := NumLimbs(Val(s));
    NumLimbsIs(Val(s), n);
    NormalCount(s, n);
    NormalCount(s, |s|);
    NumLimbsIs(Val(s), |s|);
  }

  lemma {:induction false} ZeroLimbs(s: seq<limb>)
    requires forall i :: 0 <= i < |s| ==> s[i] == 0
    ensures Val(s) == 0
  {
    if s != [] {
      ZeroLimbs(s[1..]);
    }
  }

  lemma {:induction false} ValZero(s: seq<limb>)
    requires Val(s) == 0
    ensures forall i :: 0 <= i < |s| ==> s[i] == 0
  {
    if s != [] {
      ValZero(s[1..]);
      assert forall i :: 0 < i < |s| ==> s[i] == s[1..][i - 1];
    }
  }

  // ---------- comparison ----------

  /** The highest differing limb decides. */
  lemma HighestDecides(a: seq<limb>, b: seq<limb>, i: nat)
    requires |a| == |b| && i < |a| && a[i] < b[i]
    requires forall j :: i < j < |a| ==> a[j] == b[j]
    ensures Val(a) < Val(b)
  {
    hide Val, Pow;
    assert a == a[..i + 1] + a[i + 1..] && b == b[..i + 1] + b[i + 1..];
    assert a[i + 1..] == b[i + 1..];
    ValConcat(a[..i + 1], a[i + 1..]);
    ValConcat(b[..i + 1], b[i + 1..]);
    ValSplit(a, i);
    ValSplit(b, i);
    ValBound(a[..i]);
    var p := Pow(BASE, i);
    Scaled(p, b[i] - a[i]);
    assert p * b[i] == p * a[i] + p * (b[i] - a[i]);
  }

  /** Of two normal forms, the one with more limbs is larger. */
  lemma MoreLimbs(a: seq<limb>, b: seq<limb>)
    requires Normal(b) && 1 <= |a| < |b|
    ensures Val(a) < Val(b)
  {
    ValBound(a);
    TopLimb(b);
    PowGrows(BASE, |a|, |b| - 1);
  }

  // ---------- one limb of each operation ----------

  /** One step of a schoolbook multiplication: the finished limbs and the carry stay the product of the limbs read. */
  lemma MulStep(v: nat, o: limb, u: nat, k: nat, w: nat, lo: nat, hi: nat, p: nat)
    requires w + p * k == v * u && lo + hi * BASE == o * u + k
    ensures (w + p * lo) + (BASE * p) * hi == (v + p * o) * u
  {
    assert p * (lo + hi * BASE) == p * lo + (BASE * p) * hi;
    assert p * (o * u + k) == (p * o) * u + p * k;
    assert (v + p * o) * u == v * u + (p * o) * u;
  }

  /** The limbs of a sequence shifted left by `s` bits, `carry` being the bits that enter at the bottom. */
  function Shifted(a: seq<limb>, up: int, down: int, carry: limb): (r: seq<limb>)
    requires up > 0 && down > 0 && up * down == BASE && carry < up
    ensures |r| == |a| + 1
  {
    if a == [] then [carry]
    else
      ShiftParts(a[0], up, down, carry);
      [a[0] * up % BASE + carry] + Shifted(a[1..], up, down, a[0] / down)
  }

  /** Shifting a limb splits it into the bits that stay and the bits that leave. */
  lemma ShiftParts(x: limb, up: int, down: int, carry: limb)
    requires up > 0 && down > 0 && up * down == BASE && carry < up
    ensures 0 <= x / down < up
    ensures x * up % BASE == x % down * up
    ensures x * up == x * up % BASE + BASE * (x / down)
    ensures x * up % BASE + carry < BASE
  {
    var q, r := x / down, x % down;
    QuotientParts(x, down);
    ShiftProduct(q, down, r, up);
    BelowProduct(r, down, up);
    DivModIs(x * up, q, r * up);
    Difference(q, up, down);
    NegativeFactor(q - up, down);
  }

  lemma QuotientParts(x: int, down: int)
    requires down > 0
    ensures x == x / down * down + x % down && 0 <= x % down < down
  {
  }

  lemma ShiftProduct(q: int, down: int, r: int, up: int)
    ensures (q * down + r) * up == (up * down) * q + r * up
  {
    assert (q * down + r) * up == (q * down) * up + r * up;
    assert (q * down) * up == (up * down) * q;
  }

  lemma BelowProduct(r: int, down: int, up: int)
    requires 0 <= r < down && up > 0
    ensures 0 <= r * up && r * up + up <= up * down
  {
    NotNegative(r, up);
    NotNegative(down - r - 1, up);
    SplitProduct(r, down, up);
  }

  lemma NotNegative(x: int, y: int)
    requires x >= 0 && y >= 0
    ensures x * y >= 0
  {
  }

  lemma SplitProduct(r: int, down: int, up: int)
    ensures up * down == (down - r - 1) * up + (r * up + up)
  {
  }

  lemma Difference(q: int, up: int, down: int)
    ensures (q - up) * down == q * down - up * down
  {
  }

  lemma NegativeFactor(k: int, m: int)
    requires m > 0 && k * m < 0
    ensures k < 0
  {
  }

  lemma DivModIs(n: int, q: int, r: int)
    requires n == q * BASE + r && 0 <= r < BASE
    ensures n / BASE == q && n % BASE == r
  {
  }

  lemma {:induction false} ShiftedVal(a: seq<limb>, up: int, down: int, carry: limb)
    requires up > 0 && down > 0 && up * down == BASE && carry < up
    ensures Val(Shifted(a, up, down, carry)) == Val(a) * up + carry
  {
    hide Pow;
    if a == [] {
      assert Val([carry]) == carry;
    } else {
      ShiftParts(a[0], up, down, carry);
      var out, low := a[0] / down, a[0] * up % BASE + carry;
      ShiftedVal(a[1..], up, down, out);
      assert Shifted(a, up, down, carry) == [low] + Shifted(a[1..], up, down, out);
      hide Shifted;
      ShiftedSum(a[0], Val(a[1..]), up, out, low, carry);
    }
  }

  lemma ShiftedSum(x: int, rest: int, up: int, out: int, low: int, carry: int)
    requires x * up == low - carry + BASE * out
    ensures low + BASE * (rest * up + out) == (x + BASE * rest) * up + carry
  {
    assert (x + BASE * rest) * up == x * up + BASE * (rest * up);
  }

  /** Limb `i` after a shift: the low bits of one limb and the high bits of the limb below. */
  function ShiftedAt(a: seq<limb>, up: int, down: int, carry: limb, i: nat): int
    requires down > 0 && i <= |a|
  {
    (if i < |a| then a[i] * up % BASE else 0) + (if i == 0 then carry else a[i - 1] / down)
  }

  lemma {:induction false} ShiftedLimb(a: seq<limb>, up: int, down: int, carry: limb, i: nat)
    requires up > 0 && down > 0 && up * down == BASE && carry < up && i <= |a|
    ensures Shifted(a, up, down, carry)[i] == ShiftedAt(a, up, down, carry, i)
  {
    if a != [] {
      ShiftParts(a[0], up, down, carry);
      if i > 0 {
        ShiftedLimb(a[1..], up, down, a[0] / down, i - 1);
        assert ShiftedAt(a[1..], up, down, a[0] / down, i - 1) == ShiftedAt(a, up, down, carry, i);
      }
    }
  }
}
