/**
 Stratum targets and difficulties: two floor divisions, one when a job is read and one
 for every hash that is checked.
 */
module Target {
  import opened Bytes
  import opened Json

  const U64_MAX: nat := 0xFFFF_FFFF_FFFF_FFFF

  datatype TargetError = InvalidHex | UnsupportedLength(n: nat)

  datatype Decoded = Difficulty(value: nat) | Invalid(error: TargetError)

  /** The bytes a hexadecimal text denotes. */
  function HexDecode(text: bytes): (b: Option<bytes>)
    ensures b.Some? ==> 2 * |b.value| == |text|
  {
    if text == [] then Some([])
    else if |text| == 1 || HexValue(text[0]) < 0 || HexValue(text[1]) < 0 then None
    else
      var rest := HexDecode(text[2..]);
      if rest.None? then None else Some([HexValue(text[0]) * 16 + HexValue(text[1])] + rest.value)
  }

  /** Bytes in hexadecimal, the high digit of each first; `cases` tells the letter case of every digit. */
  function HexEncode(b: bytes, cases: seq<bool>): (text: bytes)
    requires |cases| == 2 * |b|
    ensures |text| == 2 * |b|
  {
    if b == [] then []
    else [HexLetter(b[0] / 16, cases[0]), HexLetter(b[0] % 16, cases[1])] + HexEncode(b[1..], cases[2..])
  }

  /** Decoding undoes encoding, in whatever letter case. */
  lemma {:induction false} DecodeOfEncode(b: bytes, cases: seq<bool>)
    requires |cases| == 2 * |b|
    ensures HexDecode(HexEncode(b, cases)) == Some(b)
  {
    if b != [] {
      DecodeOfEncode(b[1..], cases[2..]);
      assert b[0] as int / 16 * 16 + b[0] as int % 16 == b[0] as int && [b[0]] + b[1..] == b;
      assert HexEncode(b, cases)[2..] == HexEncode(b[1..], cases[2..]);
    }
  }

  /** What decodes is the encoding of what it decodes to. */
  lemma {:induction false} EncodeOfDecode(text: bytes) returns (cases: seq<bool>)
    requires HexDecode(text).Some?
    ensures |cases| == |text| && HexEncode(HexDecode(text).value, cases) == text
  {
    cases := [];
    if text != [] {
      var b := HexDecode(text).value;
      var rest := EncodeOfDecode(text[2..]);
      HexLetterOf(text[0]);
      HexLetterOf(text[1]);
      cases := [text[0] <= 0x46, text[1] <= 0x46] + rest;
      assert cases[2..] == rest && b[1..] == HexDecode(text[2..]).value;
      assert b[0] / 16 == HexValue(text[0]) && b[0] % 16 == HexValue(text[1]);
    }
  }

  function Pow256(n: nat): nat {
    if n == 0 then 1 else 256 * Pow256(n - 1)
  }

  lemma {:induction false} FromLeBelow(b: bytes)
    ensures FromLe(b) < Pow256(|b|)
  {
    if b != [] {
      FromLeBelow(b[1..]);
    }
  }

  lemma FromLeBound(b: bytes)
    ensures |b| == 4 ==> FromLe(b) <= U32_MAX
    ensures |b| == 8 ==> FromLe(b) <= U64_MAX
  {
    FromLeBelow(b);
    assert Pow256(4) == 0x1_0000_0000;
    assert Pow256(8) == 0x1_0000_0000_0000_0000;
  }

  function Floor(n: nat, d: nat): nat
    requires d > 0
  {
    n / d
  }

  /** The difficulty of a target of four or eight bytes. */
  function DecodeTarget(text: bytes): Decoded {
    var b := HexDecode(text);
    if b.None? then Invalid(InvalidHex)
    else if |b.value| != 4 && |b.value| != 8 then Invalid(UnsupportedLength(|b.value|))
    else
      var target := FromLe(b.value);
      if target == 0 then Difficulty(U64_MAX)
      else Difficulty(Floor(if |b.value| == 4 then U32_MAX else U64_MAX, target))
  }

  /** Whether a hash is good enough: its highest eight bytes, as a number, lie below the threshold. */
  predicate CheckHash(hash: bytes, difficulty: nat) {
    |hash| >= 32 && difficulty != 0 && FromLe(hash[24..32]) < U64_MAX / difficulty
  }

  // ---------- floor division ----------

  lemma Quotient(n: nat, d: nat)
    requires d > 0
    ensures n / d * d <= n < n / d * d + d
    ensures n == n / d * d + n % d
  {
  }

  lemma QuotientAtLeast(n: nat, d: nat, q: nat)
    requires d > 0
    ensures q <= n / d <==> q * d <= n
  {
    Quotient(n, d);
    var k := n / d - q;
    assert k * d == n / d * d - q * d;
    if q <= n / d {
      assert k * d >= 0;
    } else {
      assert (-k) * d >= d by {
        assert (-k) * d == (-k - 1) * d + d;
      }
    }
  }

  lemma QuotientPositive(n: nat, d: nat)
    requires 0 < d <= n
    ensures n / d >= 1
  {
    QuotientAtLeast(n, d, 1);
  }

  /** The threshold that a difficulty made from target `t` leads to. */
  function Threshold(most: nat, t: nat): nat
    requires 0 < t <= most <= U64_MAX
  {
    QuotientPositive(most, t);
    U64_MAX / (most / t)
  }

  /**
   Eight bytes: the threshold is at least the target, below twice the target, and the target itself
   exactly when the remainder is small.
   */
  lemma Threshold64(t: nat)
    requires 0 < t <= U64_MAX
    ensures t <= Threshold(U64_MAX, t) < 2 * t
    ensures Threshold(U64_MAX, t) == t <==> U64_MAX % t < U64_MAX / t
    ensures t <= U64_MAX / t ==> Threshold(U64_MAX, t) == t
  {
    var m, d := U64_MAX, U64_MAX / t;
    QuotientPositive(m, t);
    Quotient(m, t);
    hide Threshold;
    ThresholdBounds(m, t, d, m % t);
  }

  lemma ThresholdBounds(m: nat, t: nat, d: nat, r: nat)
    requires t > 0 && d > 0 && m == d * t + r && r < t
    ensures t <= m / d < 2 * t
    ensures m / d == t <==> r < d
    ensures t <= d ==> m / d == t
  {
    AtLeastOnce(d, t);
    OneTimes(t, d);
    OneTimesMore(t, d);
    TwoTimes(t, d);
    QuotientAtLeast(m, d, t);
    QuotientAtLeast(m, d, t + 1);
    QuotientAtLeast(m, d, 2 * t);
    BoundsFromTests(m, t, d, r, d * t, m / d, t * d, (t + 1) * d, (2 * t) * d);
  }

  /** The bounds of a quotient `q`, from the three products that decide them. */
  lemma BoundsFromTests(m: int, t: int, d: int, r: int, product: int, q: int, once: int, onceMore: int, twice: int)
    requires t > 0 && d > 0 && m == product + r && 0 <= r < t <= product
    requires once == product && onceMore == product + d && twice == product + product
    requires (t <= q <==> once <= m) && (t + 1 <= q <==> onceMore <= m) && (2 * t <= q <==> twice <= m)
    ensures t <= q < 2 * t && (q == t <==> r < d) && (t <= d ==> q == t)
  {
  }

  lemma OneTimes(t: int, d: int)
    ensures t * d == d * t
  {
  }

  lemma OneTimesMore(t: int, d: int)
    ensures (t + 1) * d == d * t + d
  {
  }

  lemma TwoTimes(t: int, d: int)
    ensures (2 * t) * d == d * t + d * t
  {
  }

  /**
   Four bytes: at least the target scaled to 64 bits, below twice that, and the scaled target itself
   exactly for divisors of 2^32 - 1.
   */
  lemma Threshold32(t: nat)
    requires 0 < t <= U32_MAX
    ensures t * (U32_MAX + 2) <= Threshold(U32_MAX, t) < 2 * t * (U32_MAX + 2)
    ensures Threshold(U32_MAX, t) == t * (U32_MAX + 2) <==> U32_MAX % t == 0
  {
    var m, d, scale := U32_MAX, U32_MAX / t, U32_MAX + 2;
    QuotientPositive(m, t);
    Quotient(m, t);
    assert U64_MAX == m * scale;
    hide Threshold;
    ThresholdIs(m, t);
    Scaled(m, t, d, m % t, scale);
    QuotientBelow(m, t);
  }

  lemma ThresholdIs(most: nat, t: nat)
    requires 0 < t <= most <= U64_MAX
    ensures most / t > 0 && Threshold(most, t) == U64_MAX / (most / t)
  {
    QuotientPositive(most, t);
  }

  lemma QuotientBelow(n: nat, d: nat)
    requires d > 0
    ensures n / d <= n
  {
    QuotientAtLeast(n, d, n + 1);
    AtLeastOnce(d, n + 1);
    OneTimes(n + 1, d);
  }

  /**
   The scaled remainder decides whether the threshold passes the scaled target, since the scale is
   above the divisor.
   */
  lemma Scaled(m: nat, t: nat, d: nat, r: nat, scale: nat)
    requires t > 0 && d > 0 && m == d * t + r && r < t && scale > 0
    ensures t * scale <= (m * scale) / d < 2 * t * scale
    ensures d <= scale ==> ((m * scale) / d == t * scale <==> r == 0)
  {
    ScaledLower(m, t, d, scale);
    AtLeastOnce(d, t);
    TwoTimes(t, d);
    OneTimes(2 * t, d);
    ScaledUpper(m, t, d, scale);
    if d <= scale {
      ScaledExact(m, t, d, r, scale);
    }
  }

  lemma ScaledExact(m: nat, t: nat, d: nat, r: nat, scale: nat)
    requires t > 0 && d > 0 && m == d * t + r && d <= scale
    ensures (m * scale) / d <= t * scale <==> r == 0
  {
    var n := t * scale;
    QuotientAtLeast(m * scale, d, n + 1);
    OneTimesMore(n, d);
    OneTimes(n, d);
    Reorder(t, scale, d);
    Distribute(d * t, r, scale);
    ExactTest(d, r, scale, r * scale);
  }

  lemma Distribute(a: nat, b: nat, c: nat)
    ensures (a + b) * c == a * c + b * c
  {
  }

  lemma ExactTest(d: nat, r: nat, scale: nat, product: nat)
    requires 0 < d <= scale && product == r * scale
    ensures d <= product <==> r > 0
  {
    if r > 0 {
      AtLeastOnce(r, scale);
    }
  }

  lemma AtLeastOnce(d: nat, t: nat)
    requires d > 0
    ensures d * t >= t
  {
    assert d * t == (d - 1) * t + t;
  }

  lemma ScaledLower(m: nat, t: nat, d: nat, scale: nat)
    requires d > 0 && d * t <= m
    ensures t * scale <= (m * scale) / d
  {
    Reorder(t, scale, d);
    Monotone(d * t, m, scale);
    QuotientAtLeast(m * scale, d, t * scale);
  }

  lemma ScaledUpper(m: nat, t: nat, d: nat, scale: nat)
    requires d > 0 && scale > 0 && m + 1 <= d * (2 * t)
    ensures (m * scale) / d < (2 * t) * scale
  {
    Reorder(2 * t, scale, d);
    Monotone(m + 1, d * (2 * t), scale);
    assert (m + 1) * scale == m * scale + scale;
    QuotientAtLeast(m * scale, d, (2 * t) * scale);
  }

  lemma Monotone(a: nat, b: nat, c: nat)
    requires a <= b
    ensures a * c <= b * c
  {
    assert b * c - a * c == (b - a) * c;
  }

  lemma Reorder(t: nat, scale: nat, d: nat)
    ensures (t * scale) * d == (d * t) * scale
  {
  }

  /** A difficulty is never 0. */
  lemma DifficultyIsPositive(text: bytes)
    requires DecodeTarget(text).Difficulty?
    ensures 1 <= DecodeTarget(text).value <= U64_MAX
  {
    var b := HexDecode(text).value;
    FromLeBound(b);
    var t := FromLe(b);
    if t != 0 {
      QuotientPositive(if |b| == 4 then U32_MAX else U64_MAX, t);
      QuotientAtLeast(if |b| == 4 then U32_MAX else U64_MAX, t, U64_MAX + 1);
    }
  }

  /** What passes a higher difficulty passes every lower one. */
  lemma AcceptanceShrinks(hash: bytes, low: nat, high: nat)
    requires 0 < low <= high && CheckHash(hash, high)
    ensures CheckHash(hash, low)
  {
    var q := U64_MAX / high;
    Quotient(U64_MAX, high);
    assert q * low <= q * high by {
      assert q * high - q * low == q * (high - low);
    }
    QuotientAtLeast(U64_MAX, low, q);
  }

  /** The unit a target counts in. */
  function Unit(length: nat): nat {
    if length == 4 then U32_MAX + 2 else 1
  }

  /**
   End to end, from the target's text: every hash below the target is accepted, none from twice the
   target on. A four-byte target counts in units of 2^32 + 1.
   */
  lemma TargetDecides(b: bytes, cases: seq<bool>, hash: bytes)
    requires (|b| == 4 || |b| == 8) && |cases| == 2 * |b| && FromLe(b) > 0 && |hash| >= 32
    ensures var decoded, t, v := DecodeTarget(HexEncode(b, cases)), FromLe(b) * Unit(|b|), FromLe(hash[24..32]);
            && decoded.Difficulty?
            && (v < t ==> CheckHash(hash, decoded.value))
            && (CheckHash(hash, decoded.value) ==> v < 2 * t)
  {
    DecodeOfEncode(b, cases);
    FromLeBound(b);
    if |b| == 4 {
      Threshold32(FromLe(b));
      QuotientPositive(U32_MAX, FromLe(b));
    } else {
      Threshold64(FromLe(b));
      QuotientPositive(U64_MAX, FromLe(b));
    }
  }

  /** A text that is no hexadecimal is refused, and so are bytes that are neither four nor eight. */
  lemma WrongTargets(text: bytes)
    ensures DecodeTarget(text) == Invalid(InvalidHex)
            <==> forall b, cases :: |cases| == 2 * |b| ==> HexEncode(b, cases) != text
    ensures forall b, cases :: |cases| == 2 * |b| && HexEncode(b, cases) == text ==>
              if |b| == 4 || |b| == 8 then DecodeTarget(text).Difficulty?
              else DecodeTarget(text) == Invalid(UnsupportedLength(|b|))
  {
    hide HexDecode, HexEncode, FromLe;
    forall b, cases | |cases| == 2 * |b| && HexEncode(b, cases) == text ensures HexDecode(text) == Some(b) {
      DecodeOfEncode(b, cases);
    }
    if HexDecode(text).Some? {
      var cases := EncodeOfDecode(text);
      assert |cases| == 2 * |HexDecode(text).value| && HexEncode(HexDecode(text).value, cases) == text;
    }
  }

  /** The bytes of a number, lowest first. */
  function LeBytes(n: nat, k: nat): (b: bytes)
    requires n < Pow256(k)
    ensures |b| == k && FromLe(b) == n
  {
    if k == 0 then [] else [n % 256] + LeBytes(n / 256, k - 1)
  }

  /** A hash that is long enough and has this number in its highest eight bytes. */
  lemma HashOf(v: nat) returns (hash: bytes)
    requires v <= U64_MAX
    ensures |hash| == 32 && FromLe(hash[24..32]) == v
  {
    assert Pow256(8) == U64_MAX + 1;
    var low := seq(24, _ => 0);
    hash := low + LeBytes(v, 8);
    assert hash[24..32] == LeBytes(v, 8);
  }

  /** The targets that lose nothing in the two divisions. */
  predicate LosesNothing(length: nat, t: nat)
    requires t > 0
  {
    if length == 4 then U32_MAX % t == 0 else U64_MAX % t < U64_MAX / t
  }

  /** A hash is accepted exactly when it lies below the target. */
  ghost predicate AcceptsExactly(difficulty: nat, limit: nat) {
    forall hash: bytes :: |hash| >= 32 ==> (CheckHash(hash, difficulty) <==> FromLe(hash[24..32]) < limit)
  }

  /**
   Main result, for both lengths: acceptance means lying below the target exactly for the targets that
   lose nothing.
   */
  lemma TargetIsExact(b: bytes, cases: seq<bool>)
    requires (|b| == 4 || |b| == 8) && |cases| == 2 * |b| && FromLe(b) > 0
    ensures var decoded, t := DecodeTarget(HexEncode(b, cases)), FromLe(b);
            && decoded.Difficulty?
            && (AcceptsExactly(decoded.value, t * Unit(|b|)) <==> LosesNothing(|b|, t))
  {
    var n, t := |b|, FromLe(b);
    var most := if n == 4 then U32_MAX else U64_MAX;
    DecodeOfEncode(b, cases);
    FromLeBound(b);
    if n == 4 {
      Threshold32(t);
    } else {
      Threshold64(t);
    }
    ThresholdIs(most, t);
    AcceptsBelowThreshold(most / t, Threshold(most, t), t * Unit(n));
  }

  lemma AcceptsBelowThreshold(difficulty: nat, threshold: nat, limit: nat)
    requires difficulty > 0 && threshold == U64_MAX / difficulty && limit <= threshold
    ensures AcceptsExactly(difficulty, limit) <==> threshold == limit
  {
    if limit < threshold {
      QuotientBelow(U64_MAX, difficulty);
      var hash := HashOf(limit);
      assert CheckHash(hash, difficulty);
    }
  }

  /** The target 2^63 has difficulty 1, and the hash equal to it is accepted. */
  lemma EqualAccepted(cases: seq<bool>, hash: bytes)
    requires |cases| == 16 && |hash| >= 32 && hash[24..32] == [0, 0, 0, 0, 0, 0, 0, 0x80]
    ensures FromLe(hash[24..32]) == 0x8000_0000_0000_0000
    ensures DecodeTarget(HexEncode(hash[24..32], cases)) == Difficulty(1) && CheckHash(hash, 1)
  {
    hide HexEncode, HexDecode, FromLe;
    DecodeOfEncode(hash[24..32], cases);
    HighestBit();
  }

  lemma HighestBit()
    ensures FromLe([0, 0, 0, 0, 0, 0, 0, 0x80]) == 0x8000_0000_0000_0000
  {
    var zeros: bytes := [0, 0, 0, 0, 0, 0, 0];
    assert zeros + [0x80] == [0, 0, 0, 0, 0, 0, 0, 0x80];
    BehindZeros(zeros, 0x80);
    assert Pow256(7) == 0x100_0000_0000_0000;
  }

  lemma {:induction false} BehindZeros(zeros: bytes, top: byte)
    requires forall i :: 0 <= i < |zeros| ==> zeros[i] == 0
    ensures FromLe(zeros + [top]) == Pow256(|zeros|) * top as int
  {
    if zeros == [] {
      assert zeros + [top] == [top] && [top][1..] == [];
    } else {
      assert (zeros + [top])[1..] == zeros[1..] + [top];
      BehindZeros(zeros[1..], top);
    }
  }

  /** A target of zero leaves only the hash whose highest bytes are all zero. */
  lemma ZeroTarget(b: bytes, cases: seq<bool>, hash: bytes)
    requires (|b| == 4 || |b| == 8) && |cases| == 2 * |b| && FromLe(b) == 0 && |hash| >= 32
    ensures DecodeTarget(HexEncode(b, cases)) == Difficulty(U64_MAX)
    ensures CheckHash(hash, U64_MAX) <==> FromLe(hash[24..32]) == 0
  {
    DecodeOfEncode(b, cases);
  }
}
