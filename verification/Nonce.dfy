/**
 The nonce field of a block: four little-endian bytes at a fixed offset, written under a
 mask. A 32-bit word is a number below 2^32; bitwise operations act on its bytes.
 */
module Nonce {
  import opened Arithmetic
  import opened Bytes
  import opened Json

  const NONCE_OFFSET: nat := 39
  const NICEHASH_NONCE_MASK: nat := 0x00FF_FFFF
  const WORD: nat := 0x1_0000_0000

  function Le(n: nat): (b: bytes)
    requires n < WORD
    ensures |b| == 4
  {
    [n % 256, n / 256 % 256, n / 256 / 256 % 256, n / 256 / 256 / 256]
  }

  lemma FromLeWord(b: bytes)
    requires |b| == 4
    ensures FromLe(b) == b[0] as int + 256 * b[1] as int + 65536 * b[2] as int + 16777216 * b[3] as int
    ensures FromLe(b) < WORD
  {
    assert b[1..] == [b[1], b[2], b[3]] && b[1..][1..] == [b[2], b[3]] && b[1..][1..][1..] == [b[3]];
    assert FromLe([b[3]]) == b[3] as int;
  }

  lemma LeThereAndBack(n: nat)
    requires n < WORD
    ensures FromLe(Le(n)) == n
  {
    FromLeWord(Le(n));
  }

  lemma LeOfBytes(b: bytes)
    requires |b| == 4
    ensures FromLe(b) < WORD && Le(FromLe(b)) == b
  {
    FromLeWord(b);
    var n := FromLe(b);
    var x1: int := b[1] as int + 256 * b[2] as int + 65536 * b[3] as int;
    var x2: int := b[2] as int + 256 * b[3] as int;
    assert n == 256 * x1 + b[0] as int && n / 256 == x1;
    assert x1 == 256 * x2 + b[1] as int && x1 / 256 == x2;
    assert x2 / 256 == b[3] as int;
  }

  lemma LeIsInjective(m: nat, n: nat)
    requires m < WORD && n < WORD && Le(m) == Le(n)
    ensures m == n
  {
    LeThereAndBack(m);
    LeThereAndBack(n);
  }

  // ---------- merging under a mask ----------

  function Pow2(k: nat): (p: nat)
    ensures p > 0
  {
    if k == 0 then 1 else 2 * Pow2(k - 1)
  }

  /** `(current & !mask) | (nonce & mask)` on words of that many bits, bit by bit. */
  function Merge(current: nat, nonce: nat, mask: nat, bits: nat): nat {
    if bits == 0 then 0
    else (if mask % 2 == 1 then nonce % 2 else current % 2) + 2 * Merge(current / 2, nonce / 2, mask / 2, bits - 1)
  }

  /** The low part of one word below the high part of another. */
  function Joined(high: nat, low: nat, p: nat): nat
    requires p > 0
  {
    low % p + p * (high / p)
  }

  /** A mask of `k` ones takes the low `k` bits of the nonce and leaves the rest of the word. */
  lemma {:induction false} MergeLow(current: nat, nonce: nat, k: nat, bits: nat)
    requires k <= bits && current < Pow2(bits)
    ensures Merge(current, nonce, Pow2(k) - 1, bits) == Joined(current, nonce, Pow2(k))
    decreases bits
  {
    hide Merge, Joined, Pow2;
    PowerZero();
    if k == 0 {
      MergeNothing(current, nonce, bits);
      JoinedAtOne(current, nonce);
    } else {
      var p := Pow2(k - 1);
      PowerStep(k);
      PowerStep(bits);
      MergeLow(current / 2, nonce / 2, k - 1, bits - 1);
      OddMask(p);
      MergeOdd(current, nonce, 2 * p - 1, bits);
      JoinedDoubled(current, nonce, p);
    }
  }

  lemma PowerZero()
    ensures Pow2(0) == 1
  {
  }

  lemma PowerStep(k: nat)
    requires k > 0
    ensures Pow2(k) == 2 * Pow2(k - 1)
  {
  }

  lemma JoinedAtOne(high: nat, low: nat)
    ensures Joined(high, low, 1) == high
  {
  }

  lemma JoinedDoubled(high: nat, low: nat, p: nat)
    requires p > 0
    ensures low % 2 + 2 * Joined(high / 2, low / 2, p) == Joined(high, low, 2 * p)
  {
    HalvedParts(low, p);
    HalvedParts(high, p);
    var q := high / 2 / p;
    assert 2 * (p * q) == (2 * p) * q;
  }

  lemma {:induction false} MergeNothing(current: nat, nonce: nat, bits: nat)
    requires current < Pow2(bits)
    ensures Merge(current, nonce, 0, bits) == current
  {
    if bits > 0 {
      MergeNothing(current / 2, nonce / 2, bits - 1);
    }
  }

  lemma MergeOdd(current: nat, nonce: nat, mask: nat, bits: nat)
    requires bits > 0 && mask % 2 == 1
    ensures Merge(current, nonce, mask, bits) == nonce % 2 + 2 * Merge(current / 2, nonce / 2, mask / 2, bits - 1)
  {
  }

  lemma OddMask(p: nat)
    requires p > 0
    ensures (2 * p - 1) % 2 == 1 && (2 * p - 1) / 2 == p - 1
  {
  }

  lemma HalvedParts(n: nat, p: nat)
    requires p > 0
    ensures n / 2 / p == n / (2 * p)
    ensures n % (2 * p) == n % 2 + 2 * (n / 2 % p)
  {
    var q, r := n / 2 / p, n / 2 % p;
    assert n == 2 * (n / 2) + n % 2 && n / 2 == q * p + r;
    assert 2 * (q * p + r) == q * (2 * p) + 2 * r;
    QuotientIs(n, 2 * p, q, 2 * r + n % 2);
  }

  lemma MaskPowers()
    ensures Pow2(24) - 1 == NICEHASH_NONCE_MASK && Pow2(32) - 1 == U32_MAX
  {
    assert Pow2(8) == 256;
    assert Pow2(16) == 65536;
    assert Pow2(24) == 16777216;
    assert Pow2(32) == 4294967296;
  }

  function Merged(current: nat, nonce: nat, mask: nat): (m: nat)
    requires current < WORD && nonce < WORD && mask < WORD
    ensures m < WORD
  {
    MaskPowers();
    MergeBound(current, nonce, mask, 32);
    Merge(current, nonce, mask, 32)
  }

  lemma {:induction false} MergeBound(current: nat, nonce: nat, mask: nat, bits: nat)
    ensures Merge(current, nonce, mask, bits) < Pow2(bits)
  {
    if bits > 0 {
      MergeBound(current / 2, nonce / 2, mask / 2, bits - 1);
    }
  }

  /** Under the NiceHash mask the highest byte stays what it was; under the full mask nothing does. */
  lemma MergedUnderMasks(current: nat, nonce: nat)
    requires current < WORD && nonce < WORD
    ensures Le(Merged(current, nonce, NICEHASH_NONCE_MASK)) == Le(nonce)[..3] + [Le(current)[3]]
    ensures Merged(current, nonce, U32_MAX) == nonce
  {
    hide Merge, Pow2, Joined, Le;
    MaskPowers();
    MergeLow(current, nonce, 24, 32);
    MergeLow(current, nonce, 32, 32);
    JoinedWords(current, nonce);
    var low, high := nonce % 16777216, current / 16777216;
    LowBytes(Merged(current, nonce, NICEHASH_NONCE_MASK), nonce, low, high);
    LowBytes(current, current, current % 16777216, high);
  }

  lemma JoinedWords(current: nat, nonce: nat)
    requires current < WORD && nonce < WORD
    ensures Joined(current, nonce, 16777216) == nonce % 16777216 + 16777216 * (current / 16777216)
    ensures Joined(current, nonce, 4294967296) == nonce
  {
  }

  lemma LowBytes(m: nat, nonce: nat, low: nat, high: nat)
    requires m < WORD && nonce < WORD && low == nonce % 16777216 && m == low + 16777216 * high
    ensures Le(m)[..3] == Le(nonce)[..3] && Le(m)[3] == high
  {
    var n3 := nonce / 16777216;
    ShiftOut(low, 65536 * high);
    ShiftOut(low, 65536 * n3);
    ShiftOut(low / 256, 256 * high);
    ShiftOut(low / 256, 256 * n3);
    ShiftOut(low / 256 / 256, high);
    ShiftOut(low / 256 / 256, n3);
  }

  lemma ShiftOut(low: nat, x: nat)
    ensures (low + 256 * x) / 256 == low / 256 + x && (low + 256 * x) % 256 == low % 256
  {
  }

  // ---------- the field of a block ----------

  /** The four bytes of the field, if the block is long enough. */
  function Field(blob: bytes): Option<bytes> {
    if NONCE_OFFSET + 4 > |blob| then None else Some(blob[NONCE_OFFSET..NONCE_OFFSET + 4])
  }

  function ReadNonce(blob: bytes): (n: Option<nat>)
    ensures n.Some? ==> n.value < WORD
  {
    if Field(blob).None? then None
    else
      FromLeWord(Field(blob).value);
      Some(FromLe(Field(blob).value))
  }

  /** The block with the merged nonce in its field. */
  function Written(blob: bytes, nonce: nat, mask: nat): (r: bytes)
    requires nonce < WORD && mask < WORD
    ensures |r| == |blob|
  {
    if Field(blob).None? then blob
    else blob[..NONCE_OFFSET] + Le(Merged(ReadNonce(blob).value, nonce, mask)) + blob[NONCE_OFFSET + 4..]
  }

  /** A block is from a NiceHash pool when its nonce field is not empty. */
  predicate DetectsNicehashNonce(blob: bytes) {
    ReadNonce(blob).Some? && ReadNonce(blob).value != 0
  }

  function NonceMask(nicehash: bool): nat {
    if nicehash then NICEHASH_NONCE_MASK else U32_MAX
  }

  /** Writes the field in place and returns the word that stands there now. */
  method WriteNonce(blob: array<byte>, nonce: nat, mask: nat) returns (merged: Option<nat>)
    requires nonce < WORD && mask < WORD
    modifies blob
    ensures blob[..] == Written(old(blob[..]), nonce, mask)
    ensures merged == if Field(old(blob[..])).None? then None else ReadNonce(blob[..])
  {
    if NONCE_OFFSET + 4 > blob.Length {
      return None;
    }
    ghost var before := blob[..];
    var current := FromLe(blob[NONCE_OFFSET..NONCE_OFFSET + 4]);
    FromLeWord(blob[NONCE_OFFSET..NONCE_OFFSET + 4]);
    var word := Merged(current, nonce, mask);
    var bytes := Le(word);
    hide Le, Merged;
    var i := 0;
    while i < 4
      invariant 0 <= i <= 4
      invariant blob[..NONCE_OFFSET] == before[..NONCE_OFFSET] && blob[NONCE_OFFSET + 4..] == before[NONCE_OFFSET + 4..]
      invariant blob[NONCE_OFFSET..NONCE_OFFSET + i] == bytes[..i]
    {
      blob[NONCE_OFFSET + i] := bytes[i];
      i := i + 1;
    }
    assert blob[..] == before[..NONCE_OFFSET] + bytes + before[NONCE_OFFSET + 4..];
    assert blob[..][NONCE_OFFSET..NONCE_OFFSET + 4] == bytes;
    LeThereAndBack(word);
    merged := Some(word);
  }

  /** Only the masked bytes of the field change, and they become the nonce's. */
  lemma WrittenBytes(blob: bytes, nonce: nat, nicehash: bool, i: nat)
    requires nonce < WORD && Field(blob).Some? && i < |blob|
    ensures var width := if nicehash then 3 else 4;
            Written(blob, nonce, NonceMask(nicehash))[i]
            == if NONCE_OFFSET <= i < NONCE_OFFSET + width then Le(nonce)[i - NONCE_OFFSET] else blob[i]
  {
    var current := ReadNonce(blob).value;
    MergedUnderMasks(current, nonce);
    LeOfBytes(Field(blob).value);
    hide Merged, Le, FromLe;
    assert Le(current) == Field(blob).value;
    var word := Merged(current, nonce, NonceMask(nicehash));
    assert Written(blob, nonce, NonceMask(nicehash)) == blob[..NONCE_OFFSET] + Le(word) + blob[NONCE_OFFSET + 4..];
    if nicehash {
      assert Le(word) == Le(nonce)[..3] + [blob[NONCE_OFFSET + 3]];
    } else {
      assert Le(word) == Le(nonce);
    }
  }

  /** Writing again forgets the nonce written before. */
  lemma WrittenTwice(blob: bytes, m: nat, n: nat, nicehash: bool)
    requires m < WORD && n < WORD
    ensures Written(Written(blob, m, NonceMask(nicehash)), n, NonceMask(nicehash))
            == Written(blob, n, NonceMask(nicehash))
  {
    if Field(blob).Some? {
      var once := Written(blob, m, NonceMask(nicehash));
      var twice, direct := Written(once, n, NonceMask(nicehash)), Written(blob, n, NonceMask(nicehash));
      forall i | 0 <= i < |blob| ensures twice[i] == direct[i] {
        WrittenBytes(blob, m, nicehash, i);
        WrittenBytes(blob, n, nicehash, i);
        WrittenBytes(once, n, nicehash, i);
      }
    }
  }

  /** Different nonces within the mask make different blocks. */
  lemma WrittenIsInjective(blob: bytes, m: nat, n: nat, nicehash: bool)
    requires Field(blob).Some? && m <= NonceMask(nicehash) && n <= NonceMask(nicehash)
    requires Written(blob, m, NonceMask(nicehash)) == Written(blob, n, NonceMask(nicehash))
    ensures m == n
  {
    if nicehash {
      assert Le(m)[3] == 0 == Le(n)[3];
    }
    hide Le, Written;
    forall i | 0 <= i < (if nicehash then 3 else 4) ensures Le(m)[i] == Le(n)[i] {
      WrittenBytes(blob, m, nicehash, NONCE_OFFSET + i);
      WrittenBytes(blob, n, nicehash, NONCE_OFFSET + i);
    }
    assert Le(m) == Le(n);
    LeIsInjective(m, n);
  }
}
