/**
 Subtraction limb by limb with the borrow test `d > a[i]`. The test misses a borrow when
 one comes in and the subtrahend limb is all ones: the difference is then the minuend
 limb itself, and no borrow goes out.
 */
module Borrowing {
  import opened Limbs

  type bit = x: int | 0 <= x <= 1

  function LimbOf(b: seq<limb>, i: nat): limb {
    if i < |b| then b[i] else 0
  }

  function Tail(b: seq<limb>): (t: seq<limb>)
    ensures |t| <= |b| && (|b| > 0 ==> |t| == |b| - 1)
  {
    if b == [] then [] else b[1..]
  }

  /** The limb that is written: two subtractions that wrap around. */
  function DiffLimb(a: limb, b: limb, borrow: bit): limb {
    ((a - borrow) % BASE - b) % BASE
  }

  function BorrowOut(a: limb, b: limb, borrow: bit): bit {
    if DiffLimb(a, b, borrow) > a then 1 else 0
  }

  /** All limbs of the difference, from the lowest on. */
  function Diff(a: seq<limb>, b: seq<limb>, borrow: bit): (d: seq<limb>)
    ensures |d| == |a|
  {
    if a == [] then []
    else [DiffLimb(a[0], LimbOf(b, 0), borrow)] + Diff(a[1..], Tail(b), BorrowOut(a[0], LimbOf(b, 0), borrow))
  }

  function BorrowAt(a: seq<limb>, b: seq<limb>, borrow: bit, i: nat): bit
    requires i <= |a|
  {
    if i == 0 then borrow else BorrowAt(a[1..], Tail(b), BorrowOut(a[0], LimbOf(b, 0), borrow), i - 1)
  }

  predicate LosesBorrow(b: limb, borrow: bit) {
    borrow == 1 && b == BASE - 1
  }

  /** The sum of all borrows that are lost on the way. */
  function Lost(a: seq<limb>, b: seq<limb>, borrow: bit): nat {
    if a == [] then 0
    else
      (if LosesBorrow(LimbOf(b, 0), borrow) then BASE else 0)
      + BASE * Lost(a[1..], Tail(b), BorrowOut(a[0], LimbOf(b, 0), borrow))
  }

  /** One limb: exact, up to a borrow that is lost. */
  lemma LimbStep(a: limb, b: limb, borrow: bit)
    ensures DiffLimb(a, b, borrow)
            == a - b - borrow + BASE * (BorrowOut(a, b, borrow) + if LosesBorrow(b, borrow) then 1 else 0)
    ensures !LosesBorrow(b, borrow) ==> (BorrowOut(a, b, borrow) == 1 <==> a < b + borrow)
  {
  }

  lemma DiffUnfold(a: seq<limb>, b: seq<limb>, borrow: bit)
    requires a != []
    ensures Val(Diff(a, b, borrow))
            == DiffLimb(a[0], LimbOf(b, 0), borrow)
               + BASE * Val(Diff(a[1..], Tail(b), BorrowOut(a[0], LimbOf(b, 0), borrow)))
  {
    hide DiffLimb, BorrowOut;
    assert Diff(a, b, borrow)[1..] == Diff(a[1..], Tail(b), BorrowOut(a[0], LimbOf(b, 0), borrow));
  }

  /** What a borrow out of the top limb is worth. */
  function OutOfTop(a: seq<limb>, b: seq<limb>, borrow: bit): nat {
    Pow(BASE, |a|) * BorrowAt(a, b, borrow, |a|)
  }

  lemma OutOfTopUnfold(a: seq<limb>, b: seq<limb>, borrow: bit)
    requires a != []
    ensures OutOfTop(a, b, borrow) == BASE * OutOfTop(a[1..], Tail(b), BorrowOut(a[0], LimbOf(b, 0), borrow))
  {
    RestUnfold(a, b, borrow);
    ValUnfold(a, b);
    hide BorrowAt, BorrowOut, Pow, LimbOf, Tail;
    var out := BorrowOut(a[0], LimbOf(b, 0), borrow);
    Associate(BASE, Pow(BASE, |a| - 1), BorrowAt(a[1..], Tail(b), out, |a| - 1));
  }

  /** The written limbs are the difference, plus what was lost, plus a borrow out of the top. */
  lemma {:induction false} DiffVal(a: seq<limb>, b: seq<limb>, borrow: bit)
    requires |b| <= |a|
    ensures Val(Diff(a, b, borrow)) == Val(a) - Val(b) - borrow + Lost(a, b, borrow) + OutOfTop(a, b, borrow)
  {
    if a == [] {
      NothingToSubtract(b, borrow);
    } else {
      hide Diff, DiffLimb, BorrowOut, LosesBorrow, Val, Lost, OutOfTop, LimbOf, Tail;
      var b0 := LimbOf(b, 0);
      var out := BorrowOut(a[0], b0, borrow);
      LimbStep(a[0], b0, borrow);
      assert |Tail(b)| <= |a[1..]|;
      DiffVal(a[1..], Tail(b), out);
      DiffUnfold(a, b, borrow);
      ValUnfold(a, b);
      RestUnfold(a, b, borrow);
      OutOfTopUnfold(a, b, borrow);
      DiffSum(DiffLimb(a[0], b0, borrow), Val(Diff(a[1..], Tail(b), out)),
              a[0], Val(a[1..]), b0, Val(Tail(b)), borrow, out,
              if LosesBorrow(b0, borrow) then 1 else 0, Lost(a[1..], Tail(b), out), OutOfTop(a[1..], Tail(b), out));
    }
  }

  lemma NothingToSubtract(b: seq<limb>, borrow: bit)
    requires b == []
    ensures Val(Diff([], b, borrow)) == 0 && Val([]) == 0 && Val(b) == 0 && Lost([], b, borrow) == 0
    ensures OutOfTop([], b, borrow) == borrow
  {
  }

  lemma DiffSum(low: int, rest: int, a0: int, as': int, b0: int, bs: int, borrow: int, out: int, loses: int, lost: int,
                top: int)
    requires low == a0 - b0 - borrow + BASE * (out + loses) && rest == as' - bs - out + lost + top
    ensures low + BASE * rest
            == (a0 + BASE * as') - (b0 + BASE * bs) - borrow + (BASE * loses + BASE * lost) + BASE * top
  {
  }

  lemma ValUnfold(a: seq<limb>, b: seq<limb>)
    requires a != []
    ensures Val(a) == a[0] + BASE * Val(a[1..]) && Val(b) == LimbOf(b, 0) + BASE * Val(Tail(b))
    ensures Pow(BASE, |a|) == BASE * Pow(BASE, |a| - 1)
  {
  }

  lemma RestUnfold(a: seq<limb>, b: seq<limb>, borrow: bit)
    requires a != []
    ensures var out := BorrowOut(a[0], LimbOf(b, 0), borrow);
            && BorrowAt(a, b, borrow, |a|) == BorrowAt(a[1..], Tail(b), out, |a| - 1)
            && Lost(a, b, borrow)
               == (if LosesBorrow(LimbOf(b, 0), borrow) then BASE else 0) + BASE * Lost(a[1..], Tail(b), out)
  {
    hide BorrowOut, LosesBorrow;
  }

  lemma {:induction false} DiffAt(a: seq<limb>, b: seq<limb>, borrow: bit, i: nat)
    requires i < |a|
    ensures Diff(a, b, borrow)[i] == DiffLimb(a[i], LimbOf(b, i), BorrowAt(a, b, borrow, i))
    ensures BorrowAt(a, b, borrow, i + 1) == BorrowOut(a[i], LimbOf(b, i), BorrowAt(a, b, borrow, i))
  {
    hide DiffLimb, BorrowOut;
    if i > 0 {
      DiffAt(a[1..], Tail(b), BorrowOut(a[0], LimbOf(b, 0), borrow), i - 1);
      assert LimbOf(Tail(b), i - 1) == LimbOf(b, i);
    }
  }

  /** No subtrahend limb is all ones where the limbs below it borrow. */
  predicate BorrowsKept(a: seq<limb>, b: seq<limb>, borrow: bit)
    requires |b| <= |a|
  {
    forall i :: 0 <= i < |b| && b[i] == BASE - 1 ==> Val(a[..i]) >= Val(b[..i]) + borrow
  }

  lemma KeptUnfold(a: seq<limb>, b: seq<limb>, borrow: bit)
    requires 0 < |b| <= |a| && !LosesBorrow(b[0], borrow)
    ensures BorrowsKept(a, b, borrow) <==> BorrowsKept(a[1..], b[1..], BorrowOut(a[0], b[0], borrow))
  {
    var out := BorrowOut(a[0], b[0], borrow);
    LimbStep(a[0], b[0], borrow);
    hide BorrowOut, DiffLimb;
    forall i | 0 < i < |b|
      ensures Val(a[..i]) >= Val(b[..i]) + borrow <==> Val(a[1..][..i - 1]) >= Val(b[1..][..i - 1]) + out
    {
      assert a[..i][1..] == a[1..][..i - 1] && b[..i][1..] == b[1..][..i - 1];
      CarryOver(a[0], b[0], borrow, out, Val(a[1..][..i - 1]), Val(b[1..][..i - 1]));
    }
    assert forall i :: 0 < i < |b| ==> b[i] == b[1..][i - 1];
    if BorrowsKept(a, b, borrow) {
      forall i | 0 <= i < |b[1..]| && b[1..][i] == BASE - 1 ensures Val(a[1..][..i]) >= Val(b[1..][..i]) + out {
        assert b[i + 1] == BASE - 1 && i + 1 - 1 == i;
        assert Val(a[..i + 1]) >= Val(b[..i + 1]) + borrow;
      }
    }
    if BorrowsKept(a[1..], b[1..], out) {
      forall i | 0 <= i < |b| && b[i] == BASE - 1 ensures Val(a[..i]) >= Val(b[..i]) + borrow {
        if i > 0 {
          assert b[1..][i - 1] == BASE - 1;
        } else {
          assert a[..0] == [] && b[..0] == [];
        }
      }
    }
  }

  lemma CarryOver(a: limb, b: limb, borrow: bit, out: bit, x: nat, y: nat)
    requires out == 1 <==> a < b + borrow
    requires !LosesBorrow(b, borrow)
    ensures a + BASE * x >= b + BASE * y + borrow <==> x >= y + out
  {
  }

  /** Nothing is lost exactly when the borrows are kept. */
  lemma {:induction false} LostNothing(a: seq<limb>, b: seq<limb>, borrow: bit)
    requires |b| <= |a|
    ensures Lost(a, b, borrow) == 0 <==> BorrowsKept(a, b, borrow)
  {
    hide Val;
    if b == [] {
      LostNothingAbove(a, borrow);
    } else if LosesBorrow(b[0], borrow) {
      assert !BorrowsKept(a, b, borrow) by {
        assert a[..0] == [] && b[..0] == [];
      }
    } else {
      KeptUnfold(a, b, borrow);
      LostNothing(a[1..], b[1..], BorrowOut(a[0], b[0], borrow));
    }
  }

  lemma {:induction false} LostNothingAbove(a: seq<limb>, borrow: bit)
    ensures Lost(a, [], borrow) == 0
  {
    if a != [] {
      LostNothingAbove(a[1..], BorrowOut(a[0], 0, borrow));
    }
  }

  /**
   Main result: for a larger minuend the limbs are the difference exactly when the borrows are kept,
   and too large otherwise.
   */
  lemma DiffIsExact(a: seq<limb>, b: seq<limb>)
    requires |b| <= |a| && Val(a) > Val(b)
    ensures Val(Diff(a, b, 0)) == Val(a) - Val(b) + Lost(a, b, 0)
    ensures Val(Diff(a, b, 0)) == Val(a) - Val(b) <==> BorrowsKept(a, b, 0)
  {
    DiffVal(a, b, 0);
    LostNothing(a, b, 0);
    ValBound(Diff(a, b, 0));
    hide Val, Pow, Diff, Lost, BorrowAt, BorrowsKept;
    Scaled(Pow(BASE, |a|), BorrowAt(a, b, 0, |a|));
  }

  lemma DiffStep(x: limb, a: seq<limb>, y: limb, b: seq<limb>, borrow: bit)
    ensures Diff([x] + a, [y] + b, borrow) == [DiffLimb(x, y, borrow)] + Diff(a, b, BorrowOut(x, y, borrow))
  {
    hide DiffLimb, BorrowOut;
    assert ([x] + a)[1..] == a && ([y] + b)[1..] == b;
  }

  lemma DiffStepAbove(x: limb, a: seq<limb>, borrow: bit)
    ensures Diff([x] + a, [], borrow) == [DiffLimb(x, 0, borrow)] + Diff(a, [], BorrowOut(x, 0, borrow))
  {
    hide DiffLimb, BorrowOut;
    assert ([x] + a)[1..] == a;
  }

  lemma ValStep(x: limb, a: seq<limb>)
    ensures Val([x] + a) == x + BASE * Val(a)
  {
    assert ([x] + a)[1..] == a;
  }

  /** The limbs of the example below: the second borrow is lost. */
  lemma ExampleLimbs()
    ensures DiffLimb(0, 1, 0) == BASE - 1 && BorrowOut(0, 1, 0) == 1
    ensures DiffLimb(0, BASE - 1, 1) == 0 && BorrowOut(0, BASE - 1, 1) == 0
    ensures DiffLimb(1, 0, 0) == 1
  {
  }

  /** A pair of normal forms whose difference comes out wrong: 2^128 - 2^64 + 1 subtracted from 2^128. */
  lemma BorrowLost()
    ensures var a, b := [0, 0, 1], [1, BASE - 1];
            && Normal(a) && Normal(b) && Val(a) - Val(b) == BASE - 1
            && Diff(a, b, 0) == [BASE - 1, 0, 1]
            && !BorrowsKept(a, b, 0)
  {
    hide Diff, DiffLimb, BorrowOut, Val;
    ExampleLimbs();
    DiffStep(0, [0, 1], 1, [BASE - 1], 0);
    DiffStep(0, [1], BASE - 1, [], 1);
    DiffStepAbove(1, [], 0);
    assert Diff([], [], BorrowOut(1, 0, 0)) == [];
    assert [1] + [] == [1] && [0] + [1] == [0, 1] && [0] + [0, 1] == [0, 0, 1];
    assert [BASE - 1] + [] == [BASE - 1] && [1] + [BASE - 1] == [1, BASE - 1];
    assert [BASE - 1] + ([0] + [1]) == [BASE - 1, 0, 1];
    ExampleValues();
    var a: seq<limb>, b: seq<limb> := [0, 0, 1], [1, BASE - 1];
    assert a[..1] == [0] && b[..1] == [1] && b[1] == BASE - 1;
  }

  lemma ExampleValues()
    ensures Val([0]) == 0 && Val([1]) == 1 && Val([0, 0, 1]) - Val([1, BASE - 1]) == BASE - 1
  {
    hide Val;
    ValStep(0, []);
    ValStep(1, []);
    ValStep(BASE - 1, []);
    ValStep(0, [1]);
    ValStep(0, [0, 1]);
    ValStep(1, [BASE - 1]);
    assert Val([]) == 0 by {
      ValZeroLimbs();
    }
    assert [0] + [] == [0] && [1] + [] == [1] && [BASE - 1] + [] == [BASE - 1];
    assert [0] + [1] == [0, 1] && [0] + [0, 1] == [0, 0, 1] && [1] + [BASE - 1] == [1, BASE - 1];
  }

  lemma ValZeroLimbs()
    ensures Val([]) == 0
  {
  }
}
