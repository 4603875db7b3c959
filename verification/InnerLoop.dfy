/** The inner loop of the constant-time inversion (external/blst/no_asm.h:765-821). */
module InnerLoop {
  import opened Limbs
  import opened LimbDivision
  import opened EuclInverse

  /** A signed number as a limb, in two's complement. */
  function Limb(B: nat, x: int): nat
    requires B > 0
  {
    ModNat(B, x);
    x % B
  }

  lemma ModNat(B: nat, x: int)
    requires B > 0
    ensures 0 <= x % B < B
  {
  }

  /** Limb subtraction and doubling are those of the signed numbers. */
  lemma LimbSub(B: nat, x: int, y: int)
    requires B > 0
    ensures (Limb(B, x) + B - Limb(B, y)) % B == Limb(B, x - y)
  {
    var k := x / B - y / B - 1;
    DistributeSub(x / B, y / B, B);
    Distribute(k, 1, B);
    SameMod(x - y, Limb(B, x) + B - Limb(B, y), B, k);
  }

  lemma LimbDouble(B: nat, x: int)
    requires B > 0
    ensures 2 * Limb(B, x) % B == Limb(B, 2 * x)
  {
    Associate(2, x / B, B);
    SameMod(2 * x, 2 * Limb(B, x), B, 2 * (x / B));
  }

  lemma SameMod(x: int, y: int, B: nat, k: int)
    requires B > 0 && x == y + k * B
    ensures x % B == y % B
  {
    Distribute(y / B, k, B);
    QuotRem(x, B, y / B + k, y % B);
  }

  /** The rows f0*a + g0*b = a_i*2^i and f1*a + g1*b = b_i*2^i, with small factors. */
  ghost predicate Rows(A: nat, Bv: nat, s: nat, a: nat, b: nat, F0: int, G0: int, F1: int, G1: int) {
    && F0 * A + G0 * Bv == a * s
    && F1 * A + G1 * Bv == b * s
    && Abs(F0) + Abs(G0) <= s && Abs(F1) + Abs(G1) <= s
    && b % 2 == 1
  }

  function Abs(x: int): nat {
    if x < 0 then -x else x
  }

  lemma RowsEven(A: nat, Bv: nat, s: nat, a: nat, b: nat, F0: int, G0: int, F1: int, G1: int)
    requires Rows(A, Bv, s, a, b, F0, G0, F1, G1) && a % 2 == 0
    ensures Rows(A, Bv, 2 * s, a / 2, b, F0, G0, 2 * F1, 2 * G1)
  {
    Associate(a / 2, 2, s);
    Doubled(F1, A, G1, Bv, b, s);
  }

  lemma Doubled(F: int, A: int, G: int, Bv: int, b: int, s: int)
    requires F * A + G * Bv == b * s
    ensures 2 * F * A + 2 * G * Bv == b * (2 * s)
  {
    Associate(2, F, A);
    Associate(2, G, Bv);
    Associate(b, 2, s);
    Associate(2, b, s);
  }

  lemma RowsOdd(A: nat, Bv: nat, s: nat, a: nat, b: nat, F0: int, G0: int, F1: int, G1: int)
    requires Rows(A, Bv, s, a, b, F0, G0, F1, G1) && a % 2 == 1 && b <= a
    ensures Rows(A, Bv, 2 * s, (a - b) / 2, b, F0 - F1, G0 - G1, 2 * F1, 2 * G1)
  {
    DistributeSub(F0, F1, A);
    DistributeSub(G0, G1, Bv);
    DistributeSub(a, b, s);
    var h := (a - b) / 2;
    assert a - b == h * 2;
    Associate(h, 2, s);
    Doubled(F1, A, G1, Bv, b, s);
  }

  lemma RowsSwap(A: nat, Bv: nat, s: nat, a: nat, b: nat, F0: int, G0: int, F1: int, G1: int)
    requires Rows(A, Bv, s, a, b, F0, G0, F1, G1) && a % 2 == 1
    ensures Rows(A, Bv, s, b, a, F1, G1, F0, G0)
  {
  }

  /** Two's complement of two limbs, lines 789-794. */
  method Negate2(B: nat, lo: nat, hi: nat) returns (lo': nat, hi': nat)
    requires B > 1 && lo < B && hi < B && W(B, lo, hi) > 0
    ensures lo' < B && hi' < B && W(B, lo', hi') == B * B - W(B, lo, hi)
  {
    var limbx := (B - 1 - lo) + 1;
    lo' := if limbx == B then 0 else limbx;
    hi' := B - 1 - hi + (if limbx == B then 1 else 0);
    DistributeSub(B, hi, B);
    DistributeSub(B - hi, 1, B);
  }

  /** Lines 780-796: a becomes |a - b| if it is odd, and b the smaller of the two. */
  method SubtractIfOdd(
      B: nat, aLo: nat, aHi: nat, bLo: nat, bHi: nat)
      returns (aLo': nat, aHi': nat, bLo': nat, bHi': nat, borrow: nat)
    requires B > 1 && B % 2 == 0 && aLo < B && aHi < B && bLo < B && bHi < B
    ensures aLo' < B && aHi' < B && bLo' < B && bHi' < B
    ensures var a, b := W(B, aLo, aHi), W(B, bLo, bHi);
            var a', b' := W(B, aLo', aHi'), W(B, bLo', bHi');
            && borrow == (if aLo % 2 == 1 && a < b then 1 else 0)
            && a' == (if aLo % 2 == 0 then a else if a < b then b - a else a - b)
            && b' == (if borrow == 1 then a else b)
  {
    var odd := aLo % 2;
    aLo', aHi', borrow := Sub2(B, aLo, aHi, if odd == 1 then bLo else 0, if odd == 1 then bHi else 0);
    bLo', bHi' := bLo, bHi;
    if borrow != 0 {
      TwoLimbs(B, bLo, bHi);
      aLo', aHi' := Negate2(B, aLo', aHi');
      bLo', bHi' := aLo, aHi;
    }
  }

  /** The turn on a and b: subtract, exchange, halve. */
  method TurnNumbers(B: nat, aLo: nat, aHi: nat, bLo: nat, bHi: nat)
      returns (aLo': nat, aHi': nat, bLo': nat, bHi': nat, odd: bool, borrow: nat)
    requires B > 1 && B % 2 == 0 && aLo < B && aHi < B && bLo < B && bHi < B
    ensures aLo' < B && aHi' < B && bLo' < B && bHi' < B
    ensures var a, b := W(B, aLo, aHi), W(B, bLo, bHi);
            && odd == (a % 2 == 1) && borrow == (if odd && a < b then 1 else 0)
            && W(B, aLo', aHi') == (if borrow == 1 then b - a else if odd then a - b else a) / 2
            && W(B, bLo', bHi') == (if borrow == 1 then a else b)
  {
    Parity(B, aLo, aHi);
    odd := aLo % 2 == 1;
    aLo', aHi', bLo', bHi', borrow := SubtractIfOdd(B, aLo, aHi, bLo, bHi);
    aLo', aHi' := Half2(B, aLo', aHi');
  }

  /** The limb-level turn on the factors, lines 799-811, is the one on the signed factors. */
  method TurnFactors(
      B: nat, f0: nat, f1: nat, swap: bool, odd: bool, ghost F0: int, ghost F1: int) returns (r0: nat, r1: nat)
    requires B > 1 && f0 == Limb(B, F0) && f1 == Limb(B, F1) && (swap ==> odd)
    ensures var x, y := if swap then F1 else F0, if swap then F0 else F1;
            r0 == Limb(B, if odd then x - y else x) && r1 == Limb(B, 2 * y)
  {
    r0, r1 := f0, f1;
    if swap {
      r0, r1 := f1, f0;
    }
    ghost var x, y := if swap then F1 else F0, if swap then F0 else F1;
    LimbSub(B, x, y);
    LimbDouble(B, y);
    ModNat(B, x);
    ModNat(B, y);
    if odd {
      r0 := SubLimb(B, r0, r1);
    }
    r1 := 2 * r1 % B;
  }

  /** The numbers and the signed factors between two turns. */
  datatype Turn = Turn(a: nat, b: nat, F0: int, G0: int, F1: int, G1: int)

  /** One turn over the integers: an odd a gives way to the difference, which is halved. */
  function Next(t: Turn): Turn {
    if t.a % 2 == 0 then Turn(t.a / 2, t.b, t.F0, t.G0, 2 * t.F1, 2 * t.G1)
    else if t.b <= t.a then Turn((t.a - t.b) / 2, t.b, t.F0 - t.F1, t.G0 - t.G1, 2 * t.F1, 2 * t.G1)
    else Turn((t.b - t.a) / 2, t.a, t.F1 - t.F0, t.G1 - t.G0, 2 * t.F0, 2 * t.G0)
  }

  function Turns(a: nat, b: nat, n: nat): Turn {
    if n == 0 then Turn(a, b, 1, 0, 0, 1) else Next(Turns(a, b, n - 1))
  }

  lemma RowsTurn(A: nat, Bv: nat, s: nat, t: Turn)
    requires Rows(A, Bv, s, t.a, t.b, t.F0, t.G0, t.F1, t.G1)
    ensures var u := Next(t); Rows(A, Bv, 2 * s, u.a, u.b, u.F0, u.G0, u.F1, u.G1)
  {
    if t.a % 2 == 0 {
      RowsEven(A, Bv, s, t.a, t.b, t.F0, t.G0, t.F1, t.G1);
    } else if t.b <= t.a {
      RowsOdd(A, Bv, s, t.a, t.b, t.F0, t.G0, t.F1, t.G1);
    } else {
      RowsSwap(A, Bv, s, t.a, t.b, t.F0, t.G0, t.F1, t.G1);
      RowsOdd(A, Bv, s, t.b, t.a, t.F1, t.G1, t.F0, t.G0);
    }
  }

  /** After n turns the factors tie the original numbers to the current ones, and each row stays within 2^n. */
  lemma {:induction false} TurnsRows(a: nat, b: nat, n: nat)
    requires b % 2 == 1
    ensures var t := Turns(a, b, n); Rows(a, b, Pow(2, n), t.a, t.b, t.F0, t.G0, t.F1, t.G1)
  {
    if n > 0 {
      TurnsRows(a, b, n - 1);
      RowsTurn(a, b, Pow(2, n - 1), Turns(a, b, n - 1));
    }
  }

  lemma SameAfterHalf(x: int, y: int, b: int)
    requires b % 2 == 1 && x == 2 * y
    ensures SameCommon(x, b, y, b)
  {
    assert Pow(2, 0) == 1;
    assert Pow(2, 1) == 2;
    SameAfterHalving(y, b, 1);
  }

  lemma SameSwapped(a: int, b: int)
    ensures SameCommon(a, b, b, a)
  {
  }

  lemma SameNext(t: Turn)
    requires t.b % 2 == 1
    ensures Next(t).b % 2 == 1 && SameCommon(t.a, t.b, Next(t).a, Next(t).b)
  {
    if t.a % 2 == 0 {
      SameAfterHalf(t.a, t.a / 2, t.b);
    } else if t.b <= t.a {
      SameAfterSubtract(t.a, t.b);
      SameAfterHalf(t.a - t.b, (t.a - t.b) / 2, t.b);
    } else {
      SameSwapped(t.a, t.b);
      SameAfterSubtract(t.b, t.a);
      SameAfterHalf(t.b - t.a, (t.b - t.a) / 2, t.a);
    }
  }

  /** The numbers keep their common divisors. */
  lemma {:induction false} TurnsDivisors(a: nat, b: nat, n: nat)
    requires b % 2 == 1
    ensures Turns(a, b, n).b % 2 == 1 && SameCommon(a, b, Turns(a, b, n).a, Turns(a, b, n).b)
  {
    if n > 0 {
      TurnsDivisors(a, b, n - 1);
      SameNext(Turns(a, b, n - 1));
    }
  }

  lemma NextShrinks(t: Turn)
    ensures 2 * (Next(t).a * Next(t).b) <= t.a * t.b
  {
    var u := Next(t);
    Associate(2, u.a, u.b);
    if t.a % 2 == 0 {
      assert 2 * u.a == t.a;
    } else if t.b <= t.a {
      MulMono(2 * u.a, t.a, t.b);
    } else {
      MulMono(2 * u.a, t.b, t.a);
    }
  }

  /** Every turn takes at least one bit off the product of the two numbers. */
  lemma {:induction false} TurnsShrink(a: nat, b: nat, n: nat)
    ensures Turns(a, b, n).a * Turns(a, b, n).b * Pow(2, n) <= a * b
  {
    if n == 0 {
      assert Pow(2, 0) == 1;
    } else {
      var t, u := Turns(a, b, n - 1), Turns(a, b, n);
      TurnsShrink(a, b, n - 1);
      NextShrinks(t);
      MulMono(2 * (u.a * u.b), t.a * t.b, Pow(2, n - 1));
      Associate(u.a * u.b, 2, Pow(2, n - 1));
    }
  }

  /** So with as many turns as a*b has bits, a is used up and b is the greatest common divisor. */
  lemma {:induction false} TurnsEnd(a: nat, b: nat, n: nat)
    requires b % 2 == 1 && a * b < Pow(2, n)
    ensures Turns(a, b, n).a == 0 && SameCommon(a, b, 0, Turns(a, b, n).b)
  {
    var t := Turns(a, b, n);
    TurnsShrink(a, b, n);
    TurnsDivisors(a, b, n);
    if t.a > 0 {
      MulMono(1, t.a, t.b);
      MulMono(1, t.a * t.b, Pow(2, n));
    }
  }

  /** Up to w - 2 turns no factor leaves a quarter of the limb range. */
  lemma TurnsFit(w: nat, B: nat, a: nat, b: nat, n: nat)
    requires w >= 2 && B == Pow(2, w) && n <= w - 2 && b % 2 == 1
    ensures var t := Turns(a, b, n);
        4 * Abs(t.F0) <= B && 4 * Abs(t.G0) <= B && 4 * Abs(t.F1) <= B && 4 * Abs(t.G1) <= B
  {
    TurnsRows(a, b, n);
    FactorsFit(w, B, n);
  }

  /** inner_loop_n: the limbs hold the factors after n turns over the integers, in two's complement. */
  method Loop(w: nat, B: nat, a: (nat, nat), b: (nat, nat), n: nat) returns (f0: nat, g0: nat, f1: nat, g1: nat)
    requires w >= 2 && B == Pow(2, w)
    requires a.0 < B && a.1 < B && b.0 < B && b.1 < B
    ensures B > 0
    ensures var t := Turns(W(B, a.0, a.1), W(B, b.0, b.1), n);
            f0 == Limb(B, t.F0) && g0 == Limb(B, t.G0) && f1 == Limb(B, t.F1) && g1 == Limb(B, t.G1)
  {
    WordBase(w, B);
    var aLo: nat, aHi: nat, bLo: nat, bHi: nat := a.0, a.1, b.0, b.1;
    ghost var A, Bv := W(B, aLo, aHi), W(B, bLo, bHi);
    f0, g0, f1, g1 := 1, 0, 0, 1;
    SmallLimbs(B);
    for i := 0 to n
      invariant aLo < B && aHi < B && bLo < B && bHi < B
      invariant var t := Turns(A, Bv, i);
        && t.a == W(B, aLo, aHi) && t.b == W(B, bLo, bHi)
        && f0 == Limb(B, t.F0) && g0 == Limb(B, t.G0) && f1 == Limb(B, t.F1) && g1 == Limb(B, t.G1)
    {
      ghost var t := Turns(A, Bv, i);
      var odd, borrow;
      aLo, aHi, bLo, bHi, odd, borrow := TurnNumbers(B, aLo, aHi, bLo, bHi);
      f0, f1 := TurnFactors(B, f0, f1, borrow == 1, odd, t.F0, t.F1);
      g0, g1 := TurnFactors(B, g0, g1, borrow == 1, odd, t.G0, t.G1);
    }
  }

  lemma Parity(B: nat, lo: nat, hi: nat)
    requires B % 2 == 0
    ensures W(B, lo, hi) % 2 == lo % 2
  {
    var h := B / 2;
    Associate(hi, h, 2);
    assert hi * B == hi * h * 2;
  }

  lemma SmallLimbs(B: nat)
    requires B >= 4
    ensures Limb(B, 0) == 0 && Limb(B, 1) == 1
  {
    QuotRem(0, B, 0, 0);
    QuotRem(1, B, 0, 1);
  }

  lemma {:induction false} FactorsFit(w: nat, B: nat, n: nat)
    requires w >= 2 && B == Pow(2, w) && n <= w - 2
    ensures 4 * Pow(2, n) <= B
  {
    PowAdds(2, n, w - n);
    PowAdds(2, 2, w - n - 2);
    assert Pow(2, 2) == 4 by { assert Pow(2, 1) == 2; }
    PowPositive(2, w - n - 2);
    MulMono(4, Pow(2, w - n), Pow(2, n));
  }
}
