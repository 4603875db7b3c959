/** Division by an estimated quotient digit (external/blst/no_asm.h:981-1056). */
module LimbDivision {
  import opened Limbs
  import opened LimbRows

  /** The value of two limbs. */
  ghost function W(B: nat, lo: nat, hi: nat): nat {
    lo + hi * B
  }

  /** Two-limb subtraction; the borrow is what the code spreads into a mask. */
  method Sub2(B: nat, rLo: nat, rHi: nat, dLo: nat, dHi: nat) returns (lo: nat, hi: nat, borrow: nat)
    requires B > 1 && B % 2 == 0 && rLo < B && rHi < B && dLo < B && dHi < B
    ensures lo < B && hi < B
    ensures borrow == if W(B, rLo, rHi) < W(B, dLo, dHi) then 1 else 0
    ensures W(B, lo, hi) + W(B, dLo, dHi) == W(B, rLo, rHi) + borrow * (B * B)
  {
    var rx := SubWide(B, rLo, dLo);
    HiLo(B, rx);
    Borrow(B, rLo, dLo);
    lo := rx % B;
    var b := rx / B % 2;
    rx := SubWide(B, rHi, dHi + b);
    HiLo(B, rx);
    Borrow(B, rHi, dHi + b);
    hi := rx % B;
    borrow := rx / B % 2;
    Sub2Sum(B, lo, hi, rLo, rHi, dLo, dHi, b, borrow);
  }

  lemma Sub2Sum(B: nat, lo: nat, hi: nat, rLo: nat, rHi: nat, dLo: nat, dHi: nat, b: nat, b': nat)
    requires rLo < B && rHi < B && dLo < B && dHi < B && lo < B && hi < B && b <= 1 && b' <= 1
    requires lo + dLo == rLo + b * B && hi + (dHi + b) == rHi + b' * B
    ensures W(B, lo, hi) + W(B, dLo, dHi) == W(B, rLo, rHi) + b' * (B * B)
    ensures b' == if W(B, rLo, rHi) < W(B, dLo, dHi) then 1 else 0
  {
    BorrowStep(B, B, hi, b', rHi, dHi, b);
    MulAddBound(B, rHi, B - 1, 0, 0);
    TwoLimbs(B, lo, hi);
    TwoLimbs(B, rLo, rHi);
    TwoLimbs(B, dLo, dHi);
  }

  lemma TwoLimbs(B: nat, lo: nat, hi: nat)
    requires lo < B && hi < B
    ensures W(B, lo, hi) < B * B
  {
    MulMono(hi, B - 1, B);
    DistributeSub(B, 1, B);
  }

  /** D >>= 1 on two limbs. */
  method Half2(B: nat, dLo: nat, dHi: nat) returns (lo: nat, hi: nat)
    requires B > 1 && B % 2 == 0 && dLo < B && dHi < B
    ensures lo < B && hi < B && W(B, lo, hi) == W(B, dLo, dHi) / 2
  {
    lo := dLo / 2 + dHi % 2 * (B / 2);
    hi := dHi / 2;
    Half2Sum(B / 2, dLo, dHi);
  }

  lemma Half2Sum(h: nat, dLo: nat, dHi: nat)
    requires dLo < 2 * h
    ensures 0 <= dHi % 2 * h && dLo / 2 + dHi % 2 * h < 2 * h
    ensures dLo / 2 + dHi % 2 * h + dHi / 2 * (2 * h) == (dLo + dHi * (2 * h)) / 2
  {
    var q, r := dHi / 2, dHi % 2;
    assert dHi == 2 * q + r;
    Distribute(2 * q, r, 2 * h);
    Associate(2, q, 2 * h);
    assert r == 0 || r == 1;
    assert dHi * (2 * h) == 2 * (q * (2 * h)) + 2 * (r * h);
  }

  // ---- the shift-and-subtract estimate ----

  /**
   * After i bits, with s = 2^i: what R, the shrunken divisor Di and the bits Q found so far
   * have to do with the full R and D. The last clause keeps Q from falling short.
   */
  ghost predicate Estimate(R: nat, D: nat, i: nat, s: nat, Ri: nat, Di: nat, Q: nat) {
    && Di * s <= D < (Di + 1) * s
    && s * R <= s * Ri + 2 * (Q * D) <= s * R + i * s
    && (R + 1) * s <= 2 * ((Q + 1) * D)
  }

  lemma EstimateStart(R: nat, D: nat)
    requires R <= D && D > 0
    ensures Estimate(R, D, 0, 1, R, D, 0)
  {
  }

  lemma EstimateOne(R: nat, D: nat, i: nat, s: nat, Ri: nat, Di: nat, Q: nat)
    requires Estimate(R, D, i, s, Ri, Di, Q) && Di <= Ri
    ensures var s', Q' := 2 * s, 2 * Q + 1;
            && s' * R <= s' * (Ri - Di) + 2 * (Q' * D) <= s' * R + (i + 1) * s'
            && (R + 1) * s' <= 2 * ((Q' + 1) * D)
  {
    Associate(2, s, R);
    Associate(2, s, Ri - Di);
    DistributeSub(Ri, Di, s);
    Distribute(2 * Q, 1, D);
    Associate(2, Q, D);
    Distribute(Di, 1, s);
    Distribute(i, 1, 2 * s);
    Associate(i, 2, s);
    Associate(2, i, s);
    Associate(R + 1, 2, s);
    Associate(2, R + 1, s);
    Associate(2, Q + 1, D);
  }

  lemma EstimateZero(R: nat, D: nat, i: nat, s: nat, Ri: nat, Di: nat, Q: nat)
    requires Estimate(R, D, i, s, Ri, Di, Q) && Ri < Di
    ensures var s', Q' := 2 * s, 2 * Q;
            && s' * R <= s' * Ri + 2 * (Q' * D) <= s' * R + (i + 1) * s'
            && (R + 1) * s' <= 2 * ((Q' + 1) * D)
  {
    Associate(2, s, R);
    Associate(2, s, Ri);
    Associate(2, Q, D);
    Distribute(i, 1, 2 * s);
    Associate(i, 2, s);
    Associate(2, i, s);
    Distribute(R, 1, 2 * s);
    Associate(R, 2, s);
    Associate(2, R, s);
    Distribute(2 * Q, 1, D);
    MulMono(Ri + 1, Di, s);
    Distribute(Ri, 1, s);
  }

  lemma EstimateHalf(D: nat, s: nat, Di: nat)
    requires Di * s <= D < (Di + 1) * s
    ensures Di / 2 * (2 * s) <= D < (Di / 2 + 1) * (2 * s)
  {
    var h := Di / 2;
    Associate(h, 2, s);
    MulMono(h * 2, Di, s);
    Associate(h + 1, 2, s);
    MulMono(Di + 1, (h + 1) * 2, s);
  }

  lemma EstimateStep(R: nat, D: nat, i: nat, s: nat, Ri: nat, Di: nat, Q: nat)
    requires Estimate(R, D, i, s, Ri, Di, Q)
    ensures if Di <= Ri then Estimate(R, D, i + 1, 2 * s, Ri - Di, Di / 2, 2 * Q + 1)
            else Estimate(R, D, i + 1, 2 * s, Ri, Di / 2, 2 * Q)
  {
    EstimateHalf(D, s, Di);
    if Di <= Ri {
      EstimateOne(R, D, i, s, Ri, Di, Q);
    } else {
      EstimateZero(R, D, i, s, Ri, Di, Q);
    }
  }

  /** How many bits the estimate has: it starts with a zero unless R equals D. */
  ghost predicate Bits(R: nat, D: nat, i: nat, s: nat, Ri: nat, Q: nat) {
    && (i == 0 ==> s == 1 && Q == 0 && Ri == R)
    && (i > 0 && R < D ==> 2 * Q < s)
    && (i > 0 && R == D ==> 2 * Q == s && Ri == 0)
  }

  lemma BitsStep(R: nat, D: nat, i: nat, s: nat, Ri: nat, Di: nat, Q: nat)
    requires R <= D && Bits(R, D, i, s, Ri, Q) && Di * s <= D < (Di + 1) * s && s <= D
    requires i > 0 ==> s % 2 == 0
    ensures if Di <= Ri then Bits(R, D, i + 1, 2 * s, Ri - Di, 2 * Q + 1) else Bits(R, D, i + 1, 2 * s, Ri, 2 * Q)
  {
    assert Di != 0 by {
      if Di == 0 {
        Distribute(Di, 1, s);
      }
    }
    if i == 0 {
      assert Di * 1 == Di;
    }
  }

  /** What the estimate promises for a dividend R*B + r0, any r0 below B. */
  ghost predicate GoodDigit(B: nat, R: nat, D: nat, Q: nat) {
    (R + 1) * B <= (Q + 1) * D && Q * D < R * B + D
  }

  lemma EstimateEnd(w: nat, B: nat, R: nat, D: nat, Ri: nat, Di: nat, Q: nat)
    requires Estimate(R, D, w + 1, 2 * B, Ri, Di, Q) && (w + 1) * B < D
    ensures GoodDigit(B, R, D, Q)
  {
    Associate(2, R + 1, B);
    Associate(R + 1, 2, B);
    Associate(2, B, R);
    Associate(w + 1, 2, B);
    Associate(2, w + 1, B);
  }

  /** A good digit is the true quotient digit or one more. */
  lemma DigitOrOneMore(B: nat, R: nat, D: nat, Q: nat, r0: nat)
    requires D > 0 && r0 < B && GoodDigit(B, R, D, Q)
    ensures (R * B + r0) / D <= Q <= (R * B + r0) / D + 1
  {
    var N := R * B + r0;
    var q, r := N / D, N % D;
    assert N == q * D + r;
    Distribute(R, 1, B);
    MulCancel(q, Q + 1, D);
    Distribute(q, 2, D);
    MulCancel(Q, q + 2, D);
  }

  /** div_3_limbs for a left-aligned divisor and a dividend not above it. */
  method Div3Limbs(w: nat, B: nat, rLo0: nat, rHi0: nat, dLo0: nat, dHi0: nat) returns (Q: nat)
    requires w >= 4 && B == Pow(2, w) && rLo0 < B && rHi0 < B && dLo0 < B && Pow(2, w - 1) <= dHi0 < B
    requires W(B, rLo0, rHi0) <= W(B, dLo0, dHi0)
    ensures Q < B
    ensures var R, D := W(B, rLo0, rHi0), W(B, dLo0, dHi0);
            if R < D then GoodDigit(B, R, D, Q) else Q == B - 1
  {
    ghost var R, D := W(B, rLo0, rHi0), W(B, dLo0, dHi0);
    WideDivisor(w, B, dLo0, dHi0);
    TwoLimbs(B, rLo0, rHi0);
    var rLo, rHi, dLo, dHi;
    rLo, rHi, dLo, dHi, Q := LeadingBits(w, B, rLo0, rHi0, dLo0, dHi0);
    Q := Finish(w, B, rLo, rHi, dLo, dHi, Q, R, D);
  }

  /** The last bit, and the saturation of an estimate that overflows a limb. */
  method Finish(
      w: nat, B: nat, rLo: nat, rHi: nat, dLo: nat, dHi: nat, Q0: nat, ghost R: nat, ghost D: nat) returns (Q: nat)
    requires w >= 4 && B == Pow(2, w) && B > 1 && B % 2 == 0 && rLo < B && rHi < B && dLo < B && dHi < B
    requires R <= D && (w + 1) * B < D && B <= D
    requires Estimate(R, D, w, B, W(B, rLo, rHi), W(B, dLo, dHi), Q0) && Bits(R, D, w, B, W(B, rLo, rHi), Q0)
    ensures Q < B && if R < D then GoodDigit(B, R, D, Q) else Q == B - 1
  {
    var _, _, borrow := Sub2(B, rLo, rHi, dLo, dHi);
    TwoLimbs(B, rLo, rHi);
    TwoLimbs(B, dLo, dHi);
    LastBit(w, B, R, D, W(B, rLo, rHi), W(B, dLo, dHi), Q0, 1 - borrow);
    var overflow := Q0 / Pow(2, w - 1) == 1;
    Q := 2 * Q0 % B + (1 - borrow);
    if overflow {
      Q := B - 1;
    }
  }

  /** The loop of w subtractions. */
  method LeadingBits(w: nat, B: nat, rLo0: nat, rHi0: nat, dLo0: nat, dHi0: nat)
      returns (rLo: nat, rHi: nat, dLo: nat, dHi: nat, Q: nat)
    requires B == Pow(2, w) && B > 1 && B % 2 == 0 && rLo0 < B && rHi0 < B && dLo0 < B && dHi0 < B
    requires W(B, rLo0, rHi0) <= W(B, dLo0, dHi0) && B <= W(B, dLo0, dHi0)
    ensures rLo < B && rHi < B && dLo < B && dHi < B
    ensures var R, D := W(B, rLo0, rHi0), W(B, dLo0, dHi0);
            && Estimate(R, D, w, B, W(B, rLo, rHi), W(B, dLo, dHi), Q)
            && Bits(R, D, w, B, W(B, rLo, rHi), Q)
  {
    ghost var R, D := W(B, rLo0, rHi0), W(B, dLo0, dHi0);
    rLo, rHi, dLo, dHi, Q := rLo0, rHi0, dLo0, dHi0, 0;
    ghost var Ri, Di := R, D;
    TwoLimbs(B, rLo0, rHi0);
    TwoLimbs(B, dLo0, dHi0);
    EstimateStart(R, D);
    for i := 0 to w
      invariant rLo < B && rHi < B && dLo < B && dHi < B
      invariant Ri == W(B, rLo, rHi) && Di == W(B, dLo, dHi)
      invariant Estimate(R, D, i, Pow(2, i), Ri, Di, Q) && Bits(R, D, i, Pow(2, i), Ri, Q)
    {
      DigitStep(w, B, R, D, i, Ri, Di, Q);
      var bit;
      rLo, rHi, dLo, dHi, bit := OneBit(B, rLo, rHi, dLo, dHi);
      Q := 2 * Q + bit;
      Ri, Di := if bit == 1 then Ri - Di else Ri, Di / 2;
    }
  }

  /** One turn: subtract D from R where it fits, then halve D. */
  method OneBit(
      B: nat, rLo: nat, rHi: nat, dLo: nat, dHi: nat) returns (rLo': nat, rHi': nat, dLo': nat, dHi': nat, bit: nat)
    requires B > 1 && B % 2 == 0 && rLo < B && rHi < B && dLo < B && dHi < B
    ensures rLo' < B && rHi' < B && dLo' < B && dHi' < B
    ensures bit == if W(B, dLo, dHi) <= W(B, rLo, rHi) then 1 else 0
    ensures W(B, rLo', rHi') == if bit == 1 then W(B, rLo, rHi) - W(B, dLo, dHi) else W(B, rLo, rHi)
    ensures W(B, dLo', dHi') == W(B, dLo, dHi) / 2
  {
    var borrow;
    rLo', rHi', borrow := Sub2(B, rLo, rHi, dLo, dHi);
    if borrow != 0 {
      rLo', rHi' := rLo, rHi;
    }
    bit := 1 - borrow;
    dLo', dHi' := Half2(B, dLo, dHi);
  }

  lemma {:induction false} WideDivisor(w: nat, B: nat, dLo: nat, dHi: nat)
    requires w >= 4 && B == Pow(2, w) && Pow(2, w - 1) <= dHi
    ensures B > 1 && B % 2 == 0 && (w + 1) * B < W(B, dLo, dHi) && 2 * B <= W(B, dLo, dHi)
  {
    WordBound(w - 1);
    assert B == 2 * Pow(2, w - 1);
    MulStrict(w + 1, dHi, B);
    MulMono(2, dHi, B);
  }

  lemma {:induction false} WordBound(v: nat)
    requires v >= 3
    ensures v + 2 < Pow(2, v)
  {
    if v == 3 {
      assert Pow(2, 3) == 8;
    } else {
      WordBound(v - 1);
    }
  }

  lemma {:induction false} DigitStep(w: nat, B: nat, R: nat, D: nat, i: nat, Ri: nat, Di: nat, Q: nat)
    requires B == Pow(2, w) && i <= w && R <= D && B <= D
    requires Estimate(R, D, i, Pow(2, i), Ri, Di, Q) && Bits(R, D, i, Pow(2, i), Ri, Q)
    ensures if Di <= Ri
            then Estimate(R, D, i + 1, Pow(2, i + 1), Ri - Di, Di / 2, 2 * Q + 1) &&
              Bits(R, D, i + 1, Pow(2, i + 1), Ri - Di, 2 * Q + 1)
            else Estimate(R, D, i + 1, Pow(2, i + 1), Ri, Di / 2, 2 * Q) && Bits(R, D, i + 1, Pow(2, i + 1), Ri, 2 * Q)
  {
    var s := Pow(2, i);
    Pow2Up(i, w);
    if i > 0 {
      Pow2Even(i);
    }
    EstimateStep(R, D, i, s, Ri, Di, Q);
    BitsStep(R, D, i, s, Ri, Di, Q);
  }

  lemma {:induction false} LastBit(w: nat, B: nat, R: nat, D: nat, Ri: nat, Di: nat, Q: nat, bit: nat)
    requires w >= 4 && B == Pow(2, w) && R <= D && (w + 1) * B < D && 0 < B <= D
    requires bit == if Di <= Ri then 1 else 0
    requires Estimate(R, D, w, B, Ri, Di, Q) && Bits(R, D, w, B, Ri, Q)
    ensures Pow(2, w - 1) > 0 && (Q / Pow(2, w - 1) == 1 <==> R == D)
    ensures R < D ==> 2 * Q % B == 2 * Q && 2 * Q + bit < B && GoodDigit(B, R, D, 2 * Q + bit)
    ensures 0 <= 2 * Q % B
  {
    DigitStep(w, B, R, D, w, Ri, Di, Q);
    var h := Pow(2, w - 1);
    PowPositive(2, w - 1);
    assert B == 2 * h && Pow(2, w + 1) == 2 * B;
    if R < D {
      QuotRem(Q, h, 0, Q);
      QuotRem(2 * Q, B, 0, 2 * Q);
      EstimateEnd(w, B, R, D, if bit == 1 then Ri - Di else Ri, Di / 2, 2 * Q + bit);
    } else {
      QuotRem(Q, h, 1, 0);
    }
  }

  // ---- dividing with the estimate ----

  /** t = val[off..] - t (borrow) */
  method SubWindow(B: nat, t: array<nat>, val: array<nat>, off: nat) returns (borrow: nat)
    requires B > 1 && B % 2 == 0 && off + t.Length <= val.Length && t != val && IsLimbs(B, t[..]) && IsLimbs(B, val[..])
    modifies t
    ensures IsLimbs(B, t[..]) && borrow <= 1
    ensures var m := t.Length;
            Val(B, t[..], m) + old(Val(B, t[..], m)) == Val(B, val[off..off + m], m) + borrow * Pow(B, m)
  {
    ghost var t0, win := t[..], val[off..off + t.Length];
    borrow := 0;
    for i := 0 to t.Length
      invariant borrow <= 1
      invariant forall k :: 0 <= k < i ==> t[k] < B
      invariant forall k :: i <= k < t.Length ==> t[k] == t0[k]
      invariant Val(B, t[..], i) + Val(B, t0, i) == Val(B, win, i) + borrow * Pow(B, i)
    {
      ghost var c, was := borrow, t[..];
      assert val[off + i] == win[i] && t[i] == t0[i];
      var limbx := SubWide(B, val[off + i], t[i] + borrow);
      HiLo(B, limbx);
      Borrow(B, val[off + i], t[i] + borrow);
      BorrowStep(B, Pow(B, i), limbx % B, limbx / B % 2, win[i], t0[i], c);
      t[i] := limbx % B;
      borrow := limbx / B % 2;
      ValFrame(B, was, t[..], i);
    }
  }

  /** val[off..] = t + (d & mask), the carry being dropped */
  method AddBack(B: nat, val: array<nat>, off: nat, t: array<nat>, d: array<nat>, mask: nat) returns (ghost carry: nat)
    requires B > 1 && off + d.Length <= val.Length && d.Length <= t.Length && val != t && val != d
    requires IsLimbs(B, val[..]) && IsLimbs(B, t[..]) && IsLimbs(B, d[..]) && (mask == 0 || mask == B - 1)
    modifies val
    ensures IsLimbs(B, val[..]) && carry <= 1
    ensures forall k :: 0 <= k < val.Length && !(off <= k < off + d.Length) ==> val[k] == old(val[k])
    ensures var n := d.Length;
            Val(B, val[off..off + n], n) + carry * Pow(B, n)
              == Val(B, t[..], n) + (if mask == 0 then 0 else Val(B, d[..], n))
  {
    var n := d.Length;
    ghost var v0, t0, d0 := val[..], t[..], d[..];
    var c: nat := 0;
    for i := 0 to n
      invariant c <= 1 && t[..] == t0 && d[..] == d0 && IsLimbs(B, val[..])
      invariant forall k :: 0 <= k < val.Length && !(off <= k < off + i) ==> val[k] == v0[k]
      invariant Val(B, val[off..off + n], i) + c * Pow(B, i) == Val(B, t0, i) + (if mask == 0 then 0 else Val(B, d0, i))
    {
      ghost var was := val[off..off + n];
      var masked := Select(B, mask, 0, d[i]);
      AddCarry(B, Pow(B, i), t[i], masked, c);
      var limbx := t[i] + (masked + c);
      val[off + i] := limbx % B;
      c := limbx / B;
      ValFrame(B, was, val[off..off + n], i);
      assert val[off..off + n][i] == limbx % B;
    }
    carry := c;
  }

  /** The remainder and the repaired quotient, from an estimate that is right or one too large. */
  lemma {:induction false} RepairCases(
      B: nat, n: nat, X: nat, D: nat, quotient: nat, V: nat, top: nat, borrow: nat, V': nat, carry: nat)
    requires B > 1 && 0 < D < Pow(B, n) && X / D <= quotient <= X / D + 1
    requires V < Pow(B, n) && V' < Pow(B, n) && borrow <= 1 && carry <= 1 && top < B
    requires V + top * Pow(B, n) + quotient * D == X + borrow * Pow(B, n + 1)
    requires V' + carry * Pow(B, n) == V + (if borrow == 0 then 0 else D)
    ensures V' == X % D && quotient - borrow == X / D
  {
    var q, r, P := X / D, X % D, Pow(B, n);
    assert X == q * D + r;
    Associate(borrow, B, P);
    if quotient == q {
      RightDigit(V, top, P, r, borrow * B, B);
      AddedBack(V', carry, r, 0, P);
    } else {
      Distribute(q, 1, D);
      OneTooLarge(V, top, P, r, D, borrow, B);
      AddedBack(V', carry, r, 1, P);
    }
  }

  lemma AddedBack(V': nat, carry: nat, r: nat, c: nat, P: nat)
    requires V' < P && r < P && V' + carry * P == r + c * P
    ensures V' == r
  {
    QuotRem(r + c * P, P, c, r);
    QuotRem(V' + carry * P, P, carry, V');
  }

  lemma RightDigit(V: nat, top: nat, P: nat, r: nat, bB: nat, B: nat)
    requires V < P && r < P && top < B && (bB == 0 || bB == B) && V + top * P == r + bB * P
    ensures V == r && bB == 0
  {
    QuotRem(r + bB * P, P, bB, r);
    QuotRem(V + top * P, P, top, V);
  }

  lemma OneTooLarge(V: nat, top: nat, P: nat, r: nat, D: nat, borrow: nat, B: nat)
    requires V < P && r < D < P && borrow <= 1 && V + top * P + D == r + borrow * B * P
    ensures borrow == 1 && V + D == r + P
  {
    if borrow == 0 {
      MulMono(0, top, P);
    } else {
      DistributeSub(B, top, P);
      DistributeSub(B - top, 1, P);
      QuotRem(V, P, B - top - 1, r - D + P);
      QuotRem(V, P, 0, V);
    }
  }

  /** d*quotient, one limb longer than d */
  method Product(B: nat, d: array<nat>, quotient: nat) returns (tmp: array<nat>)
    requires B > 1 && IsLimbs(B, d[..]) && quotient < B
    ensures fresh(tmp) && tmp.Length == d.Length + 1 && IsLimbs(B, tmp[..])
    ensures Val(B, tmp[..], d.Length + 1) == quotient * Val(B, d[..], d.Length)
  {
    var n := d.Length;
    tmp := new nat[n + 1](_ => 0);
    var hi := MulRow(B, tmp, d, quotient);
    ghost var t0 := tmp[..];
    tmp[n] := hi;
    ValFrame(B, t0, tmp[..], n);
  }

  /** quot_rem_n: in place, the remainder below and the quotient digit on top. */
  method QuotRemN(B: nat, val: array<nat>, off: nat, d: array<nat>, quotient: nat)
    requires B > 1 && B % 2 == 0 && d.Length > 0 && off + d.Length + 1 <= val.Length && val != d
    requires IsLimbs(B, val[..]) && IsLimbs(B, d[..]) && quotient < B
    requires var n := d.Length;
             var X, D := Val(B, val[off..off + n + 1], n + 1), Val(B, d[..], n);
             D > 0 && X / D <= quotient <= X / D + 1
    modifies val
    ensures IsLimbs(B, val[..])
    ensures forall k :: 0 <= k < val.Length && !(off <= k <= off + d.Length) ==> val[k] == old(val[k])
    ensures var n := d.Length;
            var X, D := old(Val(B, val[off..off + n + 1], n + 1)), Val(B, d[..], n);
            Val(B, val[off..off + n], n) == X % D && val[off + n] == X / D
  {
    var n := d.Length;
    ghost var X, D := Val(B, val[off..off + n + 1], n + 1), Val(B, d[..], n);
    var tmp := Product(B, d, quotient);
    var borrow := SubWindow(B, tmp, val, off);
    ghost var carry := AddBack(B, val, off, tmp, d, if borrow == 0 then 0 else B - 1);
    ValBound(B, d[..], n);
    ValBound(B, tmp[..], n);
    ValBound(B, val[off..off + n], n);
    RepairCases(B, n, X, D, quotient, Val(B, tmp[..], n), tmp[n], borrow, Val(B, val[off..off + n], n), carry);
    ghost var win := val[off..off + n];
    val[off + n] := quotient - borrow;
    assert val[off..off + n] == win;
  }
}
