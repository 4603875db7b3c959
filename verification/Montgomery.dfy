/** Montgomery multiplication and reduction (external/blst/no_asm.h:15-66, 289-363, 572-625). */
module Montgomery {
  import opened Limbs
  import opened LimbRows
  import opened Congruence

  /** A modulus of n limbs, odd, with n0 = -1/p mod B. */
  ghost predicate IsModulus(B: nat, p: seq<nat>, n0: nat) {
    B > 1 && B % 2 == 0 && |p| > 0 && IsLimbs(B, p) && n0 < B && (n0 * p[0] + 1) % B == 0 && Val(B, p, |p|) > 0
  }

  /** The multiple mx = n0*t of the modulus clears the lowest limb. */
  lemma ClearsLimb(B: nat, n0: nat, p0: nat, t: nat)
    requires B > 1 && (n0 * p0 + 1) % B == 0
    ensures (n0 * t % B * p0 + t) % B == 0
  {
    var mx, k := n0 * t % B, n0 * t / B;
    var c := (n0 * p0 + 1) / B;
    calc {
      mx * p0 + t;
      == { assert mx == n0 * t - k * B; DistributeSub(n0 * t, k * B, p0); }
      n0 * t * p0 - k * B * p0 + t;
      == { Associate(n0, t, p0); Associate(n0, p0, t); Associate(k, B, p0); Associate(k, p0, B); }
      n0 * p0 * t - k * p0 * B + t;
      == { Distribute(n0 * p0, 1, t); }
      (n0 * p0 + 1) * t - k * p0 * B;
      == { assert n0 * p0 + 1 == c * B; Associate(c, B, t); Associate(c, t, B); }
      c * t * B - k * p0 * B;
      == { DistributeSub(c * t, k * p0, B); }
      (c * t - k * p0) * B;
    }
    QuotRem(mx * p0 + t, B, c * t - k * p0, 0);
  }

  /** Shift step: B*V + hi*Q is extended by one limb, Q being B*P. */
  lemma ShiftStep(B: nat, P: nat, V: nat, r: nat)
    ensures B * (V + r * P) == B * V + r * (B * P)
  {
    Distribute(V, r * P, B);
    Associate(B, r, P);
    Associate(r, B, P);
  }

  /** First limb of a reduction row: it vanishes, only the upper half remains. */
  lemma {:induction false} FirstLimb(B: nat, n0: nat, p0: nat, t: nat)
    requires B > 1 && n0 < B && p0 < B && t < B && (n0 * p0 + 1) % B == 0
    ensures var mx := n0 * t % B;
        0 <= mx < B && mx * p0 + t >= 0 && 0 <= (mx * p0 + t) / B < B && (mx * p0 + t) / B * B == mx * p0 + t
  {
    var mx := n0 * t % B;
    HiLo(B, n0 * t);
    ClearsLimb(B, n0, p0, t);
    MulAddBound(B, mx, p0, 0, t);
    HiLo(B, mx * p0 + t);
    HiBound(B, mx * p0 + t);
  }

  /**
   * One reduction row on n limbs: dst = (src + m*p)/B with m = n0*src[0] mod B.
   * The top limb of the result is returned rather than stored.
   */
  method ReduceLimbs(B: nat, dst: array<nat>, src: array<nat>, p: array<nat>, n0: nat) returns (hi: nat, ghost m: nat)
    requires IsModulus(B, p[..], n0) && p.Length <= src.Length && p.Length <= dst.Length
    requires IsLimbs(B, src[..]) && IsLimbs(B, dst[..]) && dst != p
    modifies dst
    ensures IsLimbs(B, dst[..]) && hi < B && m < B && m == n0 * old(src[0]) % B
    ensures forall k :: p.Length - 1 <= k < dst.Length ==> dst[k] == old(dst[k])
    ensures var n := p.Length;
            B * Val(B, dst[..], n - 1) + hi * Pow(B, n) == old(Val(B, src[..], n)) + m * Val(B, p[..], n)
  {
    var n := p.Length;
    ghost var s0, p0, d0 := src[..], p[..], dst[..];
    FirstLimb(B, n0, p[0], src[0]);
    var mx := n0 * src[0] % B;
    m := mx;
    hi := (mx * p[0] + src[0]) / B;
    FirstLimbVal(B, s0, p0, mx, hi);
    for i := 1 to n
      invariant hi < B && p[..] == p0 && IsLimbs(B, dst[..])
      invariant forall k :: i <= k < n ==> src[k] == s0[k]
      invariant forall k :: n - 1 <= k < dst.Length ==> dst[k] == d0[k]
      invariant B * Val(B, dst[..], i - 1) + hi * Pow(B, i) == Val(B, s0, i) + mx * Val(B, p0, i)
    {
      ghost var h, was := hi, dst[..];
      var limbx := (mx * p[i] + hi) + src[i];
      MulAddCarry(B, Pow(B, i), mx, p[i], h, src[i], Val(B, p0, i));
      dst[i - 1] := limbx % B;
      hi := limbx / B;
      ValFrame(B, was, dst[..], i - 1);
      ShiftStep(B, Pow(B, i - 1), Val(B, dst[..], i - 1), dst[i - 1]);
    }
  }

  lemma {:induction false} FirstLimbVal(B: nat, s: seq<nat>, p: seq<nat>, mx: nat, hi: nat)
    requires |s| > 0 && |p| > 0 && hi * B == mx * p[0] + s[0]
    ensures B * 0 + hi * Pow(B, 1) == Val(B, s, 1) + mx * Val(B, p, 1)
  {
    assert Pow(B, 0) == 1;
    assert Pow(B, 1) == B;
    assert Val(B, s, 1) == s[0] && Val(B, p, 1) == p[0];
  }

  lemma {:induction false} TopLimb(B: nat, n: nat, V: nat, top: nat, hi: nat, carry: nat, S: nat, mp: nat)
    requires B > 1 && n > 0 && top < B && hi < B && carry <= 1
    requires B * V + hi * Pow(B, n) == S + mp
    ensures var l := top + (hi + carry);
            && 0 <= l % B < B && 0 <= l / B <= 1
            && B * (V + l % B * Pow(B, n - 1) + l / B * Pow(B, n)) == (S + top * Pow(B, n)) + mp + carry * Pow(B, n)
  {
    var l := top + (hi + carry);
    var P := Pow(B, n);
    AddCarry(B, P, top, hi, carry);
    ShiftStep(B, Pow(B, n - 1), V, l % B);
    Distribute(V + l % B * Pow(B, n - 1), l / B * P, B);
    Associate(B, l / B, P);
    Associate(l / B, B, P);
  }

  /** The reduction row of mul_mont_n, lines 31-40: a carry enters and leaves one limb above the result. */
  method ReduceRow(B: nat, tmp: array<nat>, p: array<nat>, n0: nat, carryIn: nat) returns (carry: nat, ghost m: nat)
    requires IsModulus(B, p[..], n0) && tmp.Length == p.Length + 1 && IsLimbs(B, tmp[..]) && tmp != p && carryIn <= 1
    modifies tmp
    ensures IsLimbs(B, tmp[..]) && carry <= 1 && m < B && m == n0 * old(tmp[0]) % B
    ensures var n := p.Length;
            B * (Val(B, tmp[..], n) + carry * Pow(B, n))
              == old(Val(B, tmp[..], n + 1)) + m * Val(B, p[..], n) + carryIn * Pow(B, n)
  {
    var n := p.Length;
    ghost var t0 := tmp[..];
    var hi;
    hi, m := ReduceLimbs(B, tmp, tmp, p, n0);
    ghost var t1 := tmp[..];
    TopLimb(B, n, Val(B, t1, n - 1), tmp[n], hi, carryIn, Val(B, t0, n), m * Val(B, p[..], n));
    var limbx := tmp[n] + (hi + carryIn);
    tmp[n - 1] := limbx % B;
    carry := limbx / B;
    ValFrame(B, t1, tmp[..], n - 1);
  }

  // ---- what the rows add up to ----

  /**
   * After |j| rows of the multiplication have been added and |i| of them reduced, the accumulator X
   * stands for a*b[..j]: it has absorbed less than B^i multiples of p.
   */
  ghost predicate Accumulated(B: nat, X: nat, i: nat, M: nat, A: nat, bj: nat, P: nat) {
    M < Pow(B, i) && X * Pow(B, i) == A * bj + M * P
  }

  lemma {:induction false} AccumulateReduce(B: nat, X: nat, T: nat, i: nat, M: nat, m: nat, A: nat, bj: nat, P: nat)
    requires Accumulated(B, X, i, M, A, bj, P) && m < B && B * T == X + m * P
    ensures Accumulated(B, T, i + 1, M + m * Pow(B, i), A, bj, P)
  {
    var Q := Pow(B, i);
    calc {
      T * Pow(B, i + 1);
      == { Associate(T, B, Q); }
      T * B * Q;
      == { assert T * B == X + m * P; Distribute(X, m * P, Q); }
      X * Q + m * P * Q;
      == { Associate(m, P, Q); Associate(m, Q, P); Distribute(M, m * Q, P); }
      A * bj + (M + m * Q) * P;
    }
    MulMono(m, B - 1, Q);
    DistributeSub(B, 1, Q);
  }

  lemma {:induction false} AccumulateAdd(B: nat, T: nat, i: nat, M: nat, A: nat, bj: nat, P: nat, b: nat)
    requires Accumulated(B, T, i, M, A, bj, P)
    ensures Accumulated(B, T + b * A, i, M, A, bj + b * Pow(B, i), P)
  {
    var Q := Pow(B, i);
    Distribute(T, b * A, Q);
    Associate(b, A, Q);
    Associate(A, b, Q);
    Distribute(bj, b * Q, A);
  }

  /** A reduced accumulator stays below A + P. */
  lemma {:induction false} AccumulatedBound(B: nat, T: nat, i: nat, M: nat, A: nat, bj: nat, P: nat)
    requires B > 0 && P > 0 && Accumulated(B, T, i, M, A, bj, P) && bj < Pow(B, i)
    ensures T < A + P
  {
    var Q := Pow(B, i);
    MulMono(bj, Q, A);
    MulStrict(M, Q, P);
    Distribute(A, P, Q);
    MulCancel(T, A + P, Q);
  }

  /** ... and below 2*P at the end, when a*b <= p*B^n. */
  lemma {:induction false} AccumulatedFinal(B: nat, T: nat, n: nat, M: nat, A: nat, b: nat, P: nat)
    requires B > 0 && P > 0 && Accumulated(B, T, n, M, A, b, P) && A * b <= P * Pow(B, n)
    ensures T < 2 * P
    ensures Cong(T * Pow(B, n), A * b, P)
  {
    var Q := Pow(B, n);
    MulStrict(M, Q, P);
    Associate(2, P, Q);
    PowPositive(B, n);
    MulCancel(T, 2 * P, Q);
    CongIntro(T * Q, A * b, P, M);
  }

  /** Lines 46-53: tmp += mx*a with the carry of the row before; the carry out has weight B^(n+1). */
  method AddRow(B: nat, tmp: array<nat>, a: array<nat>, mx: nat, carryIn: nat) returns (carry: nat)
    requires B > 1 && mx < B && carryIn <= 1 && tmp.Length == a.Length + 1 && tmp != a
    requires IsLimbs(B, tmp[..]) && IsLimbs(B, a[..])
    modifies tmp
    ensures IsLimbs(B, tmp[..]) && carry <= 1
    ensures var n := a.Length;
            Val(B, tmp[..], n + 1) + carry * Pow(B, n + 1)
            == old(Val(B, tmp[..], n)) + carryIn * Pow(B, n) + mx * Val(B, a[..], n)
  {
    var n := a.Length;
    var hi := MulAddRow(B, tmp, a, mx);
    AddCarry(B, Pow(B, n), hi, 0, carryIn);
    var limbx := hi + carryIn;
    ghost var t0 := tmp[..];
    tmp[n] := limbx % B;
    carry := limbx / B;
    ValFrame(B, t0, tmp[..], n);
  }

  /** The subtraction of p and the masked choice that end mul_mont_n and redc_mont_n. */
  method FinalSubtract(B: nat, ret: array<nat>, tmp: array<nat>, p: array<nat>, carry: nat, ghost target: int)
    requires B > 1 && B % 2 == 0 && ret.Length == p.Length <= tmp.Length && ret != p && ret != tmp
    requires IsLimbs(B, tmp[..]) && IsLimbs(B, p[..]) && carry <= 1
    requires var n, P := p.Length, Val(B, p[..], p.Length);
             var T := Val(B, tmp[..], n) + carry * Pow(B, n);
             0 < P && T < 2 * P && Cong(T * Pow(B, n), target, P)
    modifies ret
    ensures IsLimbs(B, ret[..]) && Val(B, ret[..], p.Length) < Val(B, p[..], p.Length)
    ensures Cong(Val(B, ret[..], p.Length) * Pow(B, p.Length), target, Val(B, p[..], p.Length))
  {
    ghost var n := p.Length;
    ghost var P, V, R := Val(B, p[..], n), Val(B, tmp[..], n), Pow(B, n);
    ValBound(B, p[..], n);
    ValBound(B, tmp[..], n);
    var borrow := SubN(B, ret, tmp, p);
    ghost var D := Val(B, ret[..], n);
    ValBound(B, ret[..], n);
    SubtractCases(V, carry, P, D, borrow, R);
    SmallMask(B, carry, borrow);
    var mask := SubLimb(B, carry, borrow);
    SelectN(B, ret, tmp, mask);
    if mask == 0 {
      CongOnceLess(V + carry * R, P, R, target);
    } else {
      assert tmp[..ret.Length] == ret[..];
      ValFrame(B, tmp[..], ret[..], n);
    }
  }

  /** The mask is all ones exactly when p must not be subtracted; it is never anything else. */
  lemma SubtractCases(V: nat, carry: nat, P: nat, D: nat, borrow: nat, R: nat)
    requires P < R && V < R && D < R && carry <= 1 && borrow <= 1
    requires V + carry * R < 2 * P && D + P == V + borrow * R
    ensures carry <= borrow
    ensures carry == borrow ==> D == V + carry * R - P && D < P
    ensures carry < borrow ==> V + carry * R == V && V < P
  {
  }

  lemma SmallMask(B: nat, carry: nat, borrow: nat)
    requires B > 1 && carry <= borrow <= 1
    ensures SubLimb(B, carry, borrow) == if carry == borrow then 0 else B - 1
  {
    if carry == borrow {
      QuotRem(B, B, 1, 0);
    } else {
      QuotRem(B - 1, B, 0, B - 1);
    }
  }

  lemma CongOnceLess(T: int, P: int, R: int, target: int)
    requires P > 0 && Cong(T * R, target, P)
    ensures Cong((T - P) * R, target, P)
  {
    var k := CongElim(T * R, target, P);
    DistributeSub(T, P, R);
    DistributeSub(k, R, P);
    CongIntro((T - P) * R, target, P, k - R);
  }

  lemma {:induction false} FirstRow(B: nat, X: nat, A: nat, b: seq<nat>, P: nat)
    requires |b| > 0 && X == b[0] * A
    ensures Accumulated(B, X, 0, 0, A, Val(B, b, 1), P)
  {
    assert Pow(B, 0) == 1;
    assert Val(B, b, 1) == b[0];
  }

  // ---- the inverse of B^n ----

  /** 1/B^n mod p exists, because n0 exists. */
  lemma {:induction false} MontInverse(B: nat, p: seq<nat>, n0: nat, n: nat) returns (rinv: int)
    requires IsModulus(B, p, n0)
    ensures Cong(Pow(B, n) * rinv, 1, Val(B, p, |p|))
  {
    var P := Val(B, p, |p|);
    if n == 0 {
      rinv := 1;
      CongIntro(1, 1, P, 0);
    } else {
      var r := MontInverse(B, p, n0, n - 1);
      var v := BaseInverse(B, p, n0);
      rinv := v * r;
      var Q := Pow(B, n - 1);
      CongMul(B * v, 1, Q * r, 1, P);
      assert B * v * (Q * r) == B * Q * (v * r) by {
        Associate(B * v, Q, r);
        Associate(B, v, Q);
        Associate(B, Q, v);
        Associate(B * Q, v, r);
      }
    }
  }

  lemma {:induction false} BaseInverse(B: nat, p: seq<nat>, n0: nat) returns (v: int)
    requires IsModulus(B, p, n0)
    ensures Cong(B * v, 1, Val(B, p, |p|))
  {
    ValTail(B, p, |p| - 1);
    v := InverseOfBase(B, n0, p[0], Val(B, p[1..], |p| - 1));
  }

  lemma InverseOfBase(B: nat, n0: nat, p0: nat, t: nat) returns (v: int)
    requires B > 1 && (n0 * p0 + 1) % B == 0 && p0 + B * t > 0
    ensures Cong(B * v, 1, p0 + B * t)
  {
    var c := (n0 * p0 + 1) / B;
    v := c + n0 * t;
    InverseSum(B, n0, p0, t, c);
    CongIntro(B * v, 1, p0 + B * t, n0);
  }

  lemma InverseSum(B: int, n0: int, p0: int, t: int, c: int)
    requires n0 * p0 + 1 == c * B
    ensures B * (c + n0 * t) == 1 + n0 * (p0 + B * t)
  {
    Distribute(c, n0 * t, B);
    Commute3(B, n0, t);
    Distribute(p0, B * t, n0);
  }

  lemma Commute3(x: int, y: int, z: int)
    ensures x * (y * z) == y * (x * z)
  {
    Associate(x, y, z);
    Associate(y, x, z);
  }
}
