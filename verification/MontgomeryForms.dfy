/** The routines built on Montgomery rows: conversion, double-width reduction, lazily reduced squarings. */
module MontgomeryForms {
  import opened Limbs
  import opened LimbRows
  import opened Congruence
  import opened Montgomery
  import opened MontgomeryMul

  /** n reduction rows over n limbs, lines 296-307 and 331-342: tmp = (a + M*p)/B^n, at most p. */
  method ReduceAll(B: nat, tmp: array<nat>, a: array<nat>, p: array<nat>, n0: nat) returns (ghost M: nat)
    requires IsModulus(B, p[..], n0) && p.Length <= a.Length && tmp.Length == p.Length
    requires tmp != a && tmp != p && IsLimbs(B, a[..]) && IsLimbs(B, tmp[..])
    modifies tmp
    ensures IsLimbs(B, tmp[..]) && Val(B, tmp[..], p.Length) <= Val(B, p[..], p.Length)
    ensures Accumulated(B, Val(B, tmp[..], p.Length), p.Length, M, Val(B, a[..], p.Length), 1, Val(B, p[..], p.Length))
  {
    var n := p.Length;
    ghost var A, P := Val(B, a[..], n), Val(B, p[..], n);
    M := 0;
    var src := a;
    StartReduce(B, A, P);
    for j := 0 to n
      invariant (src == a || src == tmp) && (j > 0 ==> src == tmp)
      invariant IsLimbs(B, tmp[..]) && IsLimbs(B, src[..])
      invariant Accumulated(B, Val(B, src[..], n), j, M, A, 1, P)
    {
      ghost var X := Val(B, src[..], n);
      var hi;
      ghost var m;
      hi, m := ReduceLimbs(B, tmp, src, p, n0);
      ghost var t0 := tmp[..];
      tmp[n - 1] := hi;
      ValFrame(B, t0, tmp[..], n - 1);
      ShiftStep(B, Pow(B, n - 1), Val(B, t0, n - 1), hi);
      AccumulateReduce(B, X, Val(B, tmp[..], n), j, M, m, A, 1, P);
      M := M + m * Pow(B, j);
      src := tmp;
    }
    ValBound(B, a[..], n);
    ReduceBound(B, Val(B, tmp[..], n), n, M, A, P);
  }

  lemma StartReduce(B: nat, A: nat, P: nat)
    ensures Accumulated(B, A, 0, 0, A, 1, P)
  {
  }

  lemma ReduceBound(B: nat, T: nat, n: nat, M: nat, A: nat, P: nat)
    requires B > 0 && P > 0 && Accumulated(B, T, n, M, A, 1, P) && A < Pow(B, n)
    ensures T <= P && Cong(T * Pow(B, n), A, P)
  {
    var Q := Pow(B, n);
    MulMono(M, Q - 1, P);
    DistributeSub(Q, 1, P);
    Distribute(P, 1, Q);
    MulCancel(T, P + 1, Q);
    CongIntro(T * Q, A, P, M);
  }

  /** a/B^n mod p, fully reduced for every n-limb |a|. */
  method FromMont(B: nat, ret: array<nat>, a: array<nat>, p: array<nat>, n0: nat)
    requires IsModulus(B, p[..], n0) && ret.Length == a.Length == p.Length && ret != p && IsLimbs(B, a[..])
    modifies ret
    ensures IsLimbs(B, ret[..]) && Val(B, ret[..], p.Length) < Val(B, p[..], p.Length)
    ensures var n := p.Length; Cong(Val(B, ret[..], n) * Pow(B, n), old(Val(B, a[..], n)), Val(B, p[..], n))
  {
    var n := p.Length;
    var tmp := new nat[n](_ => 0);
    ghost var A := Val(B, a[..], n);
    ghost var M := ReduceAll(B, tmp, a, p, n0);
    ValBound(B, a[..], n);
    ReduceBound(B, Val(B, tmp[..], n), n, M, A, Val(B, p[..], n));
    FinalSubtract(B, ret, tmp, p, 0, A);
  }

  /** a/B^n mod p for a of 2n limbs below p*B^n, the upper half |hi| given apart. */
  method RedcMont(B: nat, ret: array<nat>, lo: array<nat>, hi: array<nat>, p: array<nat>, n0: nat)
    requires IsModulus(B, p[..], n0) && ret.Length == lo.Length == hi.Length == p.Length && ret != p
    requires IsLimbs(B, lo[..]) && IsLimbs(B, hi[..])
    requires Val(B, hi[..], p.Length) < Val(B, p[..], p.Length)
    modifies ret
    ensures IsLimbs(B, ret[..]) && Val(B, ret[..], p.Length) < Val(B, p[..], p.Length)
    ensures var n := p.Length;
            Cong(Val(B, ret[..], n) * Pow(B, n), old(Val(B, lo[..], n) + Val(B, hi[..], n) * Pow(B, n)),
              Val(B, p[..], n))
  {
    var n := p.Length;
    var tmp := new nat[n](_ => 0);
    ghost var L, H, P := Val(B, lo[..], n), Val(B, hi[..], n), Val(B, p[..], n);
    ghost var M := ReduceAll(B, tmp, lo, p, n0);
    ghost var T := Val(B, tmp[..], n);
    ValBound(B, lo[..], n);
    ReduceBound(B, T, n, M, L, P);
    var carry := AddN(B, tmp, hi, tmp);
    CongShift(T, L, H, Pow(B, n), P);
    FinalSubtract(B, ret, tmp, p, carry, L + H * Pow(B, n));
  }

  lemma CongShift(T: int, L: int, H: int, R: int, P: int)
    requires P > 0 && Cong(T * R, L, P)
    ensures Cong((H + T) * R, L + H * R, P)
  {
    Distribute(H, T, R);
    CongIntro(H * R, H * R, P, 0);
    CongAdd(T * R, L, H * R, H * R, P);
  }

  lemma NoCarry(V: nat, carry: nat, R: nat)
    requires V + carry * R < R
    ensures carry == 0
  {
    if carry > 0 {
      MulMono(1, carry, R);
    }
  }

  lemma {:induction false} AfterReduce(
      B: nat, X: nat, V: nat, carry: nat, n: nat, j: nat, M: nat, m: nat, A: nat, b: seq<nat>, P: nat)
      returns (M': nat)
    requires B > 0 && P > 0 && m < B && j < |b| && IsLimbs(B, b) && A + P <= Pow(B, n)
    requires B * (V + carry * Pow(B, n)) == X + m * P
    requires Accumulated(B, X, j, M, A, Val(B, b, j + 1), P)
    ensures carry == 0 && V < A + P && Accumulated(B, V, j + 1, M', A, Val(B, b, j + 1), P)
  {
    var T := V + carry * Pow(B, n);
    AccumulateReduce(B, X, T, j, M, m, A, Val(B, b, j + 1), P);
    M' := M + m * Pow(B, j);
    ValBound(B, b, j + 1);
    AccumulatedBound(B, T, j + 1, M', A, Val(B, b, j + 1), P);
    NoCarry(V, carry, Pow(B, n));
  }

  lemma {:induction false} AfterAdd(
      B: nat, T: nat, X: nat, carry: nat, n: nat, j: nat, M: nat, A: nat, b: seq<nat>, P: nat)
    requires B > 0 && P > 0 && 0 < j < |b| && IsLimbs(B, b) && A + P <= Pow(B, n) && T < A + P
    requires X + carry * Pow(B, n + 1) == T + b[j] * A
    requires Accumulated(B, T, j, M, A, Val(B, b, j), P)
    ensures carry == 0 && Accumulated(B, X, j, M, A, Val(B, b, j + 1), P)
  {
    MulMono(b[j], B - 1, A);
    MulMono(A + P, Pow(B, n), B);
    Distribute(A, P, B);
    DistributeSub(B, 1, A);
    MulMono(1, B, P);
    NoCarry(X, carry, Pow(B, n + 1));
    AccumulateAdd(B, T, j, M, A, Val(B, b, j), P, b[j]);
  }

  /** The reduction row without carry handling: the top limb is added modulo B. */
  method NonredRow(B: nat, tmp: array<nat>, p: array<nat>, n0: nat) returns (ghost lost: nat, ghost m: nat)
    requires IsModulus(B, p[..], n0) && tmp.Length == p.Length + 1 && IsLimbs(B, tmp[..]) && tmp != p
    modifies tmp
    ensures IsLimbs(B, tmp[..]) && m < B
    ensures var n := p.Length;
            B * (Val(B, tmp[..], n) + lost * Pow(B, n)) == old(Val(B, tmp[..], n + 1)) + m * Val(B, p[..], n)
  {
    var n := p.Length;
    ghost var t0 := tmp[..];
    var hi;
    hi, m := ReduceLimbs(B, tmp, tmp, p, n0);
    ghost var t1 := tmp[..];
    TopLimb(B, n, Val(B, t1, n - 1), tmp[n], hi, 0, Val(B, t0, n), m * Val(B, p[..], n));
    var sum := tmp[n] + hi;
    lost := sum / B;
    tmp[n - 1] := sum % B;
    ValFrame(B, t1, tmp[..], n - 1);
  }

  /** mul_mont_n without the final subtraction: below a + p, and below 2*p when a*b <= p*B^n. */
  method MulMontNonred(B: nat, ret: array<nat>, a: array<nat>, b: array<nat>, p: array<nat>, n0: nat)
    requires IsModulus(B, p[..], n0) && ret.Length == a.Length == b.Length == p.Length && ret != p
    requires IsLimbs(B, a[..]) && IsLimbs(B, b[..])
    requires var n := p.Length;
             && Val(B, a[..], n) + Val(B, p[..], n) <= Pow(B, n)
             && Val(B, a[..], n) * Val(B, b[..], n) <= Val(B, p[..], n) * Pow(B, n)
    modifies ret
    ensures IsLimbs(B, ret[..]) && Val(B, ret[..], p.Length) < 2 * Val(B, p[..], p.Length)
    ensures var n := p.Length;
            Cong(Val(B, ret[..], n) * Pow(B, n), old(Val(B, a[..], n) * Val(B, b[..], n)), Val(B, p[..], n))
  {
    var n := p.Length;
    var tmp := new nat[n + 1](_ => 0);
    ghost var A, P, Bs := Val(B, a[..], n), Val(B, p[..], n), b[..];
    var hi := MulRow(B, tmp, a, b[0]);
    ghost var t0 := tmp[..];
    tmp[n] := hi;
    ValFrame(B, t0, tmp[..], n);
    FirstRow(B, Val(B, tmp[..], n + 1), A, Bs, P);
    ghost var M := NonredRows(B, tmp, a, b, p, n0);
    AccumulatedFinal(B, Val(B, tmp[..], n), n, M, A, Val(B, Bs, n), P);
    CopyN(B, ret, tmp);
  }

  method NonredRows(
      B: nat, tmp: array<nat>, a: array<nat>, b: array<nat>, p: array<nat>, n0: nat) returns (ghost M: nat)
    requires IsModulus(B, p[..], n0) && a.Length == b.Length == p.Length && tmp.Length == p.Length + 1
    requires tmp != a && tmp != b && tmp != p && IsLimbs(B, a[..]) && IsLimbs(B, b[..]) && IsLimbs(B, tmp[..])
    requires Val(B, a[..], p.Length) + Val(B, p[..], p.Length) <= Pow(B, p.Length)
    requires Accumulated(B, Val(B, tmp[..], p.Length + 1), 0, 0, Val(B, a[..], p.Length), Val(B, b[..], 1),
        Val(B, p[..], p.Length))
    modifies tmp
    ensures IsLimbs(B, tmp[..])
    ensures var n := p.Length;
            Accumulated(B, Val(B, tmp[..], n), n, M, Val(B, a[..], n), Val(B, b[..], n), Val(B, p[..], n))
  {
    var n := p.Length;
    ghost var A, P, Bs := Val(B, a[..], n), Val(B, p[..], n), b[..];
    M := 0;
    var j := 0;
    while true
      invariant 0 <= j < n && IsLimbs(B, tmp[..])
      invariant Accumulated(B, Val(B, tmp[..], n + 1), j, M, A, Val(B, Bs, j + 1), P)
      decreases n - j
    {
      ghost var X, lost, m := Val(B, tmp[..], n + 1), 0, 0;
      lost, m := NonredRow(B, tmp, p, n0);
      M := AfterReduce(B, X, Val(B, tmp[..], n), lost, n, j, M, m, A, Bs, P);
      j := j + 1;
      if j == n {
        return;
      }
      ghost var T := Val(B, tmp[..], n);
      var hi := MulAddRow(B, tmp, a, b[j]);
      ghost var t0 := tmp[..];
      tmp[n] := hi;
      ValFrame(B, t0, tmp[..], n);
      AfterAdd(B, T, Val(B, tmp[..], n + 1), 0, n, j, M, A, Bs, P);
    }
  }

  // ---- what the results mean ----

  /** With the top bit of p clear no row overflows. */
  lemma {:induction false} RoomyFits(B: nat, A: nat, b: seq<nat>, p: seq<nat>, n0: nat)
    requires IsModulus(B, p, n0) && IsLimbs(B, b) && |b| == |p| && A + Val(B, p, |p|) <= Pow(B, |p|)
    ensures !Overflows(B, A, b, Val(B, p, |p|), n0)
  {
    var P := Val(B, p, |p|);
    MulMono(A + P, Pow(B, |p|), B);
    Distribute(A, P, B);
    MulMono(1, B, P);
    FitsWhenSmall(B, A, b, p, n0);
  }

  lemma LazyBounds(A: nat, b: nat, P: nat, R: nat)
    requires A < 2 * P && b < 2 * P && 4 * P <= R
    ensures A + P <= R && A * b <= P * R
  {
    MulMono(A, 2 * P, b);
    MulMono(b, 2 * P, 2 * P);
    MulMono(4 * P, R, P);
    Associate(4, P, P);
    Associate(2, P, 2 * P);
  }

  /** t stands for a^(2^k) once the R's that k Montgomery squarings divide out are put back. */
  ghost predicate Squared(t: nat, a: nat, k: nat, R: nat, p: nat)
    requires p > 0
  {
    Pow(2, k) > 0 && Cong(t * Pow(R, Pow(2, k) - 1), Pow(a, Pow(2, k)), p)
  }

  lemma {:induction false} SquaredStart(a: nat, R: nat, p: nat)
    requires p > 0
    ensures Squared(a, a, 0, R, p)
  {
    assert Pow(2, 0) == 1;
    assert Pow(R, 0) == 1;
    assert Pow(a, 1) == a * Pow(a, 0);
    CongIntro(a, a, p, 0);
  }

  lemma Regroup(t: int, R: int, E: int)
    ensures t * (R * (E * E)) == t * R * (E * E)
  {
    Associate(t, R, E * E);
  }

  lemma SquareOfProduct(x: int, E: int)
    ensures x * x * (E * E) == x * E * (x * E)
  {
    Associate(x * x, E, E);
    Associate(x * E, x, E);
    Associate(x, x, E);
    Associate(x, E, x);
  }

  lemma {:induction false} SquareStep(t: nat, x: nat, a: nat, k: nat, R: nat, p: nat)
    requires p > 0 && Cong(t * R, x * x, p) && Squared(x, a, k, R, p)
    ensures Squared(t, a, k + 1, R, p)
  {
    var m := Pow(2, k);
    assert Pow(2, k + 1) == m + m;
    PowAdds(a, m, m);
    PowAdds(R, m - 1, m - 1);
    var E := Pow(R, m - 1);
    assert Pow(R, m + m - 1) == R * (E * E);
    Regroup(t, R, E);
    CongScale(t * R, x * x, E * E, p);
    SquareOfProduct(x, E);
    CongMul(x * E, Pow(a, m), x * E, Pow(a, m), p);
    CongTrans(t * R * (E * E), x * E * (x * E), Pow(a, m) * Pow(a, m), p);
  }

  lemma {:induction false} MulStep(t: nat, x: nat, b: nat, a: nat, k: nat, R: nat, p: nat)
    requires p > 0 && Cong(t * R, x * b, p) && Squared(x, a, k, R, p)
    ensures Cong(t * Pow(R, Pow(2, k)), Pow(a, Pow(2, k)) * b, p)
  {
    var E := Pow(R, Pow(2, k) - 1);
    assert Pow(R, Pow(2, k)) == R * E;
    Associate(t, R, E);
    CongScale(t * R, x * b, E, p);
    Associate(x, b, E);
    Associate(x, E, b);
    CongScale(x * E, Pow(a, Pow(2, k)), b, p);
    CongTrans(t * R * E, x * E * b, Pow(a, Pow(2, k)) * b, p);
  }

  /**
   * sqr_n_mul_mont_383: the squarings are only reduced below 2*p, yet the result is fully reduced
   * and is a^(2^count)*b over the R's that count + 1 Montgomery products divide out.
   */
  method SqrNMulMont(
      B: nat, ret: array<nat>, a: array<nat>, count: nat, p: array<nat>, n0: nat, b: array<nat>)
    requires IsModulus(B, p[..], n0) && ret.Length == a.Length == b.Length == p.Length && ret != p && ret != b
    requires IsLimbs(B, a[..]) && IsLimbs(B, b[..]) && count >= 1
    requires var n, P := p.Length, Val(B, p[..], p.Length);
             4 * P <= Pow(B, n) && Val(B, a[..], n) < 2 * P && Val(B, b[..], n) < 2 * P
    modifies ret
    ensures IsLimbs(B, ret[..]) && Val(B, ret[..], p.Length) < Val(B, p[..], p.Length)
    ensures var n, m := p.Length, Pow(2, count);
            Cong(Val(B, ret[..], n) * Pow(Pow(B, n), m), Pow(old(Val(B, a[..], n)), m) * old(Val(B, b[..], n)),
              Val(B, p[..], n))
  {
    var n := p.Length;
    ghost var A, P, R, bv := Val(B, a[..], n), Val(B, p[..], n), Pow(B, n), Val(B, b[..], n);
    var src := a;
    SquaredStart(A, R, P);
    for k := 0 to count
      invariant (src == a || src == ret) && (k > 0 ==> src == ret) && IsLimbs(B, src[..])
      invariant Val(B, src[..], n) < 2 * P && Squared(Val(B, src[..], n), A, k, R, P)
    {
      ghost var x := Val(B, src[..], n);
      LazyBounds(x, x, P, R);
      MulMontNonred(B, ret, src, src, p, n0);
      src := ret;
      SquareStep(Val(B, ret[..], n), x, A, k, R, P);
    }
    ghost var y := Val(B, ret[..], n);
    LazyBounds(y, bv, P, R);
    RoomyFits(B, y, b[..], p[..], n0);
    MulMont(B, ret, ret, b, p, n0);
    MulStep(Val(B, ret[..], n), y, bv, A, count, R, P);
  }

  /** Into Montgomery form by multiplying with B^(2n) mod p, and out again: the same limbs. */
  method ThereAndBack(B: nat, x: array<nat>, rr: array<nat>, p: array<nat>, n0: nat) returns (out: array<nat>)
    requires IsModulus(B, p[..], n0) && x.Length == rr.Length == p.Length
    requires IsLimbs(B, x[..]) && IsLimbs(B, rr[..])
    requires var n, P := p.Length, Val(B, p[..], p.Length);
             && Val(B, x[..], n) < P && Val(B, rr[..], n) < P && !Overflows(B, Val(B, x[..], n), rr[..], P, n0)
             && Cong(Val(B, rr[..], n), Pow(B, n) * Pow(B, n), P)
    ensures out[..] == x[..]
  {
    var n := p.Length;
    ghost var X, Y, P, R := Val(B, x[..], n), Val(B, rr[..], n), Val(B, p[..], n), Pow(B, n);
    out := new nat[n];
    ValBound(B, p[..], n);
    MulMono(X, P, Y);
    MulMono(Y, R, P);
    MulMont(B, out, x, rr, p, n0);
    ghost var y := Val(B, out[..], n);
    FromMont(B, out, out, p, n0);
    ghost var rinv := MontInverse(B, p[..], n0, n);
    BackIsSame(Val(B, out[..], n), y, X, Y, R, rinv, P);
    ValUnique(B, out[..], x[..], n);
    assert out[..n] == out[..] && x[..n] == x[..];
  }

  lemma BackIsSame(z: int, y: int, x: int, rr: int, R: int, rinv: int, p: int)
    requires p > 0 && Cong(R * rinv, 1, p) && Cong(rr, R * R, p)
    requires Cong(y * R, x * rr, p) && Cong(z * R, y, p)
    requires 0 <= z < p && 0 <= x < p
    ensures z == x
  {
    CongScale(rr, R * R, x, p);
    CongTrans(y * R, x * rr, x * (R * R), p);
    Associate(x, R, R);
    CongCancel(y, x * R, R, rinv, p);
    CongTrans(z * R, y, x * R, p);
    CongCancel(z, x, R, rinv, p);
    CongUnique(z, x, p);
  }
}
