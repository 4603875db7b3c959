/**
 * mul_mont_n for every odd modulus: what it computes, and exactly when that is a*b/B^n
 * (external/blst/no_asm.h:15-66).
 */
module MontgomeryMul {
  import opened Limbs
  import opened LimbRows
  import opened Congruence
  import opened Montgomery

  // ---- the accumulator over the integers ----

  /** (x + m*p)/B for the m that clears the lowest limb. */
  function Reduced(B: nat, x: nat, P: nat, n0: nat): nat
    requires B > 0
  {
    (x + n0 * (x % B) % B * P) / B
  }

  /** The accumulator after j rows, if none is ever cut off. */
  function Partial(B: nat, A: nat, b: seq<nat>, P: nat, n0: nat, j: nat): nat
    requires B > 0 && j <= |b|
    decreases j, 0
  {
    if j == 0 then 0 else Reduced(B, RowSum(B, A, b, P, n0, j - 1), P, n0)
  }

  /** ... and with the next row added. */
  function RowSum(B: nat, A: nat, b: seq<nat>, P: nat, n0: nat, j: nat): nat
    requires B > 0 && j < |b|
    decreases j, 1
  {
    Partial(B, A, b, P, n0, j) + b[j] * A
  }

  /** Some row needs more than n + 1 limbs, so that lines 51-53 leave a carry. */
  ghost predicate Overflows(B: nat, A: nat, b: seq<nat>, P: nat, n0: nat)
    requires B > 0
  {
    OverflowsBy(B, A, b, P, n0, |b|)
  }

  ghost predicate OverflowsBy(B: nat, A: nat, b: seq<nat>, P: nat, n0: nat, k: nat)
    requires B > 0 && k <= |b|
  {
    exists j :: 0 <= j < k && RowSum(B, A, b, P, n0, j) >= Pow(B, |b| + 1)
  }

  lemma {:induction false} ReducedTimesB(B: nat, x: nat, p: seq<nat>, n0: nat)
    requires IsModulus(B, p, n0)
    ensures var m := n0 * (x % B) % B;
            0 <= m < B && B * Reduced(B, x, Val(B, p, |p|), n0) == x + m * Val(B, p, |p|)
  {
    ValTail(B, p, |p| - 1);
    HiLo(B, n0 * (x % B));
    ReducedExact(B, x, p[0], Val(B, p[1..], |p| - 1), n0);
  }

  lemma ReducedExact(B: nat, x: nat, p0: nat, V: nat, n0: nat)
    requires B > 1 && (n0 * p0 + 1) % B == 0
    ensures B * Reduced(B, x, p0 + B * V, n0) == x + n0 * (x % B) % B * (p0 + B * V)
  {
    var t := x % B;
    var m := n0 * t % B;
    ClearsLimb(B, n0, p0, t);
    var c := (m * p0 + t) / B;
    ExactDivision(x, t, m, p0, V, c, B);
  }

  lemma ExactDivision(x: nat, t: nat, m: nat, p0: nat, V: nat, c: nat, B: nat)
    requires B > 1 && t == x % B && m * p0 + t == c * B
    ensures B * ((x + m * (p0 + B * V)) / B) == x + m * (p0 + B * V)
  {
    HiLo(B, x);
    OverB(x, x / B, t, m, p0, V, c, B);
    QuotRem(x + m * (p0 + B * V), B, x / B + c + m * V, 0);
  }

  lemma OverB(x: int, q: int, t: int, m: int, p0: int, V: int, c: int, B: int)
    requires x == q * B + t && m * p0 + t == c * B
    ensures x + m * (p0 + B * V) == (q + c + m * V) * B
  {
    Distribute(p0, B * V, m);
    Associate(m, B, V);
    Associate(m, V, B);
    Associate(B, m, V);
    Distribute(q + c, m * V, B);
    Distribute(q, c, B);
  }

  /** The accumulator of j rows is a*b[..j] plus a multiple of p, over B^j. */
  lemma {:induction false} PartialMeans(B: nat, A: nat, b: seq<nat>, p: seq<nat>, n0: nat, j: nat) returns (M: nat)
    requires IsModulus(B, p, n0) && j <= |b|
    ensures Accumulated(B, Partial(B, A, b, Val(B, p, |p|), n0, j), j, M, A, Val(B, b, j), Val(B, p, |p|))
  {
    var P := Val(B, p, |p|);
    if j == 0 {
      M := 0;
    } else {
      var M0 := PartialMeans(B, A, b, p, n0, j - 1);
      var T, X := Partial(B, A, b, P, n0, j - 1), RowSum(B, A, b, P, n0, j - 1);
      AccumulateAdd(B, T, j - 1, M0, A, Val(B, b, j - 1), P, b[j - 1]);
      ReducedTimesB(B, X, p, n0);
      var m := n0 * (X % B) % B;
      AccumulateReduce(B, X, Partial(B, A, b, P, n0, j), j - 1, M0, m, A, Val(B, b, j), P);
      M := M0 + m * Pow(B, j - 1);
    }
  }

  /** No row overflows when B*a + p fits; for reduced a this is so already when (B + 1)*p <= B^(n+1) + B. */
  lemma {:induction false} FitsWhenSmall(B: nat, A: nat, b: seq<nat>, p: seq<nat>, n0: nat)
    requires IsModulus(B, p, n0) && IsLimbs(B, b) && B * A + Val(B, p, |p|) <= Pow(B, |b| + 1)
    ensures !Overflows(B, A, b, Val(B, p, |p|), n0)
  {
    var P := Val(B, p, |p|);
    forall j | 0 <= j < |b|
      ensures RowSum(B, A, b, P, n0, j) < Pow(B, |b| + 1)
    {
      var M := PartialMeans(B, A, b, p, n0, j);
      ValBound(B, b, j);
      AccumulatedBound(B, Partial(B, A, b, P, n0, j), j, M, A, Val(B, b, j), P);
      RowBound(B, Partial(B, A, b, P, n0, j), b[j], A, P);
    }
  }

  lemma RowBound(B: nat, T: nat, bj: nat, A: nat, P: nat)
    requires bj < B && T < A + P
    ensures T + bj * A < B * A + P
  {
    MulMono(bj, B - 1, A);
    DistributeSub(B, 1, A);
  }

  lemma ReducedFits(B: nat, A: nat, b: seq<nat>, p: seq<nat>, n0: nat)
    requires IsModulus(B, p, n0) && IsLimbs(B, b) && A < Val(B, p, |p|)
    requires (B + 1) * Val(B, p, |p|) <= Pow(B, |b| + 1) + B
    ensures !Overflows(B, A, b, Val(B, p, |p|), n0)
  {
    var P := Val(B, p, |p|);
    MulMono(A + 1, P, B);
    Distribute(A, 1, B);
    Distribute(B, 1, P);
    FitsWhenSmall(B, A, b, p, n0);
  }

  // ---- the rows as they run ----

  /** X stands for a*bj less E, over B^i, with less than B^i multiples of p absorbed. */
  ghost predicate Accrued(B: nat, X: nat, i: nat, M: nat, E: nat, A: nat, bj: nat, P: nat) {
    M < Pow(B, i) && X * Pow(B, i) + E == A * bj + M * P
  }

  /** The carries that were put one limb too low cost (B - 1)*B^(n+1) each, at rising weights. */
  ghost function Loss(B: nat, n: nat, S: nat): nat
    requires B > 0
  {
    LossFactor(B, S) * Pow(B, n + 1)
  }

  ghost function LossFactor(B: nat, S: nat): nat
    requires B > 0
  {
    (B - 1) * S
  }

  lemma {:induction false} AccrueReduce(B: nat, X: nat, T: nat, i: nat, M: nat, m: nat, E: nat, A: nat, bj: nat, P: nat)
    requires Accrued(B, X, i, M, E, A, bj, P) && m < B && B * T == X + m * P
    ensures Accrued(B, T, i + 1, M + m * Pow(B, i), E, A, bj, P)
  {
    var Q := Pow(B, i);
    calc {
      T * Pow(B, i + 1);
      == { Associate(T, B, Q); }
      T * B * Q;
      == { assert T * B == X + m * P; Distribute(X, m * P, Q); }
      X * Q + m * P * Q;
      == { Associate(m, P, Q); Associate(m, Q, P); }
      X * Q + m * Q * P;
    }
    Distribute(M, m * Q, P);
    MulMono(m, B - 1, Q);
    DistributeSub(B, 1, Q);
  }

  /** Row i added; a carry of weight B^(n+1) comes back at weight B^n. */
  lemma {:induction false} AccrueAdd(
      B: nat, n: nat, T: nat, V: nat, c: nat, i: nat, M: nat, S: nat, A: nat, b: seq<nat>, P: nat)
    requires B > 1 && 0 < i < |b| && Accrued(B, T, i, M, Loss(B, n, S), A, Val(B, b, i), P)
    requires V + c * Pow(B, n + 1) == T + b[i] * A
    ensures Accrued(B, V + c * Pow(B, n), i, M, Loss(B, n, S + c * Pow(B, i - 1)), A, Val(B, b, i + 1), P)
  {
    var Q := Pow(B, i);
    LossGrows(B, n, S, c, i);
    Distribute(V + c * Pow(B, n), c * ((B - 1) * Pow(B, n)), Q);
    DistributeSub(B, 1, Pow(B, n));
    DistributeSub(c * Pow(B, n + 1), c * Pow(B, n), 1);
    DistributeSub(Pow(B, n + 1), Pow(B, n), c);
    assert V + c * Pow(B, n) + c * ((B - 1) * Pow(B, n)) == T + b[i] * A;
    Distribute(T, b[i] * A, Q);
    Associate(b[i], A, Q);
    Associate(A, b[i], Q);
    Distribute(Val(B, b, i), b[i] * Q, A);
  }

  lemma {:induction false} LossGrows(B: nat, n: nat, S: nat, c: nat, i: nat)
    requires B > 1 && i > 0
    ensures Loss(B, n, S + c * Pow(B, i - 1)) == Loss(B, n, S) + c * ((B - 1) * Pow(B, n)) * Pow(B, i)
  {
    var W, U, R := Pow(B, i - 1), B - 1, Pow(B, n);
    Distribute(S, c * W, U);
    Distribute(U * S, U * (c * W), B * R);
    calc {
      U * (c * W) * (B * R);
      == { Associate(U, c, W); Associate(U * c, W, B * R); }
      U * c * (W * (B * R));
      == { Associate(W, B, R); Associate(B * W, R, 1); Associate(R, B, W); assert W * (B * R) == R * (B * W); }
      U * c * (R * (B * W));
      == { Associate(U * c, R, B * W); Associate(c, U, R); }
      c * (U * R) * (B * W);
    }
  }

  /** What holds of the run so far: nothing lost and no overflow, or both. */
  ghost predicate Track(B: nat, n: nat, S: nat, i: nat, A: nat, P: nat, over: bool) {
    B > 0 && LossFactor(B, S) + 1 <= Pow(B, i) && (S > 0 <==> over) && (over ==> B * A + P > Pow(B, n + 1))
  }

  lemma {:induction false} AccruedBound(B: nat, T: nat, i: nat, M: nat, E: nat, A: nat, bj: nat, P: nat)
    requires B > 0 && P > 0 && Accrued(B, T, i, M, E, A, bj, P) && bj < Pow(B, i)
    ensures T < A + P
  {
    var Q := Pow(B, i);
    MulMono(bj, Q, A);
    MulStrict(M, Q, P);
    Distribute(A, P, Q);
    MulCancel(T, A + P, Q);
  }

  /** The accumulator follows the integers until something is lost. */
  ghost predicate Following(B: nat, X: nat, S: nat, want: nat) {
    S == 0 ==> X == want
  }

  lemma {:induction false} OverflowStep(B: nat, A: nat, b: seq<nat>, P: nat, n0: nat, k: nat)
    requires B > 0 && k < |b|
    ensures OverflowsBy(B, A, b, P, n0, k + 1) <==>
            OverflowsBy(B, A, b, P, n0, k) || RowSum(B, A, b, P, n0, k) >= Pow(B, |b| + 1)
  {
  }

  /** The carry of row i, and what it does to the record of the run. */
  lemma {:induction false} TrackAdd(
      B: nat, T: nat, V: nat, c: nat, i: nat, S: nat, A: nat, b: seq<nat>, P: nat, n0: nat)
    requires B > 1 && 0 < i < |b| && IsLimbs(B, b) && c <= 1 && V < Pow(B, |b| + 1) && T < A + P
    requires V + c * Pow(B, |b| + 1) == T + b[i] * A
    requires Track(B, |b|, S, i - 1, A, P, OverflowsBy(B, A, b, P, n0, i))
    requires Following(B, T, S, Partial(B, A, b, P, n0, i))
    ensures var S' := S + c * Pow(B, i - 1);
            && Track(B, |b|, S', i, A, P, OverflowsBy(B, A, b, P, n0, i + 1))
            && Following(B, V + c * Pow(B, |b|), S', RowSum(B, A, b, P, n0, i))
  {
    OverflowStep(B, A, b, P, n0, i);
    PowPositive(B, i - 1);
    PowPositive(B, |b| + 1);
    FactorBound(B, S, c, i);
    RowBound(B, T, b[i], A, P);
    if c == 0 {
      assert S + c * Pow(B, i - 1) == S;
    } else {
      assert c * Pow(B, i - 1) > 0;
    }
  }

  lemma {:induction false} FactorBound(B: nat, S: nat, c: nat, i: nat)
    requires B > 1 && i > 0 && c <= 1 && LossFactor(B, S) + 1 <= Pow(B, i - 1)
    ensures LossFactor(B, S + c * Pow(B, i - 1)) + 1 <= Pow(B, i)
  {
    var W := Pow(B, i - 1);
    Distribute(S, c * W, B - 1);
    DistributeSub(B, 1, W);
    MulMono(c, 1, W);
    MulMono(c * W, W, B - 1);
  }

  /** The loop of lines 30-54 for any odd modulus: what it accumulates and what it loses. */
  method MontRows(B: nat, tmp: array<nat>, a: array<nat>, b: array<nat>, p: array<nat>, n0: nat)
      returns (carry: nat, ghost M: nat, ghost S: nat)
    requires IsModulus(B, p[..], n0) && a.Length == b.Length == p.Length && tmp.Length == p.Length + 1
    requires tmp != a && tmp != b && tmp != p && IsLimbs(B, a[..]) && IsLimbs(B, b[..]) && IsLimbs(B, tmp[..])
    requires Val(B, tmp[..], p.Length + 1) == b[0] * Val(B, a[..], p.Length)
    modifies tmp
    ensures IsLimbs(B, tmp[..]) && carry <= 1
    ensures var n, A, P := p.Length, Val(B, a[..], p.Length), Val(B, p[..], p.Length);
            && Accrued(B, Val(B, tmp[..], n) + carry * Pow(B, n), n, M, Loss(B, n, S), A, Val(B, b[..], n), P)
            && Track(B, n, S, n - 1, A, P, Overflows(B, A, b[..], P, n0))
  {
    var n := p.Length;
    ghost var A, P, bs := Val(B, a[..], n), Val(B, p[..], n), b[..];
    carry, M, S := 0, 0, 0;
    ValBound(B, a[..], n);
    RowsStart(B, n, Val(B, tmp[..], n + 1), A, bs, P, n0);
    var j := 0;
    while true
      invariant 0 <= j < n && carry <= 1 && IsLimbs(B, tmp[..])
      invariant Before(B, Val(B, tmp[..], n + 1) + carry * Pow(B, n), n, j, M, S, A, bs, P, n0)
      decreases n - j
    {
      carry, M := ReduceTracked(B, tmp, p, n0, carry, j, M, S, A, bs);
      j := j + 1;
      if j == n {
        return;
      }
      carry, S := AddTracked(B, tmp, a, n0, carry, j, M, S, bs, P, b[j]);
    }
  }

  method ReduceTracked(B: nat, tmp: array<nat>, p: array<nat>, n0: nat, carry0: nat,
                       ghost j: nat, ghost M0: nat, ghost S: nat, ghost A: nat, ghost b: seq<nat>)
      returns (carry: nat, ghost M: nat)
    requires IsModulus(B, p[..], n0) && tmp.Length == p.Length + 1 && IsLimbs(B, tmp[..]) && tmp != p && carry0 <= 1
    requires IsLimbs(B, b)
    requires var n := p.Length;
        Before(B, Val(B, tmp[..], n + 1) + carry0 * Pow(B, n), n, j, M0, S, A, b, Val(B, p[..], n), n0)
    modifies tmp
    ensures IsLimbs(B, tmp[..]) && carry <= 1
    ensures var n := p.Length;
        After(B, Val(B, tmp[..], n) + carry * Pow(B, n), n, j + 1, M, S, A, b, Val(B, p[..], n), n0)
  {
    ghost var n, X, m := p.Length, Val(B, tmp[..], p.Length + 1) + carry0 * Pow(B, p.Length), 0;
    LowLimb(B, tmp[..], carry0, n);
    carry, m := ReduceRow(B, tmp, p, n0, carry0);
    M := M0 + m * Pow(B, j);
    RowReduced(B, X, Val(B, tmp[..], n) + carry * Pow(B, n), n, j, M0, m, S, A, b, p[..], n0);
  }

  method AddTracked(B: nat, tmp: array<nat>, a: array<nat>, n0: nat, carry0: nat,
                    ghost j: nat, ghost M: nat, ghost S0: nat, ghost b: seq<nat>, ghost P: nat, mx: nat)
      returns (carry: nat, ghost S: nat)
    requires tmp.Length == a.Length + 1 && tmp != a && IsLimbs(B, tmp[..]) && IsLimbs(B, a[..]) && IsLimbs(B, b)
    requires carry0 <= 1
    requires var n := a.Length;
        After(B, Val(B, tmp[..], n) + carry0 * Pow(B, n), n, j, M, S0, Val(B, a[..], n), b, P, n0)
    requires j < |b| && mx == b[j]
    modifies tmp
    ensures IsLimbs(B, tmp[..]) && carry <= 1
    ensures var n := a.Length;
        Before(B, Val(B, tmp[..], n + 1) + carry * Pow(B, n), n, j, M, S, Val(B, a[..], n), b, P, n0)
  {
    ghost var n, T := a.Length, Val(B, tmp[..], a.Length) + carry0 * Pow(B, a.Length);
    carry := AddRow(B, tmp, a, mx, carry0);
    ValBound(B, tmp[..], n + 1);
    S := S0 + carry * Pow(B, j - 1);
    RowAdded(B, T, Val(B, tmp[..], n + 1), carry, n, j, M, S0, Val(B, a[..], n), b, P, n0);
  }

  /** Row j has been added, j rows have been reduced. */
  ghost predicate Before(B: nat, X: nat, n: nat, j: nat, M: nat, S: nat, A: nat, b: seq<nat>, P: nat, n0: nat) {
    && B > 1 && j < n == |b|
    && Accrued(B, X, j, M, Loss(B, n, S), A, Val(B, b, j + 1), P)
    && Track(B, n, S, j, A, P, OverflowsBy(B, A, b, P, n0, j + 1))
    && Following(B, X, S, RowSum(B, A, b, P, n0, j))
  }

  /** j rows have been added and reduced. */
  ghost predicate After(B: nat, T: nat, n: nat, j: nat, M: nat, S: nat, A: nat, b: seq<nat>, P: nat, n0: nat) {
    && B > 1 && 0 < j <= n == |b| && T < A + P
    && Accrued(B, T, j, M, Loss(B, n, S), A, Val(B, b, j), P)
    && Track(B, n, S, j - 1, A, P, OverflowsBy(B, A, b, P, n0, j))
    && Following(B, T, S, Partial(B, A, b, P, n0, j))
  }

  lemma {:induction false} RowsStart(B: nat, n: nat, X: nat, A: nat, b: seq<nat>, P: nat, n0: nat)
    requires B > 1 && n == |b| > 0 && IsLimbs(B, b) && X == b[0] * A && A < Pow(B, n)
    ensures Before(B, X + 0 * Pow(B, n), n, 0, 0, 0, A, b, P, n0)
  {
    assert Pow(B, 0) == 1;
    assert Val(B, b, 1) == b[0];
    MulMono(b[0], B, A);
    MulStrict(A, Pow(B, n), B);
    assert RowSum(B, A, b, P, n0, 0) == X;
  }

  lemma {:induction false} LowLimb(B: nat, t: seq<nat>, carry: nat, n: nat)
    requires B > 1 && 0 < n < |t| && IsLimbs(B, t)
    ensures (Val(B, t, n + 1) + carry * Pow(B, n)) % B == t[0]
  {
    ValTail(B, t, n);
    var V, Q := Val(B, t[1..], n), Pow(B, n - 1);
    Associate(carry, B, Q);
    Associate(B, carry, Q);
    Distribute(V, carry * Q, B);
    QuotRem(Val(B, t, n + 1) + carry * Pow(B, n), B, V + carry * Q, t[0]);
  }

  lemma {:induction false} RowReduced(
      B: nat, X: nat, T: nat, n: nat, j: nat, M: nat, m: nat, S: nat, A: nat, b: seq<nat>, p: seq<nat>, n0: nat)
    requires IsModulus(B, p, n0) && IsLimbs(B, b) && Before(B, X, n, j, M, S, A, b, Val(B, p, |p|), n0)
    requires m == n0 * (X % B) % B && m < B && B * T == X + m * Val(B, p, |p|)
    ensures After(B, T, n, j + 1, M + m * Pow(B, j), S, A, b, Val(B, p, |p|), n0)
  {
    var P := Val(B, p, |p|);
    AccrueReduce(B, X, T, j, M, m, Loss(B, n, S), A, Val(B, b, j + 1), P);
    ValBound(B, b, j + 1);
    AccruedBound(B, T, j + 1, M + m * Pow(B, j), Loss(B, n, S), A, Val(B, b, j + 1), P);
    ReducedTimesB(B, X, p, n0);
    MulCancelSame(B, T, Reduced(B, X, P, n0));
  }

  lemma MulCancelSame(B: nat, x: nat, y: nat)
    requires B > 0 && B * x == B * y
    ensures x == y
  {
    QuotRem(B * x, B, x, 0);
    QuotRem(B * x, B, y, 0);
  }

  lemma {:induction false} RowAdded(
      B: nat, T: nat, V: nat, c: nat, n: nat, j: nat, M: nat, S: nat, A: nat, b: seq<nat>, P: nat, n0: nat)
    requires After(B, T, n, j, M, S, A, b, P, n0) && j < n && IsLimbs(B, b) && c <= 1 && V < Pow(B, n + 1)
    requires V + c * Pow(B, n + 1) == T + b[j] * A
    ensures Before(B, V + c * Pow(B, n), n, j, M, S + c * Pow(B, j - 1), A, b, P, n0)
  {
    AccrueAdd(B, n, T, V, c, j, M, S, A, b, P);
    TrackAdd(B, T, V, c, j, S, A, b, P, n0);
  }

  // ---- the product ----

  /** A loss is a multiple of p only if it is none: p is coprime to B and larger than the rest. */
  lemma {:induction false} LossShows(B: nat, n: nat, S: nat, A: nat, p: seq<nat>, n0: nat)
    requires IsModulus(B, p, n0) && n == |p| && S > 0 && A <= Val(B, p, n)
    requires LossFactor(B, S) + 1 <= Pow(B, n - 1) && B * A + Val(B, p, n) > Pow(B, n + 1)
    ensures !Cong(Loss(B, n, S), 0, Val(B, p, n))
  {
    var P, f, Q := Val(B, p, n), LossFactor(B, S), Pow(B, n - 1);
    LargeModulus(B, n, A, P);
    MulMono(1, S, B - 1);
    if Cong(Loss(B, n, S), 0, P) {
      var rinv := MontInverse(B, p, n0, n + 1);
      CongCancel(f, 0, Pow(B, n + 1), rinv, P);
      CongUnique(f, 0, P);
    }
  }

  lemma {:induction false} LargeModulus(B: nat, n: nat, A: nat, P: nat)
    requires B > 1 && n > 0 && A <= P && B * A + P > Pow(B, n + 1)
    ensures P > Pow(B, n - 1)
  {
    var Q := Pow(B, n - 1);
    assert Pow(B, n + 1) == B * Pow(B, n) == B * (B * Q);
    if P <= Q {
      MulMono(A, Q, B);
      MulMono(1, B, Q);
      MulMono(2, B, B * Q);
    }
  }

  /**
   * mul_mont_n. The result is reduced; it is a*b/B^n exactly when no row overflows, which a caller
   * can tell from the operands (see FitsWhenSmall and ReducedFits for bounds that suffice).
   */
  method MulMont(B: nat, ret: array<nat>, a: array<nat>, b: array<nat>, p: array<nat>, n0: nat)
    requires IsModulus(B, p[..], n0) && ret.Length == a.Length == b.Length == p.Length && ret != p
    requires IsLimbs(B, a[..]) && IsLimbs(B, b[..])
    requires var n := p.Length; Val(B, a[..], n) * Val(B, b[..], n) <= Val(B, p[..], n) * Pow(B, n)
    modifies ret
    ensures IsLimbs(B, ret[..]) && Val(B, ret[..], p.Length) < Val(B, p[..], p.Length)
    ensures var n, A, P := p.Length, old(Val(B, a[..], p.Length)), Val(B, p[..], p.Length);
            var right := Cong(Val(B, ret[..], n) * Pow(B, n), A * old(Val(B, b[..], n)), P);
            && (!Overflows(B, A, old(b[..]), P, n0) ==> right)
            && (A <= P ==> (right <==> !Overflows(B, A, old(b[..]), P, n0)))
  {
    var n := p.Length;
    var tmp := new nat[n + 1](_ => 0);
    ghost var A, P, bs := Val(B, a[..], n), Val(B, p[..], n), b[..];
    var hi := MulRow(B, tmp, a, b[0]);
    ghost var t0 := tmp[..];
    tmp[n] := hi;
    ValFrame(B, t0, tmp[..], n);
    var carry;
    ghost var M, S;
    carry, M, S := MontRows(B, tmp, a, b, p, n0);
    AccruedFinal(B, Val(B, tmp[..], n) + carry * Pow(B, n), n, M, Loss(B, n, S), A, Val(B, bs, n), P);
    FinalSubtract(B, ret, tmp, p, carry, A * Val(B, bs, n) - Loss(B, n, S));
    RightOrNot(B, n, S, A, bs, p[..], n0, Val(B, ret[..], n) * Pow(B, n), A * Val(B, bs, n));
  }

  lemma {:induction false} AccruedFinal(B: nat, T: nat, n: nat, M: nat, E: nat, A: nat, b: nat, P: nat)
    requires B > 0 && P > 0 && Accrued(B, T, n, M, E, A, b, P) && A * b <= P * Pow(B, n)
    ensures T < 2 * P && Cong(T * Pow(B, n), A * b - E, P)
  {
    var Q := Pow(B, n);
    MulStrict(M, Q, P);
    Associate(2, P, Q);
    PowPositive(B, n);
    MulCancel(T, 2 * P, Q);
    CongIntro(T * Q, A * b - E, P, M);
  }

  lemma {:induction false} RightOrNot(
      B: nat, n: nat, S: nat, A: nat, b: seq<nat>, p: seq<nat>, n0: nat, r: int, ab: int)
    requires IsModulus(B, p, n0) && n == |p| == |b| && Cong(r, ab - Loss(B, n, S), Val(B, p, n))
    requires Track(B, n, S, n - 1, A, Val(B, p, n), Overflows(B, A, b, Val(B, p, n), n0))
    ensures var over, right := Overflows(B, A, b, Val(B, p, n), n0), Cong(r, ab, Val(B, p, n));
            (!over ==> right) && (A <= Val(B, p, n) ==> (right <==> !over))
  {
    var P, E := Val(B, p, n), Loss(B, n, S);
    if S == 0 {
      assert E == 0;
    } else if A <= P {
      LossShows(B, n, S, A, p, n0);
      if Cong(r, ab, P) {
        CongSym(r, ab - E, P);
        CongTrans(ab - E, r, ab, P);
        CongSym(ab - E, ab, P);
        CongSub(ab, ab - E, ab - E, ab - E, P);
      }
    }
  }

  // ---- a modulus on which it fails ----

  /** A number whose limbs are all ones but the lowest: B^n - B + x. */
  ghost predicate Ones(B: nat, s: seq<nat>, x: nat) {
    B > 0 && |s| > 0 && s[0] == x && forall i :: 1 <= i < |s| ==> s[i] == B - 1
  }

  lemma {:induction false} OnesVal(B: nat, s: seq<nat>, x: nat, n: nat)
    requires Ones(B, s, x) && 0 < n <= |s|
    ensures Val(B, s, n) + B == Pow(B, n) + x
  {
    if n == 1 {
      assert Pow(B, 0) == 1 && Val(B, s, 0) == 0;
      assert Pow(B, 1) == B;
    } else {
      OnesVal(B, s, x, n - 1);
      DistributeSub(B, 1, Pow(B, n - 1));
    }
  }

  /** Modulus B^n - 1, operands B^n - 3 and B^n - 2: the second row needs more than n + 1 limbs. */
  lemma {:induction false} AllOnesOverflow(B: nat, b: seq<nat>)
    requires B >= 8 && |b| >= 2 && Ones(B, b, B - 2)
    ensures Pow(B, |b|) > 3 && Overflows(B, Pow(B, |b|) - 3, b, Pow(B, |b|) - 1, 1)
  {
    var n := |b|;
    var Q, Q' := Pow(B, n - 1), Pow(B, n - 2);
    PowPositive(B, n - 2);
    MulMono(1, Q', B);
    MulMono(B, Q, B);
    MulMono(8, B, B);
    var R := B * Q;
    assert Pow(B, n) == R && Pow(B, n + 1) == B * R;
    FirstPartial(B, Q);
    SecondSum(B, Q);
    assert Partial(B, R - 3, b, R - 1, 1, 0) == 0;
    assert RowSum(B, R - 3, b, R - 1, 1, 0) == (B - 2) * (R - 3);
    assert Partial(B, R - 3, b, R - 1, 1, 1) == (B - 2) * Q - 3 + 6 * Q;
    assert RowSum(B, R - 3, b, R - 1, 1, 1) == (B - 2) * Q - 3 + 6 * Q + (B - 1) * (R - 3);
  }

  lemma FirstPartial(B: nat, Q: nat)
    requires B >= 8 && Q >= B && B * Q >= 8
    ensures (B - 2) * (B * Q - 3) >= 0 && (B - 2) * Q - 3 + 6 * Q >= 0
    ensures Reduced(B, (B - 2) * (B * Q - 3), B * Q - 1, 1) == (B - 2) * Q - 3 + 6 * Q
  {
    var x, y := (B - 2) * (B * Q - 3), (B - 2) * Q - 3;
    MulMono(0, B - 2, B * Q - 3);
    MulMono(6, B - 2, Q);
    DistributeSub(B * Q, 3, B - 2);
    Associate(B - 2, B, Q);
    Associate(B, B - 2, Q);
    DistributeSub((B - 2) * Q, 3, B);
    assert x == y * B + 6;
    QuotRem(x, B, y, 6);
    QuotRem(6, B, 0, 6);
    Associate(6, B, Q);
    Distribute(y, 6 * Q, B);
    QuotRem(x + 6 * (B * Q - 1), B, y + 6 * Q, 0);
  }

  lemma SecondSum(B: nat, Q: nat)
    requires B >= 8 && Q >= B
    ensures (B - 2) * Q - 3 + 6 * Q + (B - 1) * (B * Q - 3) >= B * (B * Q)
  {
    DistributeSub(B, 2, Q);
    DistributeSub(B * Q, 3, B - 1);
    DistributeSub(B, 1, B * Q);
  }

  /** For every limb width from three bits on and every length from two: a wrong product of reduced operands. */
  method AllOnesModulus(
      w: nat, B: nat, n: nat) returns (ret: array<nat>, ghost p: seq<nat>, ghost a: seq<nat>, ghost b: seq<nat>)
    requires w >= 3 && B == Pow(2, w) && n >= 2
    ensures B > 3 && Ones(B, p, B - 1) && Ones(B, a, B - 3) && Ones(B, b, B - 2) && |p| == |a| == |b| == n == ret.Length
    ensures IsModulus(B, p, 1) && Val(B, p, n) == Pow(B, n) - 1
    ensures Val(B, a, n) < Val(B, p, n) && Val(B, b, n) < Val(B, p, n)
    ensures !Cong(Val(B, ret[..], n) * Pow(B, n), Val(B, a, n) * Val(B, b, n), Val(B, p, n))
  {
    WordBase(w, B);
    var pa := new nat[n](_ => B - 1);
    var aa := new nat[n](i => if i == 0 then B - 3 else B - 1);
    var ba := new nat[n](i => if i == 0 then B - 2 else B - 1);
    p, a, b := pa[..], aa[..], ba[..];
    AllOnesOperands(B, p, a, b);
    AllOnesOverflow(B, b);
    ret := new nat[n](_ => 0);
    MulMont(B, ret, aa, ba, pa, 1);
  }

  lemma {:induction false} AllOnesOperands(B: nat, p: seq<nat>, a: seq<nat>, b: seq<nat>)
    requires B >= 8 && B % 2 == 0 && |p| == |a| == |b| >= 2
    requires Ones(B, p, B - 1) && Ones(B, a, B - 3) && Ones(B, b, B - 2)
    ensures IsModulus(B, p, 1) && IsLimbs(B, a) && IsLimbs(B, b)
    ensures var n := |p|;
            && Val(B, p, n) == Pow(B, n) - 1 && Val(B, a, n) == Pow(B, n) - 3 && Val(B, b, n) == Pow(B, n) - 2
            && Val(B, a, n) * Val(B, b, n) <= Val(B, p, n) * Pow(B, n)
  {
    var n := |p|;
    OnesVal(B, p, B - 1, n);
    OnesVal(B, a, B - 3, n);
    OnesVal(B, b, B - 2, n);
    PowPositive(B, n - 1);
    MulMono(1, Pow(B, n - 1), B);
    QuotRem(B, B, 1, 0);
    MulMono(Val(B, a, n), Val(B, p, n), Val(B, b, n));
    MulMono(Val(B, b, n), Pow(B, n), Val(B, p, n));
  }
}
