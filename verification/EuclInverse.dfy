/** Modular inversion by binary Euclid (external/blst/no_asm.h:120-139, 365-484). */
module EuclInverse {
  import opened Limbs
  import opened LimbRows
  import opened Congruence

  /** Limbs of w bits and an odd modulus. */
  ghost predicate IsOddModulus(w: nat, B: nat, p: seq<nat>) {
    w >= 2 && B == Pow(2, w) && |p| > 0 && IsLimbs(B, p) && Val(B, p, |p|) % 2 == 1
  }

  /** a - b mod p for reduced a and b; |ret| may be an operand. */
  method SubMod(B: nat, ret: array<nat>, a: array<nat>, b: array<nat>, p: array<nat>)
    requires B > 1 && B % 2 == 0 && ret.Length == a.Length == b.Length == p.Length && ret != p
    requires IsLimbs(B, a[..]) && IsLimbs(B, b[..]) && IsLimbs(B, p[..])
    requires var n := p.Length; Val(B, a[..], n) < Val(B, p[..], n) && Val(B, b[..], n) < Val(B, p[..], n)
    modifies ret
    ensures IsLimbs(B, ret[..]) && Val(B, ret[..], p.Length) < Val(B, p[..], p.Length)
    ensures var n := p.Length;
            var d := old(Val(B, a[..], n)) - old(Val(B, b[..], n));
            Val(B, ret[..], n) == if d >= 0 then d else d + Val(B, p[..], n)
  {
    var n := p.Length;
    ghost var A, b0, P := Val(B, a[..], n), Val(B, b[..], n), Val(B, p[..], n);
    var borrow := SubN(B, ret, a, b);
    ValBound(B, ret[..], n);
    ghost var D := Val(B, ret[..], n);
    var mask := if borrow == 0 then 0 else B - 1;
    ValBound(B, p[..], n);
    var carry := AddMaskedN(B, ret, ret, p, mask);
    ValBound(B, ret[..], n);
    WrapBack(A, b0, P, D, borrow, Val(B, ret[..], n), carry, Pow(B, n));
  }

  lemma WrapBack(a: nat, b: nat, P: nat, D: nat, borrow: nat, V: nat, carry: nat, R: nat)
    requires a < P && b < P && P < R && D < R && V < R && borrow <= 1 && carry <= 1
    requires D + b == a + borrow * R && V + carry * R == D + (if borrow == 0 then 0 else P)
    ensures V == if a >= b then a - b else a - b + P
  {
  }

  /** u = u >> count, the bits that enter at the top being |top|; C is 2^count and C*D is B. */
  method ShiftRight(B: nat, C: nat, D: nat, u: array<nat>, top: nat)
    requires C > 0 && D > 0 && B == C * D && u.Length > 0 && IsLimbs(B, u[..]) && top < C
    modifies u
    ensures IsLimbs(B, u[..])
    ensures var n := u.Length;
            C * Val(B, u[..], n) + old(u[0] % C) == old(Val(B, u[..], n)) + top * Pow(B, n)
  {
    var n := u.Length;
    ghost var u0 := u[..];
    var next := u[0];
    assert Val(B, u0, 0) == 0 && Pow(B, 0) == 1;
    for i := 0 to n - 1
      invariant next == u0[i] && IsLimbs(B, u[..])
      invariant forall k :: i <= k < n ==> u[k] == u0[k]
      invariant C * Val(B, u[..], i) + u0[0] % C == Val(B, u0, i) + u0[i] % C * Pow(B, i)
    {
      ghost var was := u[..];
      var limb := next / C;
      next := u[i + 1];
      ShiftLimb(B, C, D, u0[i], next % C, Pow(B, i), Val(B, u[..], i));
      u[i] := limb + next % C * D;
      ValFrame(B, was, u[..], i);
    }
    ghost var was := u[..];
    ShiftLimb(B, C, D, next, top, Pow(B, n - 1), Val(B, u[..], n - 1));
    u[n - 1] := next / C + top * D;
    ValFrame(B, was, u[..], n - 1);
  }

  lemma {:induction false} ShiftLimb(B: nat, C: nat, D: nat, x: nat, y: nat, P: nat, V: nat)
    requires C > 0 && D > 0 && B == C * D && x < B && y < C
    ensures 0 <= x / C && 0 <= y * D && x / C + y * D < B
    ensures C * (V + (x / C + y * D) * P) + x % C * P == C * V + x * P + y * (B * P)
  {
    HiLo(C, x);
    ShiftLimbRange(C, D, x / C, y);
    ShiftLimbVal(C, D, x / C, x % C, y, P, V);
  }

  lemma ShiftLimbRange(C: nat, D: nat, q: nat, y: nat)
    requires q * C < C * D && y < C
    ensures 0 <= y * D && q + y * D < C * D
  {
    MulCancel(q, D, C);
    MulMono(y, C - 1, D);
    DistributeSub(C, 1, D);
  }

  lemma ShiftLimbVal(C: int, D: int, q: int, r: int, y: int, P: int, V: int)
    ensures C * (V + (q + y * D) * P) + r * P == C * V + (r + q * C) * P + y * (C * D * P)
  {
    calc {
      C * (V + (q + y * D) * P);
      == { Distribute(V, (q + y * D) * P, C); }
      C * V + C * ((q + y * D) * P);
      == { Associate(C, q + y * D, P); Distribute(q, y * D, C); }
      C * V + (C * q + C * (y * D)) * P;
      == { Distribute(C * q, C * (y * D), P); }
      C * V + C * q * P + C * (y * D) * P;
      == { Associate(C, y, D); Associate(y, C, D); Associate(y, C * D, P); }
      C * V + C * q * P + y * (C * D * P);
    }
    Distribute(r, q * C, P);
  }

  /** One halving modulo p: 2*ret == a, or a + p if a is odd. */
  method HalveMod(w: nat, B: nat, ret: array<nat>, a: array<nat>, p: array<nat>)
    requires IsOddModulus(w, B, p[..]) && ret.Length == a.Length == p.Length && ret != p && IsLimbs(B, a[..])
    modifies ret
    ensures IsLimbs(B, ret[..])
    ensures var n := p.Length;
            2 * Val(B, ret[..], n) == old(Val(B, a[..], n)) + (if old(a[0]) % 2 == 1 then Val(B, p[..], n) else 0)
  {
    WordBase(w, B);
    var n := p.Length;
    ghost var A, P := Val(B, a[..], n), Val(B, p[..], n);
    ParityOfVal(B, a[..], n);
    var odd := a[0] % 2;
    var mask := if odd == 0 then 0 else B - 1;
    var carry := AddMaskedN(B, ret, a, p, mask);
    EvenResult(B, ret[..], carry, A + (if odd == 1 then P else 0));
    ShiftRight(B, 2, B / 2, ret, carry);
  }

  lemma {:induction false} EvenResult(B: nat, r: seq<nat>, carry: nat, sum: nat)
    requires B > 1 && B % 2 == 0 && |r| > 0 && Val(B, r, |r|) + carry * Pow(B, |r|) == sum && sum % 2 == 0
    ensures r[0] % 2 == 0
  {
    EvenPower(B, |r|);
    ParityOfVal(B, r, |r|);
    EvenSum(Val(B, r, |r|), carry, Pow(B, |r|));
  }

  lemma {:induction false} EvenPower(B: nat, n: nat)
    requires B % 2 == 0 && n > 0
    ensures Pow(B, n) % 2 == 0
  {
    var b, Q := B / 2, Pow(B, n - 1);
    Associate(2, b, Q);
  }

  lemma EvenSum(V: nat, c: nat, R: nat)
    requires R % 2 == 0 && (V + c * R) % 2 == 0
    ensures V % 2 == 0
  {
    Associate(c, R / 2, 2);
    assert c * R == 2 * (c * (R / 2));
  }

  /** The lowest limb decides the parity. */
  lemma {:induction false} ParityOfVal(B: nat, s: seq<nat>, n: nat)
    requires B % 2 == 0 && 0 < n <= |s|
    ensures Val(B, s, n) % 2 == s[0] % 2
  {
    ValTail(B, s, n - 1);
    EvenPlus(s[0], B, Val(B, s[1..], n - 1));
  }

  lemma EvenPlus(x: int, b: int, t: int)
    requires b % 2 == 0
    ensures (x + b * t) % 2 == x % 2
  {
    var h := b / 2;
    assert b == 2 * h;
    Associate(2, h, t);
  }

  /** |count| halvings modulo p; |ret| may be |a|. */
  method RshiftMod(w: nat, B: nat, ret: array<nat>, a: array<nat>, count: nat, p: array<nat>)
    requires IsOddModulus(w, B, p[..]) && ret.Length == a.Length == p.Length && ret != p && IsLimbs(B, a[..])
    requires count >= 1 && Val(B, a[..], p.Length) < Val(B, p[..], p.Length)
    modifies ret
    ensures IsLimbs(B, ret[..]) && Val(B, ret[..], p.Length) < Val(B, p[..], p.Length)
    ensures var n := p.Length;
            Cong(Val(B, ret[..], n) * Pow(2, count), old(Val(B, a[..], n)), Val(B, p[..], n))
  {
    var n := p.Length;
    ghost var A, P := Val(B, a[..], n), Val(B, p[..], n);
    var src := a;
    CongIntro(A * 1, A, P, 0);
    for k := 0 to count
      invariant (src == a || src == ret) && (k > 0 ==> src == ret) && IsLimbs(B, src[..])
      invariant Val(B, src[..], n) < P && Cong(Val(B, src[..], n) * Pow(2, k), A, P)
    {
      ghost var x := Val(B, src[..], n);
      ghost var odd := src[0] % 2;
      HalveMod(w, B, ret, src, p);
      src := ret;
      HalveStep(Val(B, ret[..], n), x, odd, P, Pow(2, k), A);
    }
  }

  lemma HalveStep(y: int, x: int, odd: int, P: int, Q: int, A: int)
    requires P > 0 && 2 * y == x + (if odd == 1 then P else 0) && Cong(x * Q, A, P)
    ensures Cong(y * (2 * Q), A, P)
  {
    Associate(y, 2, Q);
    if odd == 1 {
      Distribute(x, P, Q);
      CongIntro(x * Q + P * Q, x * Q, P, Q);
      CongTrans(y * (2 * Q), x * Q, A, P);
    }
  }

  /** The number of halvings for one pass: trailing zero bits of the limb, at most w-1. */
  method TrailingBits(w: nat, B: nat, limb: nat) returns (count: nat)
    requires w >= 2 && B == Pow(2, w) && limb < B && limb % 2 == 0
    ensures 1 <= count <= w - 1 && Pow(2, count) > 0 && limb % Pow(2, count) == 0
  {
    var next := limb / 2;
    count := 1;
    assert Pow(2, 1) == 2;
    while count < w - 1 && next % 2 == 0
      invariant 1 <= count <= w - 1 && limb == next * Pow(2, count)
    {
      Associate(next / 2, 2, Pow(2, count));
      count, next := count + 1, next / 2;
    }
    PowPositive(2, count);
    QuotRem(limb, Pow(2, count), next, 0);
  }

  /** u is made odd, and x halved modulo p as often as u: what they have in common is kept. */
  method RemovePowersOf2(w: nat, B: nat, u: array<nat>, x: array<nat>, p: array<nat>) returns (ghost e: nat)
    requires IsOddModulus(w, B, p[..]) && u.Length == x.Length == p.Length && u != x && u != p && x != p
    requires IsLimbs(B, u[..]) && IsLimbs(B, x[..])
    requires Val(B, u[..], p.Length) > 0 && Val(B, x[..], p.Length) < Val(B, p[..], p.Length)
    modifies u, x
    ensures IsLimbs(B, u[..]) && IsLimbs(B, x[..])
    ensures Val(B, u[..], p.Length) % 2 == 1 && Val(B, x[..], p.Length) < Val(B, p[..], p.Length)
    ensures Val(B, u[..], p.Length) * Pow(2, e) == old(Val(B, u[..], p.Length))
    ensures Cong(Val(B, x[..], p.Length) * Pow(2, e), old(Val(B, x[..], p.Length)), Val(B, p[..], p.Length))
  {
    var n := p.Length;
    ghost var U, X, P := Val(B, u[..], n), Val(B, x[..], n), Val(B, p[..], n);
    e := 0;
    WordBase(w, B);
    CongIntro(X * 1, X, P, 0);
    while u[0] % 2 == 0
      invariant IsLimbs(B, u[..]) && IsLimbs(B, x[..])
      invariant 0 < Val(B, u[..], n) && Val(B, x[..], n) < P
      invariant Val(B, u[..], n) * Pow(2, e) == U && Cong(Val(B, x[..], n) * Pow(2, e), X, P)
      decreases Val(B, u[..], n)
    {
      var count := TrailingBits(w, B, u[0]);
      PowAdds(2, count, w - count);
      PowPositive(2, count);
      PowPositive(2, w - count);
      ghost var u1, x1 := Val(B, u[..], n), Val(B, x[..], n);
      ShiftRight(B, Pow(2, count), Pow(2, w - count), u, 0);
      RshiftMod(w, B, x, x, count, p);
      RemoveStep(Val(B, u[..], n), u1, Val(B, x[..], n), x1, count, e, U, X, P);
      e := e + count;
    }
    ParityOfVal(B, u[..], n);
  }

  lemma {:induction false} RemoveStep(u: nat, u1: nat, x: nat, x1: nat, count: nat, e: nat, U: nat, X: nat, P: nat)
    requires P > 0 && count >= 1 && u1 > 0 && Pow(2, count) * u == u1 && Cong(x * Pow(2, count), x1, P)
    requires u1 * Pow(2, e) == U && Cong(x1 * Pow(2, e), X, P)
    ensures 0 < u < u1 && u * Pow(2, e + count) == U && Cong(x * Pow(2, e + count), X, P)
  {
    var C, E := Pow(2, count), Pow(2, e);
    PowAdds(2, count, e);
    assert Pow(2, e + count) == C * E;
    Associate(u, C, E);
    Associate(x, C, E);
    CongScale(x * C, x1, E, P);
    CongTrans(x * C * E, x1 * E, X, P);
    Shrinks(u, u1, count);
  }

  lemma {:induction false} Shrinks(u: nat, u1: nat, count: nat)
    requires count >= 1 && u1 > 0 && Pow(2, count) * u == u1
    ensures 0 < u < u1
  {
    PowPositive(2, count - 1);
    MulMono(2, Pow(2, count), u);
  }

  // ---- common divisors ----

  ghost predicate Divides(d: int, x: int) {
    d > 0 && x % d == 0
  }

  ghost predicate Common(d: int, x: int, y: int) {
    Divides(d, x) && Divides(d, y)
  }

  /** The same common divisors, hence the same greatest one. */
  ghost predicate SameCommon(x: int, y: int, x': int, y': int) {
    forall d: int :: Common(d, x, y) <==> Common(d, x', y')
  }

  ghost predicate Coprime(x: int, y: int) {
    forall d: int :: Common(d, x, y) ==> d == 1
  }

  /** g is a common divisor that every other one divides. */
  ghost predicate IsGcd(g: int, x: int, y: int) {
    Common(g, x, y) && forall d: int :: Common(d, x, y) ==> Divides(d, g)
  }

  lemma DividesMul(d: int, x: int, k: int)
    requires Divides(d, x)
    ensures Divides(d, k * x)
  {
    Associate(k, x / d, d);
    QuotRem(k * x, d, k * (x / d), 0);
  }

  lemma DividesDiff(d: int, x: int, y: int)
    requires Divides(d, x) && Divides(d, y)
    ensures Divides(d, x - y) && Divides(d, x + y)
  {
    DistributeSub(x / d, y / d, d);
    QuotRem(x - y, d, x / d - y / d, 0);
    Distribute(x / d, y / d, d);
    QuotRem(x + y, d, x / d + y / d, 0);
  }

  /** An odd divisor of 2*x divides x. */
  lemma OddDivides(d: int, x: int)
    requires d % 2 == 1 && Divides(d, 2 * x)
    ensures Divides(d, x)
  {
    var h := (d + 1) / 2;
    DividesMul(d, 2 * x, h);
    Associate(h, 2, x);
    assert h * 2 == d + 1;
    Distribute(d, 1, x);
    QuotRem(d * x, d, x, 0);
    DividesDiff(d, h * (2 * x), d * x);
  }

  lemma OddDivisor(d: int, v: int)
    requires Divides(d, v) && v % 2 == 1
    ensures d % 2 == 1
  {
    if d % 2 == 0 {
      assert v == v / d * d && d == d / 2 * 2;
      EvenProduct(v / d, d / 2);
    }
  }

  lemma EvenProduct(q: int, h: int)
    ensures q * (h * 2) % 2 == 0
  {
    Associate(q, h, 2);
    QuotRem(q * h * 2, 2, q * h, 0);
  }

  lemma {:induction false} OddDividesPow(d: int, x: int, e: nat)
    requires d % 2 == 1 && Divides(d, x * Pow(2, e))
    ensures Divides(d, x)
  {
    if e > 0 {
      Associate(x, 2, Pow(2, e - 1));
      Associate(2, x, Pow(2, e - 1));
      OddDivides(d, x * Pow(2, e - 1));
      OddDividesPow(d, x, e - 1);
    }
  }

  lemma {:induction false} SameAfterHalving(u: int, v: int, e: nat)
    requires v % 2 == 1
    ensures SameCommon(u * Pow(2, e), v, u, v)
  {
    forall d: int
      ensures Common(d, u * Pow(2, e), v) <==> Common(d, u, v)
    {
      if Common(d, u, v) {
        DividesMul(d, u, Pow(2, e));
      }
      if Common(d, u * Pow(2, e), v) {
        OddDivisor(d, v);
        OddDividesPow(d, u, e);
      }
    }
  }

  lemma SameAfterSubtract(u: int, v: int)
    ensures SameCommon(u, v, u - v, v)
  {
    forall d: int
      ensures Common(d, u, v) <==> Common(d, u - v, v)
    {
      if Common(d, u, v) {
        DividesDiff(d, u, v);
      }
      if Common(d, u - v, v) {
        DividesDiff(d, u - v, v);
      }
    }
  }

  lemma GcdAtEnd(v: int, a: int, p: int)
    requires v > 0 && SameCommon(a, p, 0, v)
    ensures IsGcd(v, a, p)
  {
    QuotRem(v, v, 1, 0);
    QuotRem(0, v, 0, 0);
    assert Common(v, 0, v);
  }

  // ---- the invariant x*a = u*one ----

  lemma {:induction false} Pow2Inverse(e: nat, P: int) returns (inv: int)
    requires P > 0 && P % 2 == 1
    ensures Cong(Pow(2, e) * inv, 1, P)
  {
    if e == 0 {
      inv := 1;
      CongIntro(1, 1, P, 0);
    } else {
      var r := Pow2Inverse(e - 1, P);
      var h := (P + 1) / 2;
      inv := h * r;
      CongIntro(2 * h, 1, P, 1);
      CongMul(2 * h, 1, Pow(2, e - 1) * r, 1, P);
      var Q := Pow(2, e - 1);
      Associate(2 * h, Q, r);
      Associate(2, h, Q);
      Associate(2, Q, h);
      Associate(2 * Q, h, r);
    }
  }

  lemma {:induction false} HalvedInvariant(x: int, x0: int, u: int, u0: int, e: nat, a: int, one: int, P: int)
    requires P > 0 && P % 2 == 1 && Cong(x0 * a, u0 * one, P)
    requires Cong(x * Pow(2, e), x0, P) && u * Pow(2, e) == u0
    ensures Cong(x * a, u * one, P)
  {
    var E := Pow(2, e);
    var inv := Pow2Inverse(e, P);
    CongScale(x * E, x0, a, P);
    CongTrans(x * E * a, x0 * a, u0 * one, P);
    assert x * E * a == x * a * E by { Associate(x, E, a); Associate(x, a, E); }
    assert u0 * one == u * one * E by { Associate(u, E, one); Associate(u, one, E); }
    CongCancel(x * a, u * one, E, inv, P);
  }

  lemma SubtractedInvariant(x: int, y: int, x': int, u: int, v: int, a: int, one: int, P: int)
    requires P > 0 && Cong(x * a, u * one, P) && Cong(y * a, v * one, P)
    requires x' == if x >= y then x - y else x - y + P
    ensures Cong(x' * a, (u - v) * one, P)
  {
    CongSub(x * a, u * one, y * a, v * one, P);
    DistributeSub(x, y, a);
    DistributeSub(u, v, one);
    Distribute(x - y, P, a);
    CongIntro((x - y) * a + P * a, (x - y) * a, P, a);
    CongTrans((x - y + P) * a, (x - y) * a, (u - v) * one, P);
  }

  // ---- the loop ----

  /** What every turn keeps: x*a = u*one, y*a = v*one, and the common divisors of u and v. */
  ghost predicate Inv(U: nat, V: nat, x: nat, y: nat, A: nat, one: nat, P: nat) {
    && P > 0 && U > 0 && V % 2 == 1 && x < P && y < P
    && Cong(x * A, U * one, P) && Cong(y * A, V * one, P)
    && SameCommon(A, P, U, V)
  }

  lemma Start(A: nat, one: nat, P: nat)
    requires A > 0 && P % 2 == 1 && one < P
    ensures Inv(A, P, one, 0, A, one, P)
  {
    CongIntro(one * A, A * one, P, 0);
    DistributeSub(0, one, P);
    var k: int := one;
    CongIntro(0 * A, P * one, P, -k);
  }

  lemma {:induction false} AfterHalving(
      U: nat, U0: nat, V: nat, x: nat, x0: nat, y: nat, e: nat, A: nat, one: nat, P: nat)
    requires Inv(U0, V, x0, y, A, one, P) && P % 2 == 1 && U % 2 == 1 && x < P
    requires U * Pow(2, e) == U0 && Cong(x * Pow(2, e), x0, P)
    ensures Inv(U, V, x, y, A, one, P) && U <= U0
  {
    HalvedInvariant(x, x0, U, U0, e, A, one, P);
    SameAfterHalving(U, V, e);
    PowPositive(2, e);
    MulMono(1, Pow(2, e), U);
  }

  lemma AfterSwap(U: nat, V: nat, x: nat, y: nat, A: nat, one: nat, P: nat)
    requires Inv(U, V, x, y, A, one, P) && U % 2 == 1
    ensures Inv(V, U, y, x, A, one, P)
  {
    forall d: int ensures Common(d, U, V) <==> Common(d, V, U) {}
  }

  lemma AfterSubtract(U: nat, V: nat, x: nat, y: nat, x': nat, A: nat, one: nat, P: nat)
    requires Inv(U, V, x, y, A, one, P) && V <= U && x' < P
    requires x' == if x >= y then x - y else x - y + P
    ensures U > V ==> Inv(U - V, V, x', y, A, one, P)
    ensures U == V ==> IsGcd(V, A, P)
  {
    SubtractedInvariant(x, y, x', U, V, A, one, P);
    SameAfterSubtract(U, V);
    if U == V {
      GcdAtEnd(V, A, P);
    }
  }

  /** vec_is_zero */
  method IsZero(B: nat, u: array<nat>) returns (zero: bool)
    requires B > 0
    ensures zero <==> Val(B, u[..], u.Length) == 0
  {
    zero := true;
    for i := 0 to u.Length
      invariant zero <==> Val(B, u[..], i) == 0
    {
      PowPositive(B, i);
      if u[i] != 0 {
        MulMono(1, u[i], Pow(B, i));
        zero := false;
      }
    }
  }

  /**
   * eucl_inverse_mod_n for every nonzero a: out*a = gcd(a, p)*one modulo p. In particular out is
   * one/a when a and p are coprime. Without |one| the inverse itself is computed.
   */
  method Inverse(
      w: nat, B: nat, out: array<nat>, a: array<nat>, p: array<nat>, one: array?<nat>)
      returns (ret: bool, ghost g: nat)
    requires IsOddModulus(w, B, p[..]) && out.Length == a.Length == p.Length && out != p
    requires IsLimbs(B, a[..]) && Val(B, a[..], p.Length) > 0
    requires one != null ==>
        one.Length == p.Length && IsLimbs(B, one[..]) && Val(B, one[..], p.Length) < Val(B, p[..], p.Length)
    requires one == null ==> Val(B, p[..], p.Length) > 1
    modifies out
    ensures ret && IsLimbs(B, out[..]) && Val(B, out[..], p.Length) < Val(B, p[..], p.Length)
    ensures IsGcd(g, old(Val(B, a[..], p.Length)), Val(B, p[..], p.Length))
    ensures Cong(Val(B, out[..], p.Length) * old(Val(B, a[..], p.Length)),
                 g * (if one == null then 1 else old(Val(B, one[..], p.Length))), Val(B, p[..], p.Length))
    ensures Coprime(old(Val(B, a[..], p.Length)), Val(B, p[..], p.Length)) ==>
            Cong(Val(B, out[..], p.Length) * old(Val(B, a[..], p.Length)),
                 if one == null then 1 else old(Val(B, one[..], p.Length)), Val(B, p[..], p.Length))
  {
    WordBase(w, B);
    var n := p.Length;
    ghost var A, P := Val(B, a[..], n), Val(B, p[..], n);
    var u, x := new nat[n](_ => 0), new nat[n](_ => 0);
    var v, y := new nat[n](_ => 0), new nat[n](_ => 0);
    CopyN(B, u, a);
    SetOne(B, x, one);
    ghost var One := Val(B, x[..], n);
    CopyN(B, v, p);
    ValZero(B, y[..], n);
    assert a[..n] == a[..] && p[..n] == p[..];
    Start(A, One, P);
    var y', v';
    y', v' := Loop(w, B, u, x, v, y, p, A, One);
    g := Val(B, v'[..], n);
    CopyN(B, out, y');
    if Coprime(A, P) {
      CoprimeInverse(Val(B, out[..], n), A, One, g, P);
    }
    ret := true;
  }

  /** x = one, or the number 1 where none is given */
  method SetOne(B: nat, x: array<nat>, one: array?<nat>)
    requires B > 1 && x.Length > 0 && (forall k :: 0 <= k < x.Length ==> x[k] == 0)
    requires one != null ==> one != x && one.Length == x.Length && IsLimbs(B, one[..])
    modifies x
    ensures IsLimbs(B, x[..]) && Val(B, x[..], x.Length) == if one == null then 1 else Val(B, one[..], x.Length)
  {
    if one != null {
      CopyN(B, x, one);
      assert one[..x.Length] == one[..];
    } else {
      ValZero(B, x[..], x.Length);
      ghost var x0 := x[..];
      x[0] := 1;
      ValOne(B, x0, x[..], x.Length);
    }
  }

  lemma {:induction false} ValZero(B: nat, s: seq<nat>, n: nat)
    requires n <= |s| && forall i :: 0 <= i < n ==> s[i] == 0
    ensures Val(B, s, n) == 0
  {
    if n > 0 {
      ValZero(B, s, n - 1);
    }
  }

  lemma {:induction false} ValOne(B: nat, s: seq<nat>, t: seq<nat>, n: nat)
    requires 0 < n <= |s| && t == s[0 := 1] && s[0] == 0 && Val(B, s, n) == 0
    ensures Val(B, t, n) == 1
  {
    ValTail(B, s, n - 1);
    ValTail(B, t, n - 1);
    assert s[1..] == t[1..];
  }

  /** The invariant, of the numbers in four distinct arrays. */
  ghost predicate State(
      B: nat, u: array<nat>, x: array<nat>, v: array<nat>, y: array<nat>, p: array<nat>, A: nat, One: nat)
    reads u, x, v, y, p
  {
    && Separate(B, u, x, v, y, p)
    && var n := p.Length; Inv(Val(B, u[..], n), Val(B, v[..], n), Val(B, x[..], n), Val(B, y[..], n), A, One,
      Val(B, p[..], n))
  }

  ghost predicate Separate(B: nat, u: array<nat>, x: array<nat>, v: array<nat>, y: array<nat>, p: array<nat>)
    reads u, x, v, y
  {
    && u.Length == x.Length == v.Length == y.Length == p.Length
    && u != x && u != v && u != y && x != v && x != y && v != y && p != u && p != x && p != v && p != y
    && IsLimbs(B, u[..]) && IsLimbs(B, x[..]) && IsLimbs(B, v[..]) && IsLimbs(B, y[..])
  }

  /** What the loop leaves behind: v is the greatest common divisor. */
  ghost predicate Finished(B: nat, v: array<nat>, y: array<nat>, p: array<nat>, A: nat, One: nat)
    reads v, y, p
  {
    && v.Length == y.Length == p.Length && IsLimbs(B, y[..]) && Val(B, p[..], p.Length) > 0
    && var n := p.Length;
       && Val(B, y[..], n) < Val(B, p[..], n) && IsGcd(Val(B, v[..], n), A, Val(B, p[..], n))
       && Cong(Val(B, y[..], n) * A, Val(B, v[..], n) * One, Val(B, p[..], n))
  }

  /** The first half of a turn: u becomes odd, and tells whether it is now smaller than v. */
  method MakeOdd(
      w: nat, B: nat, u: array<nat>, x: array<nat>, v: array<nat>, y: array<nat>, p: array<nat>, ghost A: nat,
      ghost One: nat)
      returns (borrow: nat)
    requires IsOddModulus(w, B, p[..]) && State(B, u, x, v, y, p, A, One)
    modifies u, x
    ensures State(B, u, x, v, y, p, A, One)
    ensures Val(B, u[..], p.Length) % 2 == 1 && Val(B, u[..], p.Length) <= old(Val(B, u[..], p.Length))
    ensures borrow == if Val(B, u[..], p.Length) < Val(B, v[..], p.Length) then 1 else 0
  {
    WordBase(w, B);
    ghost var n := p.Length;
    ghost var U, X := Val(B, u[..], n), Val(B, x[..], n);
    ghost var e := RemovePowersOf2(w, B, u, x, p);
    AfterHalving(Val(B, u[..], n), U, Val(B, v[..], n), Val(B, x[..], n), X, Val(B, y[..], n), e, A, One,
      Val(B, p[..], n));
    borrow := BorrowN(B, u, v);
  }

  /** The second half: u -= v and x -= y. */
  method Reduce(
      B: nat, u: array<nat>, x: array<nat>, v: array<nat>, y: array<nat>, p: array<nat>, ghost A: nat, ghost One: nat)
      returns (zero: bool)
    requires B > 1 && B % 2 == 0 && IsLimbs(B, p[..])
    requires State(B, u, x, v, y, p, A, One) && Val(B, v[..], p.Length) <= Val(B, u[..], p.Length)
    modifies u, x
    ensures Val(B, u[..], p.Length) < old(Val(B, u[..], p.Length))
    ensures if zero then Finished(B, v, y, p, A, One) else State(B, u, x, v, y, p, A, One)
  {
    ghost var n := p.Length;
    ghost var U, X := Val(B, u[..], n), Val(B, x[..], n);
    zero := SubtractStep(B, u, x, v, y, p);
    AfterSubtract(U, Val(B, v[..], n), X, Val(B, y[..], n), Val(B, x[..], n), A, One, Val(B, p[..], n));
  }

  /** The do-while loop; |u| with |x| and |v| with |y| change places when u < v. */
  method Loop(
      w: nat, B: nat, u0: array<nat>, x0: array<nat>, v0: array<nat>, y0: array<nat>, p: array<nat>, ghost A: nat,
      ghost One: nat)
      returns (y: array<nat>, v: array<nat>)
    requires IsOddModulus(w, B, p[..]) && State(B, u0, x0, v0, y0, p, A, One)
    modifies u0, x0, v0, y0
    ensures y in {x0, y0} && v in {u0, v0} && Finished(B, v, y, p, A, One)
  {
    WordBase(w, B);
    var u, x := u0, x0;
    v, y := v0, y0;
    while true
      invariant {u, v} == {u0, v0} && {x, y} == {x0, y0} && State(B, u, x, v, y, p, A, One)
      decreases Val(B, u[..], p.Length) + Val(B, v[..], p.Length)
    {
      var borrow := MakeOdd(w, B, u, x, v, y, p, A, One);
      if borrow != 0 {
        ghost var n := p.Length;
        AfterSwap(Val(B, u[..], n), Val(B, v[..], n), Val(B, x[..], n), Val(B, y[..], n), A, One, Val(B, p[..], n));
        u, v := v, u;
        x, y := y, x;
      }
      var zero := Reduce(B, u, x, v, y, p, A, One);
      if zero {
        return;
      }
    }
  }

  /** u -= v and x -= y mod p; tells whether u became zero. */
  method SubtractStep(
      B: nat, u: array<nat>, x: array<nat>, v: array<nat>, y: array<nat>, p: array<nat>) returns (zero: bool)
    requires B > 1 && B % 2 == 0 && u.Length == x.Length == v.Length == y.Length == p.Length
    requires u != x && u != v && u != y && x != v && x != y && p != u && p != x
    requires IsLimbs(B, u[..]) && IsLimbs(B, x[..]) && IsLimbs(B, v[..]) && IsLimbs(B, y[..]) && IsLimbs(B, p[..])
    requires var n := p.Length;
             && Val(B, v[..], n) <= Val(B, u[..], n)
             && Val(B, x[..], n) < Val(B, p[..], n) && Val(B, y[..], n) < Val(B, p[..], n)
    modifies u, x
    ensures IsLimbs(B, u[..]) && IsLimbs(B, x[..]) && Val(B, x[..], p.Length) < Val(B, p[..], p.Length)
    ensures var n := p.Length;
            && Val(B, u[..], n) == old(Val(B, u[..], n)) - Val(B, v[..], n)
            && (zero <==> Val(B, u[..], n) == 0)
            && var d := old(Val(B, x[..], n)) - Val(B, y[..], n);
               Val(B, x[..], n) == if d >= 0 then d else d + Val(B, p[..], n)
  {
    var n := p.Length;
    ValBound(B, u[..], n);
    var borrow := SubN(B, u, u, v);
    ValBound(B, u[..], n);
    zero := IsZero(B, u);
    SubMod(B, x, x, y, p);
  }

  /** For coprime a and p the greatest common divisor is 1, and the result is an inverse. */
  lemma CoprimeInverse(out: int, a: int, one: int, g: int, P: int)
    requires P > 0 && IsGcd(g, a, P) && Cong(out * a, g * one, P)
    requires Coprime(a, P)
    ensures Cong(out * a, one, P)
  {
    assert g == 1;
  }
}
