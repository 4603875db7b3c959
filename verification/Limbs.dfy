/**
 * Multi-limb integers as external/blst/no_asm.h keeps them: limbs in base B, the least
 * significant first, and double-limb intermediate values that wrap modulo B*B.
 */
module Limbs {
  function Pow(b: nat, n: nat): nat {
    if n == 0 then 1 else b * Pow(b, n - 1)
  }

  /** The integer spelled by the first |n| limbs. */
  ghost function Val(B: nat, s: seq<nat>, n: nat): nat
    requires n <= |s|
  {
    if n == 0 then 0 else Val(B, s, n - 1) + s[n - 1] * Pow(B, n - 1)
  }

  ghost predicate IsLimbs(B: nat, s: seq<nat>) {
    forall i :: 0 <= i < |s| ==> s[i] < B
  }

  // ---- small facts about products ----

  lemma Distribute(x: int, y: int, z: int)
    ensures (x + y) * z == x * z + y * z && z * (x + y) == z * x + z * y
  {
  }

  lemma DistributeSub(x: int, y: int, z: int)
    ensures (x - y) * z == x * z - y * z && z * (x - y) == z * x - z * y
  {
  }

  lemma Associate(x: int, y: int, z: int)
    ensures x * (y * z) == (x * y) * z
  {
  }

  lemma MulMono(x: int, y: int, z: int)
    requires x <= y && 0 <= z
    ensures x * z <= y * z && z * x <= z * y
  {
  }

  lemma MulStrict(x: int, y: int, z: int)
    requires x < y && 0 < z
    ensures x * z < y * z && z * x < z * y
  {
  }

  lemma MulCancel(x: int, y: int, z: int)
    requires 0 < z && x * z < y * z
    ensures x < y
  {
    if y <= x {
      MulMono(y, x, z);
    }
  }

  lemma {:induction false} PowPositive(b: nat, n: nat)
    requires b > 0
    ensures Pow(b, n) > 0
  {
    if n > 0 {
      PowPositive(b, n - 1);
      MulStrict(0, b, Pow(b, n - 1));
    }
  }

  lemma {:induction false} PowAdds(b: nat, m: nat, n: nat)
    ensures Pow(b, m + n) == Pow(b, m) * Pow(b, n)
  {
    if m > 0 {
      PowAdds(b, m - 1, n);
      Associate(b, Pow(b, m - 1), Pow(b, n));
    }
  }

  lemma {:induction false} Pow2Even(n: nat)
    requires n > 0
    ensures Pow(2, n) % 2 == 0
  {
    var h := Pow(2, n - 1);
    assert Pow(2, n) == 2 * h;
  }

  lemma {:induction false} Pow2Up(m: nat, n: nat)
    requires m <= n
    ensures 0 < Pow(2, m) <= Pow(2, n)
    decreases n
  {
    PowPositive(2, m);
    if m < n {
      Pow2Up(m, n - 1);
    }
  }

  // ---- the two halves of a double limb ----

  /** (limb_t)x and (limb_t)(x >> LIMB_T_BITS) */
  lemma HiLo(B: nat, x: nat)
    requires B > 0
    ensures x == x % B + (x / B) * B && 0 <= x % B < B && 0 <= x / B
  {
  }

  lemma HiBound(B: nat, x: nat)
    requires x < B * B
    ensures x / B < B
  {
    HiLo(B, x);
    if B <= x / B {
      MulMono(B, x / B, B);
    }
  }

  /** x - y as an unsigned double limb */
  function SubWide(B: nat, x: nat, y: nat): nat
    requires x < B && y <= B
  {
    if x >= y then x - y else (assert B <= B * B; B * B + x - y)
  }

  /** (limb_t)(limbx >> LIMB_T_BITS) & 1 is a borrow: it says by how much the low half is too large. */
  lemma Borrow(B: nat, x: nat, y: nat)
    requires B % 2 == 0 && x < B && y <= B
    ensures var l := SubWide(B, x, y); l % B + y == x + (l / B % 2) * B
  {
    if x >= y {
      QuotRem(x - y, B, 0, x - y);
    } else {
      BorrowTaken(B, B + x - y);
    }
  }

  lemma BorrowTaken(B: nat, r: nat)
    requires B % 2 == 0 && r < B
    ensures var l := B * B - B + r; l % B == r && l / B == B - 1 && l / B % 2 == 1
  {
    DistributeSub(B, 1, B);
    QuotRem(B * B - B + r, B, B - 1, r);
  }

  /** Quotient and remainder are unique. */
  lemma QuotRem(x: int, d: int, q: int, r: int)
    requires 0 <= r < d && x == q * d + r
    ensures x / d == q && x % d == r
  {
    var q', r' := x / d, x % d;
    assert x == q' * d + r';
    if q < q' {
      MulMono(q + 1, q', d);
    } else if q' < q {
      MulMono(q' + 1, q, d);
    }
  }

  lemma DivDiv(x: nat, a: nat, b: nat)
    requires a > 0 && b > 0
    ensures a * b > 0 && x / (a * b) == x / a / b
  {
    MulStrict(0, a, b);
    var q, r := x / a, x % a;
    var q', r' := q / b, q % b;
    assert x == q * a + r && q == q' * b + r';
    Distribute(q' * b, r', a);
    Associate(q', b, a);
    MulMono(r', b - 1, a);
    DistributeSub(b, 1, a);
    QuotRem(x, a * b, q', r' * a + r);
  }

  /** A word of w bits. */
  lemma {:induction false} WordBase(w: nat, B: nat)
    requires w > 0 && B == Pow(2, w)
    ensures B > 1 && B % 2 == 0 && (w >= 2 ==> B >= 4) && (w >= 3 ==> B >= 8)
  {
    Pow2Even(w);
    PowPositive(2, w - 1);
    if w >= 2 {
      PowPositive(2, w - 2);
      assert Pow(2, w - 1) == 2 * Pow(2, w - 2);
    }
    if w >= 3 {
      PowPositive(2, w - 3);
      assert Pow(2, w - 2) == 2 * Pow(2, w - 3);
    }
  }

  /** (x & ~mask) | (y & mask), for a mask of all zeros or all ones */
  function Select(B: nat, mask: nat, x: nat, y: nat): nat
    requires mask == 0 || mask == B - 1
  {
    if mask == 0 then x else y
  }

  /** c - b as a limb */
  function SubLimb(B: nat, c: nat, b: nat): nat
    requires B > 0 && c < B && b <= B
  {
    (c + B - b) % B
  }

  // ---- the value of a limb sequence ----

  lemma {:induction false} ValFrame(B: nat, s: seq<nat>, t: seq<nat>, n: nat)
    requires n <= |s| && n <= |t|
    requires forall i :: 0 <= i < n ==> s[i] == t[i]
    ensures Val(B, s, n) == Val(B, t, n)
  {
    if n > 0 {
      ValFrame(B, s, t, n - 1);
    }
  }

  lemma {:induction false} ValBound(B: nat, s: seq<nat>, n: nat)
    requires n <= |s| && IsLimbs(B, s)
    ensures Val(B, s, n) < Pow(B, n)
  {
    if n > 0 {
      ValBound(B, s, n - 1);
      var P := Pow(B, n - 1);
      MulMono(s[n - 1], B - 1, P);
      DistributeSub(B, 1, P);
    }
  }

  lemma {:induction false} ValUnique(B: nat, s: seq<nat>, t: seq<nat>, n: nat)
    requires n <= |s| && n <= |t| && IsLimbs(B, s) && IsLimbs(B, t)
    requires Val(B, s, n) == Val(B, t, n)
    ensures s[..n] == t[..n]
  {
    if n > 0 {
      ValBound(B, s, n - 1);
      ValBound(B, t, n - 1);
      var P := Pow(B, n - 1);
      QuotRem(Val(B, s, n), P, s[n - 1], Val(B, s, n - 1));
      QuotRem(Val(B, t, n), P, t[n - 1], Val(B, t, n - 1));
      ValUnique(B, s, t, n - 1);
      assert s[..n] == s[..n - 1] + [s[n - 1]] && t[..n] == t[..n - 1] + [t[n - 1]];
    }
  }

  /** Dropping the least significant limb. */
  lemma {:induction false} ValTail(B: nat, s: seq<nat>, n: nat)
    requires n < |s|
    ensures Val(B, s, n + 1) == s[0] + B * Val(B, s[1..], n)
  {
    if n > 0 {
      ValTail(B, s, n - 1);
      Distribute(Val(B, s[1..], n - 1), s[n] * Pow(B, n - 1), B);
      Associate(s[n], B, Pow(B, n - 1));
      Associate(B, s[n], Pow(B, n - 1));
    }
  }

  /** One more limb of a sum whose carry is |c| before and |c'| after: r + c'*B == x. */
  lemma CarryStep(B: nat, P: nat, r: nat, c': nat, x: nat)
    requires r + c' * B == x
    ensures r * P + c' * (B * P) == x * P
  {
    Distribute(r, c' * B, P);
    Associate(c', B, P);
  }
}
