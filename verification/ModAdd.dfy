/** Modular addition and doubling (external/blst/no_asm.h:88-111, 201-228). */
module ModAdd {
  import opened Limbs
  import opened LimbRows
  import opened Montgomery

  /** The subtraction of p and the masked choice, for a sum below 2*p with its carry. */
  method ReduceOnce(B: nat, ret: array<nat>, tmp: array<nat>, p: array<nat>, carry: nat)
    requires B > 1 && B % 2 == 0 && ret.Length == p.Length == tmp.Length && ret != p && ret != tmp
    requires IsLimbs(B, tmp[..]) && IsLimbs(B, p[..]) && carry <= 1
    requires Val(B, tmp[..], p.Length) + carry * Pow(B, p.Length) < 2 * Val(B, p[..], p.Length)
    modifies ret
    ensures IsLimbs(B, ret[..]) && Val(B, ret[..], p.Length) < Val(B, p[..], p.Length)
    ensures var T, P := Val(B, tmp[..], p.Length) + carry * Pow(B, p.Length), Val(B, p[..], p.Length);
            Val(B, ret[..], p.Length) == if T >= P then T - P else T
  {
    ghost var n := p.Length;
    ghost var P, V, R := Val(B, p[..], n), Val(B, tmp[..], n), Pow(B, n);
    ValBound(B, p[..], n);
    ValBound(B, tmp[..], n);
    var borrow := SubN(B, ret, tmp, p);
    ghost var D := Val(B, ret[..], n);
    ValBound(B, ret[..], n);
    SubtractCases(V, carry, P, D, borrow, R);
    SmallMask(B, carry, borrow);
    var mask := SubLimb(B, carry, borrow);
    SelectN(B, ret, tmp, mask);
    if mask != 0 {
      assert tmp[..ret.Length] == ret[..];
      ValFrame(B, tmp[..], ret[..], n);
    }
  }

  /** add_mod_n: a + b mod p for reduced operands; ret may be one of them. */
  method AddMod(B: nat, ret: array<nat>, a: array<nat>, b: array<nat>, p: array<nat>)
    requires B > 1 && B % 2 == 0 && ret.Length == a.Length == b.Length == p.Length && ret != p
    requires IsLimbs(B, a[..]) && IsLimbs(B, b[..]) && IsLimbs(B, p[..])
    requires var n := p.Length; Val(B, a[..], n) < Val(B, p[..], n) && Val(B, b[..], n) < Val(B, p[..], n)
    modifies ret
    ensures IsLimbs(B, ret[..])
    ensures var n := p.Length; Val(B, ret[..], n) == old(Val(B, a[..], n) + Val(B, b[..], n)) % Val(B, p[..], n)
  {
    var tmp := new nat[p.Length](_ => 0);
    ghost var S, P := Val(B, a[..], p.Length) + Val(B, b[..], p.Length), Val(B, p[..], p.Length);
    var carry := AddN(B, tmp, a, b);
    ReduceOnce(B, ret, tmp, p, carry);
    OnceIsMod(S, P, Val(B, ret[..], p.Length));
  }

  lemma OnceIsMod(S: nat, P: nat, r: nat)
    requires 0 < P && S < 2 * P && r == if S >= P then S - P else S
    ensures r == S % P
  {
    QuotRem(S, P, if S >= P then 1 else 0, r);
  }

  /** One pass of lshift_mod_n: every limb shifted by a bit. */
  method ShiftLeft(w: nat, B: nat, tmp: array<nat>, a: array<nat>) returns (carry: nat)
    requires w > 0 && B == Pow(2, w) && tmp.Length == a.Length && tmp != a && IsLimbs(B, a[..])
    modifies tmp
    ensures IsLimbs(B, tmp[..]) && carry <= 1
    ensures Val(B, tmp[..], a.Length) + carry * Pow(B, a.Length) == 2 * Val(B, a[..], a.Length)
  {
    ghost var H := Pow(2, w - 1);
    PowPositive(2, w - 1);
    carry := 0;
    for i := 0 to a.Length
      invariant carry <= 1
      invariant forall k :: 0 <= k < i ==> tmp[k] < B
      invariant Val(B, tmp[..], i) + carry * Pow(B, i) == 2 * Val(B, a[..], i)
    {
      ghost var was, c := tmp[..], carry;
      DoubleLimb(B, H, a[i], c, Pow(B, i));
      tmp[i] := 2 * a[i] % B + carry;
      carry := 2 * a[i] / B;
      ValFrame(B, was, tmp[..], i);
    }
  }

  lemma DoubleLimb(B: nat, H: nat, x: nat, c: nat, P: nat)
    requires H > 0 && B == 2 * H && x < B && c <= 1
    ensures 0 <= 2 * x % B + c < B && 0 <= 2 * x / B <= 1
    ensures (2 * x % B + c) * P + (2 * x / B) * (B * P) == 2 * (x * P) + c * P
  {
    var q := if x < H then 0 else 1;
    QuotRem(2 * x, B, q, 2 * x - q * B);
    Distribute(2 * x - q * B, c, P);
    DistributeSub(2 * x, q * B, P);
    Associate(q, B, P);
    Associate(2, x, P);
  }

  /** lshift_mod_n: a * 2^count mod p. */
  method LshiftMod(w: nat, B: nat, ret: array<nat>, a: array<nat>, count: nat, p: array<nat>)
    requires w > 0 && B == Pow(2, w) && ret.Length == a.Length == p.Length && ret != p && IsLimbs(B, a[..])
    requires IsLimbs(B, p[..])
    requires count >= 1 && Val(B, a[..], p.Length) < Val(B, p[..], p.Length)
    modifies ret
    ensures IsLimbs(B, ret[..])
    ensures var n := p.Length; Val(B, ret[..], n) == old(Val(B, a[..], n)) * Pow(2, count) % Val(B, p[..], n)
  {
    WordBase(w, B);
    ghost var A, P := Val(B, a[..], p.Length), Val(B, p[..], p.Length);
    Double(w, B, ret, a, p);
    assert Pow(2, 1) == 2 * Pow(2, 0);
    for i := 1 to count
      invariant IsLimbs(B, ret[..]) && Val(B, ret[..], p.Length) == A * Pow(2, i) % P
    {
      DoubleMod(A * Pow(2, i), P);
      Associate(A, Pow(2, i), 2);
      Double(w, B, ret, ret, p);
    }
  }

  lemma DoubleMod(x: nat, P: nat)
    requires P > 0
    ensures 0 <= x % P < P && 2 * (x % P) % P == x * 2 % P
  {
    HiLo(P, x);
    HiLo(P, 2 * (x % P));
    var q, q' := x / P, 2 * (x % P) / P;
    Distribute(2 * q, q', P);
    Associate(2, q, P);
    QuotRem(x * 2, P, 2 * q + q', 2 * (x % P) % P);
  }

  method Double(w: nat, B: nat, ret: array<nat>, a: array<nat>, p: array<nat>)
    requires w > 0 && B == Pow(2, w) && ret.Length == a.Length == p.Length && ret != p && IsLimbs(B, a[..])
    requires IsLimbs(B, p[..])
    requires Val(B, a[..], p.Length) < Val(B, p[..], p.Length)
    modifies ret
    ensures IsLimbs(B, ret[..])
    ensures Val(B, ret[..], p.Length) == 2 * old(Val(B, a[..], p.Length)) % Val(B, p[..], p.Length)
  {
    WordBase(w, B);
    var tmp := new nat[p.Length](_ => 0);
    ghost var A, P := Val(B, a[..], p.Length), Val(B, p[..], p.Length);
    var carry := ShiftLeft(w, B, tmp, a);
    ReduceOnce(B, ret, tmp, p, carry);
    OnceIsMod(2 * A, P, Val(B, ret[..], p.Length));
  }

  /** The subtraction of sub_mod_n undoes the sum, and the other way round. */
  lemma AddThenSub(a: nat, b: nat, P: nat)
    requires a < P && b < P
    ensures var s := (a + b) % P; a == if s >= b then s - b else s - b + P
    ensures var d := if a >= b then a - b else a - b + P; (d + b) % P == a
  {
    OnceIsMod(a + b, P, if a + b >= P then a + b - P else a + b);
    var d := if a >= b then a - b else a - b + P;
    OnceIsMod(d + b, P, a);
  }
}
