/** The carry, borrow and select loops that the routines of external/blst/no_asm.h are made of. */
module LimbRows {
  import opened Limbs

  /** ret = a + b (carry); |ret| may be one of the operands. */
  method AddN(B: nat, ret: array<nat>, a: array<nat>, b: array<nat>) returns (carry: nat)
    requires B > 1 && ret.Length == a.Length == b.Length
    requires IsLimbs(B, a[..]) && IsLimbs(B, b[..])
    modifies ret
    ensures IsLimbs(B, ret[..]) && carry <= 1
    ensures var n := ret.Length;
            Val(B, ret[..], n) + carry * Pow(B, n) == old(Val(B, a[..], n) + Val(B, b[..], n))
  {
    var n := ret.Length;
    ghost var a0, b0 := a[..], b[..];
    carry := 0;
    for i := 0 to n
      invariant carry <= 1
      invariant forall k :: 0 <= k < i ==> ret[k] < B
      invariant forall k :: i <= k < n ==> a[k] == a0[k] && b[k] == b0[k]
      invariant Val(B, ret[..], i) + carry * Pow(B, i) == Val(B, a0, i) + Val(B, b0, i)
    {
      ghost var c, was := carry, ret[..];
      var limbx := a[i] + (b[i] + carry);
      AddCarry(B, Pow(B, i), a[i], b[i], c);
      ret[i] := limbx % B;
      carry := limbx / B;
      ValFrame(B, was, ret[..], i);
    }
  }

  lemma AddCarry(B: nat, P: nat, x: nat, y: nat, c: nat)
    requires B > 1 && x < B && y < B && c <= 1
    ensures var l := x + (y + c);
        0 <= l % B < B && 0 <= l / B <= 1 && (l % B) * P + (l / B) * (B * P) == x * P + y * P + c * P
  {
    var l := x + (y + c);
    HiLo(B, l);
    AddCarryBound(B, l);
    CarryStep(B, P, l % B, l / B, l);
    AddThree(x, y, c, P);
  }

  lemma AddThree(x: int, y: int, c: int, P: int)
    ensures (x + (y + c)) * P == x * P + y * P + c * P
  {
    Distribute(x, y + c, P);
    Distribute(y, c, P);
  }

  lemma AddCarryBound(B: nat, x: nat)
    requires B > 1 && x < 2 * B
    ensures x / B <= 1
  {
    if x < B {
      QuotRem(x, B, 0, x);
    } else {
      QuotRem(x, B, 1, x - B);
    }
  }

  /** ret = a + (p & mask) (carry); |ret| may be |a|. */
  method AddMaskedN(B: nat, ret: array<nat>, a: array<nat>, p: array<nat>, mask: nat) returns (carry: nat)
    requires B > 1 && ret.Length == a.Length == p.Length && ret != p
    requires IsLimbs(B, a[..]) && IsLimbs(B, p[..]) && (mask == 0 || mask == B - 1)
    modifies ret
    ensures IsLimbs(B, ret[..]) && carry <= 1
    ensures var n := ret.Length;
            Val(B, ret[..], n) + carry * Pow(B, n)
              == old(Val(B, a[..], n)) + (if mask == 0 then 0 else Val(B, p[..], n))
  {
    var n := ret.Length;
    ghost var a0, p0 := a[..], p[..];
    carry := 0;
    for i := 0 to n
      invariant carry <= 1 && p[..] == p0
      invariant forall k :: 0 <= k < i ==> ret[k] < B
      invariant forall k :: i <= k < n ==> a[k] == a0[k]
      invariant Val(B, ret[..], i) + carry * Pow(B, i) == Val(B, a0, i) + (if mask == 0 then 0 else Val(B, p0, i))
    {
      ghost var c, was := carry, ret[..];
      var masked := Select(B, mask, 0, p[i]);
      var limbx := a[i] + (masked + carry);
      AddCarry(B, Pow(B, i), a[i], masked, c);
      ret[i] := limbx % B;
      carry := limbx / B;
      ValFrame(B, was, ret[..], i);
    }
  }

  /** ret = a - b (borrow); |ret| may be one of the operands. */
  method SubN(B: nat, ret: array<nat>, a: array<nat>, b: array<nat>) returns (borrow: nat)
    requires B > 1 && B % 2 == 0 && ret.Length == b.Length <= a.Length
    requires IsLimbs(B, a[..]) && IsLimbs(B, b[..])
    modifies ret
    ensures IsLimbs(B, ret[..]) && borrow <= 1
    ensures var n := ret.Length;
            Val(B, ret[..], n) + old(Val(B, b[..], n)) == old(Val(B, a[..], n)) + borrow * Pow(B, n)
  {
    var n := ret.Length;
    ghost var a0, b0 := a[..], b[..];
    borrow := 0;
    for i := 0 to n
      invariant borrow <= 1
      invariant forall k :: 0 <= k < i ==> ret[k] < B
      invariant forall k :: i <= k < n ==> a[k] == a0[k] && b[k] == b0[k]
      invariant Val(B, ret[..], i) + Val(B, b0, i) == Val(B, a0, i) + borrow * Pow(B, i)
    {
      ghost var c, was := borrow, ret[..];
      var limbx := SubWide(B, a[i], b[i] + borrow);
      HiLo(B, limbx);
      Borrow(B, a[i], b[i] + borrow);
      BorrowStep(B, Pow(B, i), limbx % B, limbx / B % 2, a[i], b[i], c);
      ret[i] := limbx % B;
      borrow := limbx / B % 2;
      ValFrame(B, was, ret[..], i);
    }
  }

  lemma BorrowStep(B: nat, P: nat, r: nat, c': nat, x: nat, y: nat, c: nat)
    requires r + (y + c) == x + c' * B
    ensures r * P + y * P + c * P == x * P + c' * (B * P)
  {
    Distribute(r, y + c, P);
    Distribute(y, c, P);
    Distribute(x, c' * B, P);
    Associate(c', B, P);
  }

  /** The borrow of a - b alone, as in the comparison of no_asm.h:461-464. */
  method BorrowN(B: nat, a: array<nat>, b: array<nat>) returns (borrow: nat)
    requires B > 1 && B % 2 == 0 && a.Length == b.Length
    requires IsLimbs(B, a[..]) && IsLimbs(B, b[..])
    ensures borrow == if Val(B, a[..], a.Length) < Val(B, b[..], b.Length) then 1 else 0
  {
    var n := a.Length;
    borrow := 0;
    for i := 0 to n
      invariant borrow == if Val(B, a[..], i) < Val(B, b[..], i) then 1 else 0
    {
      var limbx := SubWide(B, a[i], b[i] + borrow);
      Borrow(B, a[i], b[i] + borrow);
      HiLo(B, limbx);
      ValBound(B, a[..], i);
      ValBound(B, b[..], i);
      Compare(Pow(B, i), Val(B, a[..], i), Val(B, b[..], i), a[i], b[i]);
      borrow := limbx / B % 2;
      BorrowSays(B, a[i], b[i], if Val(B, a[..], i) < Val(B, b[..], i) then 1 else 0, limbx % B, borrow);
    }
  }

  lemma BorrowSays(B: nat, x: nat, y: nat, c: nat, r: nat, c': nat)
    requires x < B && y < B && c <= 1 && r < B && c' <= 1 && r + (y + c) == x + c' * B
    ensures c' == if x < y + c then 1 else 0
  {
  }

  lemma Compare(P: nat, u: nat, v: nat, x: nat, y: nat)
    requires u < P && v < P
    ensures u + x * P < v + y * P <==> x < y || (x == y && u < v)
  {
    if x < y {
      MulMono(x + 1, y, P);
    } else if y < x {
      MulMono(y + 1, x, P);
    }
  }

  /** ret = mask ? t : ret */
  method SelectN(B: nat, ret: array<nat>, t: array<nat>, mask: nat)
    requires ret.Length <= t.Length && ret != t && (mask == 0 || mask == B - 1)
    modifies ret
    ensures ret[..] == if mask == 0 then old(ret[..]) else t[..ret.Length]
  {
    for i := 0 to ret.Length
      invariant forall k :: 0 <= k < i ==> ret[k] == if mask == 0 then old(ret[k]) else t[k]
      invariant forall k :: i <= k < ret.Length ==> ret[k] == old(ret[k])
    {
      ret[i] := Select(B, mask, ret[i], t[i]);
    }
  }

  /** vec_copy */
  method CopyN(ghost B: nat, ret: array<nat>, t: array<nat>)
    requires ret.Length <= t.Length && ret != t
    modifies ret
    ensures ret[..] == t[..ret.Length]
    ensures Val(B, ret[..], ret.Length) == Val(B, t[..], ret.Length)
  {
    for i := 0 to ret.Length
      invariant forall k :: 0 <= k < i ==> ret[k] == t[k]
    {
      ret[i] := t[i];
    }
    ValFrame(B, t[..], ret[..], ret.Length);
  }

  /** tmp[..n] += mx*a, the limb that falls out at the top is returned. */
  method MulAddRow(B: nat, tmp: array<nat>, a: array<nat>, mx: nat) returns (hi: nat)
    requires B > 1 && mx < B && tmp.Length == a.Length + 1 && tmp != a
    requires IsLimbs(B, tmp[..]) && IsLimbs(B, a[..])
    modifies tmp
    ensures IsLimbs(B, tmp[..]) && hi < B && tmp[a.Length] == old(tmp[a.Length])
    ensures var n := a.Length;
            Val(B, tmp[..], n) + hi * Pow(B, n) == old(Val(B, tmp[..], n)) + mx * Val(B, a[..], n)
  {
    var n := a.Length;
    ghost var t0, a0 := tmp[..], a[..];
    hi := 0;
    for i := 0 to n
      invariant hi < B && a[..] == a0
      invariant forall k :: 0 <= k < i ==> tmp[k] < B
      invariant forall k :: i <= k <= n ==> tmp[k] == t0[k]
      invariant Val(B, tmp[..], i) + hi * Pow(B, i) == Val(B, t0, i) + mx * Val(B, a0, i)
    {
      ghost var h, was := hi, tmp[..];
      var limbx := (mx * a[i] + hi) + tmp[i];
      MulAddCarry(B, Pow(B, i), mx, a[i], h, tmp[i], Val(B, a0, i));
      tmp[i] := limbx % B;
      hi := limbx / B;
      ValFrame(B, was, tmp[..], i);
    }
  }

  /** tmp[..n] = mx*a, the limb that falls out at the top is returned. */
  method MulRow(B: nat, tmp: array<nat>, a: array<nat>, mx: nat) returns (hi: nat)
    requires B > 1 && mx < B && tmp.Length == a.Length + 1 && tmp != a
    requires IsLimbs(B, tmp[..]) && IsLimbs(B, a[..])
    modifies tmp
    ensures IsLimbs(B, tmp[..]) && hi < B
    ensures var n := a.Length; Val(B, tmp[..], n) + hi * Pow(B, n) == mx * Val(B, a[..], n)
  {
    var n := a.Length;
    ghost var a0 := a[..];
    hi := 0;
    for i := 0 to n
      invariant hi < B && a[..] == a0 && IsLimbs(B, tmp[..])
      invariant Val(B, tmp[..], i) + hi * Pow(B, i) == mx * Val(B, a0, i)
    {
      ghost var h, was := hi, tmp[..];
      var limbx := mx * a[i] + hi;
      MulAddCarry(B, Pow(B, i), mx, a[i], h, 0, Val(B, a0, i));
      tmp[i] := limbx % B;
      hi := limbx / B;
      ValFrame(B, was, tmp[..], i);
    }
  }

  lemma MulAddBound(B: nat, x: nat, y: nat, u: nat, v: nat)
    requires x < B && y < B && u < B && v < B
    ensures 0 <= x * y && x * y + u + v < B * B
  {
    MulMono(x, B - 1, y);
    MulMono(y, B - 1, B - 1);
    DistributeSub(B, 1, B - 1);
    DistributeSub(B, 1, B);
  }

  lemma MulAddCarry(B: nat, P: nat, mx: nat, x: nat, h: nat, t: nat, V: nat)
    requires B > 1 && mx < B && x < B && h < B && t < B
    ensures var l := (mx * x + h) + t;
            && l >= 0 && 0 <= l % B < B && 0 <= l / B < B
            && (l % B) * P + (l / B) * (B * P) == mx * (x * P) + h * P + t * P
    ensures mx * (V + x * P) == mx * V + mx * (x * P)
  {
    MulAddBound(B, mx, x, h, t);
    var l := (mx * x + h) + t;
    HiLo(B, l);
    HiBound(B, l);
    CarryStep(B, P, l % B, l / B, l);
    Distribute(mx * x + h, t, P);
    Distribute(mx * x, h, P);
    Associate(mx, x, P);
    Distribute(V, x * P, mx);
  }
}
