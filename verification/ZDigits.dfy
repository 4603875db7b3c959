/** Radix-|z| digits of a scalar, 64-bit limbs (external/blst/vect.c:140-176). */
module ZDigits {
  import opened Limbs
  import opened LimbDivision

  const W64 := 64
  const B64 := 0x1_0000_0000_0000_0000
  const Z := 0xd201000000010000
  const ZZ := 0xac45a4010001a402_0000000100000000

  lemma Constants()
    ensures B64 == Pow(2, W64) && ZZ == Z * Z && Pow(2, W64 - 1) <= Z < B64
    ensures Pow(2, W64 - 1) <= 0xac45a4010001a402 < B64
  {
    assert Pow(2, 7) == 128;
    assert Pow(2, 8) == 256;
    PowAdds(2, 8, 8);
    PowAdds(2, 16, 16);
    PowAdds(2, 32, 32);
    assert Pow(2, 64) == 2 * Pow(2, 63);
  }

  const ORDER := 0x73eda753299d7d48_3339d80809a1d805_53bda402fffe5bfe_ffffffff00000001

  /** The order of the groups is z^4 - z^2 + 1, so every scalar below it has four digits. */
  lemma OrderFromZ()
    ensures ORDER == Z * Z * Z * Z - Z * Z + 1 && ORDER < ZZ * ZZ
  {
  }

  lemma ValOf2(B: nat, s: seq<nat>)
    requires |s| >= 2
    ensures Val(B, s, 2) == W(B, s[0], s[1])
  {
    assert Pow(B, 0) == 1 && Pow(B, 1) == B;
    assert Val(B, s, 1) == s[0];
  }

  lemma ValOf3(B: nat, s: seq<nat>)
    requires |s| >= 3
    ensures Val(B, s, 3) == s[0] + W(B, s[1], s[2]) * B
  {
    ValTail(B, s, 2);
    ValOf2(B, s[1..]);
  }

  /** One turn of div_by_zz: three limbs by two. */
  method DivideStep(val: array<nat>, off: nat, zz: array<nat>)
    requires off + 3 <= val.Length && val != zz && IsLimbs(B64, val[..])
    requires zz[..] == [0x0000000100000000, 0xac45a4010001a402]
    requires W(B64, val[off + 1], val[off + 2]) < ZZ
    modifies val
    ensures IsLimbs(B64, val[..])
    ensures forall k :: 0 <= k < val.Length && !(off <= k < off + 3) ==> val[k] == old(val[k])
    ensures var X := old(val[off] + W(B64, val[off + 1], val[off + 2]) * B64);
            W(B64, val[off], val[off + 1]) == X % ZZ && val[off + 2] == X / ZZ
  {
    Constants();
    ghost var R := W(B64, val[off + 1], val[off + 2]);
    assert zz.Length == 2 && zz[0] == zz[..][0] && zz[1] == zz[..][1];
    var q := Div3Limbs(W64, B64, val[off + 1], val[off + 2], zz[0], zz[1]);
    DigitOrOneMore(B64, R, ZZ, q, val[off]);
    ValOf2(B64, zz[..]);
    ghost var win := val[off..off + 3];
    assert win[0] == val[off] && win[1] == val[off + 1] && win[2] == val[off + 2];
    ValOf3(B64, win);
    QuotRemN(B64, val, off, zz, q);
    ValOf2(B64, val[off..off + 2]);
  }

  /** div_by_zz: the remainder in the low half, the quotient in the high half. */
  method DivByZz(val: array<nat>)
    requires val.Length == 4 && IsLimbs(B64, val[..]) && W(B64, val[2], val[3]) < ZZ
    modifies val
    ensures IsLimbs(B64, val[..])
    ensures var V := old(W(B64, val[0], val[1]) + W(B64, val[2], val[3]) * (B64 * B64));
            W(B64, val[0], val[1]) == V % ZZ && W(B64, val[2], val[3]) == V / ZZ
  {
    var zz := new nat[2][0x0000000100000000, 0xac45a4010001a402];
    ghost var v0, v1, R := val[0], val[1], W(B64, val[2], val[3]);
    DivideStep(val, 1, zz);
    ghost var r1, q1 := W(B64, val[1], val[2]), val[3];
    DivideStep(val, 0, zz);
    LongDivision(v0, v1, R, r1, q1, W(B64, val[0], val[1]), val[2]);
  }

  lemma LongDivision(v0: nat, v1: nat, R: nat, r1: nat, q1: nat, r0: nat, q0: nat)
    requires r1 < ZZ && v1 + R * B64 == q1 * ZZ + r1
    requires r0 < ZZ && v0 + r1 * B64 == q0 * ZZ + r0
    ensures var V := W(B64, v0, v1) + R * (B64 * B64); r0 == V % ZZ && W(B64, q0, q1) == V / ZZ
  {
    var V := W(B64, v0, v1) + R * (B64 * B64);
    assert V == (q0 + q1 * B64) * ZZ + r0;
    QuotRem(V, ZZ, q0 + q1 * B64, r0);
  }

  /** div_by_z on the two limbs at |off|: the remainder below, the quotient above. */
  method DivByZ(val: array<nat>, off: nat)
    requires off + 2 <= val.Length && IsLimbs(B64, val[..]) && W(B64, val[off], val[off + 1]) < Z * B64
    modifies val
    ensures IsLimbs(B64, val[..])
    ensures forall k :: 0 <= k < val.Length && k != off && k != off + 1 ==> val[k] == old(val[k])
    ensures var V := old(W(B64, val[off], val[off + 1])); val[off] == V % Z && val[off + 1] == V / Z
  {
    Constants();
    var z := new nat[1][Z];
    ghost var V := W(B64, val[off], val[off + 1]);
    var q := Div3Limbs(W64, B64, val[off], val[off + 1], 0, Z);
    OneLimbDigit(V, q);
    assert Val(B64, z[..], 1) == Z by { assert Pow(B64, 0) == 1; assert Val(B64, z[..], 0) == 0; }
    ghost var win := val[off..off + 2];
    assert win[0] == val[off] && win[1] == val[off + 1];
    ValOf2(B64, win);
    QuotRemN(B64, val, off, z, q);
    ghost var low := val[off..off + 1];
    assert Val(B64, low, 1) == low[0] by { assert Pow(B64, 0) == 1; assert Val(B64, low, 0) == 0; }
  }

  /** With a one-limb divisor the estimate is exact up to one as well. */
  lemma OneLimbDigit(V: nat, q: nat)
    requires GoodDigit(B64, V, W(B64, 0, Z), q)
    ensures V / Z <= q <= V / Z + 1
  {
    assert W(B64, 0, Z) == Z * B64;
    DigitOrOneMore(B64, V, Z * B64, q, 0);
    var k, r := V / Z, V % Z;
    QuotRem(V * B64, Z * B64, k, r * B64);
  }

  /** The four digits, in base |z|. */
  ghost function FromDigits(d0: nat, d1: nat, d2: nat, d3: nat): nat {
    d0 + d1 * Z + d2 * (Z * Z) + d3 * (Z * Z * Z)
  }

  /** Lines 470-473 of e2.c: every scalar below z^4 is split into its four radix-|z| digits. */
  method RadixZ(val: array<nat>)
    requires val.Length == 4 && IsLimbs(B64, val[..])
    requires W(B64, val[0], val[1]) + W(B64, val[2], val[3]) * (B64 * B64) < ZZ * ZZ
    modifies val
    ensures forall i :: 0 <= i < 4 ==> val[i] < Z
    ensures FromDigits(val[0], val[1], val[2], val[3])
            == old(W(B64, val[0], val[1]) + W(B64, val[2], val[3]) * (B64 * B64))
  {
    ghost var V := W(B64, val[0], val[1]) + W(B64, val[2], val[3]) * (B64 * B64);
    Constants();
    TopHalf(W(B64, val[0], val[1]), W(B64, val[2], val[3]));
    DivByZz(val);
    ghost var r, q := W(B64, val[0], val[1]), W(B64, val[2], val[3]);
    Halves(V);
    DivByZ(val, 0);
    DivByZ(val, 2);
    DigitsAddUp(V, r, q, val[0], val[1], val[2], val[3]);
  }

  lemma TopHalf(lo: nat, hi: nat)
    requires lo + hi * (B64 * B64) < ZZ * ZZ
    ensures hi < ZZ
  {
  }

  lemma Halves(V: nat)
    requires V < ZZ * ZZ
    ensures V % ZZ < Z * Z && V / ZZ < Z * Z && Z * Z < Z * B64
  {
  }

  lemma DigitsAddUp(V: nat, r: nat, q: nat, d0: nat, d1: nat, d2: nat, d3: nat)
    requires V < ZZ * ZZ && r == V % ZZ && q == V / ZZ
    requires d0 == r % Z && d1 == r / Z && d2 == q % Z && d3 == q / Z
    ensures d0 < Z && d1 < Z && d2 < Z && d3 < Z && FromDigits(d0, d1, d2, d3) == V
  {
    Halves(V);
    assert r == d0 + d1 * Z && q == d2 + d3 * Z;
    assert V == r + q * ZZ;
  }
}
