/**
 * Scalar multiplication through the endomorphisms of the two curves:
 * GLV (external/blst/e1.c:383-417) and GLS (external/blst/e2.c:461-494).
 */
module Endomorphisms {
  import opened ByteStrings
  import opened Limbs
  import opened LittleEndian
  import opened LimbDivision
  import opened ZDigits
  import opened Groups
  import opened BoothMult

  // ---- bytes and limbs ----

  lemma {:induction false} Pow256Of8()
    ensures Pow(256, 8) == B64 && Pow(256, 16) == B64 * B64
  {
    Constants();
    Pow256(8);
    PowAdds(256, 8, 8);
  }

  /** limbs_from_le_bytes for 32 bytes */
  method LimbsFromLeBytes(SK: seq<byte>) returns (val: array<nat>)
    requires |SK| == 32
    ensures fresh(val) && val.Length == 4 && IsLimbs(B64, val[..])
    ensures W(B64, val[0], val[1]) + W(B64, val[2], val[3]) * (B64 * B64) == LeVal(SK)
  {
    val := new nat[4](_ => 0);
    Pow256Of8();
    for i := 0 to 4
      invariant IsLimbs(B64, val[..])
      invariant forall k :: 0 <= k < i ==> val[k] == LeVal(SK[8 * k..8 * k + 8])
    {
      LeBound(SK[8 * i..8 * i + 8]);
      val[i] := FromLe(SK[8 * i..8 * i + 8]);
    }
    FourLimbs(SK);
  }

  function FromLe(d: seq<byte>): (x: nat)
    ensures x == LeVal(d)
  {
    if d == [] then 0 else LeTail(d); d[0] as int + 256 * FromLe(d[1..])
  }

  lemma {:induction false} FourLimbs(SK: seq<byte>)
    requires |SK| == 32
    ensures LeVal(SK)
        == W(B64, LeVal(SK[0..8]), LeVal(SK[8..16])) + W(B64, LeVal(SK[16..24]), LeVal(SK[24..32])) * (B64 * B64)
  {
    Pow256Of8();
    LeSplit(SK, 16);
    LeSplit(SK[..16], 8);
    LeSplit(SK[16..], 8);
    assert SK[..16][..8] == SK[0..8] && SK[..16][8..] == SK[8..16];
    assert SK[16..][..8] == SK[16..24] && SK[16..][8..] == SK[24..32];
  }

  /** A 64-bit limb, read back as an 8-byte scalar, is the limb. */
  lemma {:induction false} LimbScalar(x: nat)
    requires x < B64
    ensures Scalar(LeBytes(x, 8), 64) == x
  {
    Pow256Of8();
    Constants();
    LeBytesVal(x, 8);
    QuotRem(x, B64, 0, x);
  }

  /** Two limbs, read back as a 16-byte scalar. */
  lemma {:induction false} WideScalar(lo: nat, hi: nat)
    requires lo < B64 && hi < B64
    ensures Scalar(LeBytes(lo, 8) + LeBytes(hi, 8), 128) == W(B64, lo, hi)
  {
    Pow256Of8();
    Constants();
    LeBytesVal(lo, 8);
    LeBytesVal(hi, 8);
    var d := LeBytes(lo, 8) + LeBytes(hi, 8);
    LeSplit(d, 8);
    assert d[..8] == LeBytes(lo, 8) && d[8..] == LeBytes(hi, 8);
    PowAdds(2, 64, 64);
    TwoLimbs(B64, lo, hi);
    QuotRem(W(B64, lo, hi), B64 * B64, 0, W(B64, lo, hi));
  }

  lemma Window4()
    ensures Sizes(B64, 4)
  {
    SmallPowers();
  }

  // ---- GLS ----

  /** psi acts as multiplication by z, which is -|z|. */
  ghost predicate ActsAsZ<T(!new)>(G: Group<T>, psi: T -> T) {
    forall Q: T :: psi(Q) == Mul(G, -Z, Q)
  }

  /** The digits weighted by powers of |z|, on a point and its images. */
  lemma {:induction false} GlsSum<T(!new)>(G: Group<T>, psi: T -> T, P: T, d0: nat, d1: nat, d2: nat, d3: nat)
    requires Abelian(G) && ActsAsZ(G, psi)
    ensures Dot(G, [d0, d1, d2, d3], [P, G.neg(psi(P)), psi(psi(P)), G.neg(psi(psi(psi(P))))])
            == Mul(G, FromDigits(d0, d1, d2, d3), P)
  {
    var p1, p2, p3 := psi(P), psi(psi(P)), psi(psi(psi(P)));
    Images(G, psi, P);
    MulOfMul(G, d1, Z, P);
    MulOfMul(G, d2, Z * Z, P);
    MulOfMul(G, d3, Z * Z * Z, P);
    Dot4(G, [d0, d1, d2, d3], [P, G.neg(p1), p2, G.neg(p3)]);
    AddFour(G, d0, d1 * Z, d2 * (Z * Z), d3 * (Z * Z * Z), P);
  }

  lemma {:induction false} Images<T(!new)>(G: Group<T>, psi: T -> T, P: T)
    requires Abelian(G) && ActsAsZ(G, psi)
    ensures G.neg(psi(P)) == Mul(G, Z, P) && psi(psi(P)) == Mul(G, Z * Z, P)
    ensures G.neg(psi(psi(psi(P)))) == Mul(G, Z * Z * Z, P)
  {
    MulOfMul(G, -Z, -Z, P);
    MulOfMul(G, -Z, Z * Z, P);
    MulNegates(G, -Z, P);
    MulNegates(G, -(Z * Z * Z), P);
  }

  lemma {:induction false} AddFour<T(!new)>(G: Group<T>, a: int, b: int, c: int, d: int, P: T)
    requires Abelian(G)
    ensures G.add(G.add(G.add(Mul(G, a, P), Mul(G, b, P)), Mul(G, c, P)), Mul(G, d, P)) == Mul(G, a + b + c + d, P)
  {
    MulAdds(G, a, b, P);
    MulAdds(G, a + b, c, P);
    MulAdds(G, a + b + c, d, P);
  }

  lemma {:induction false} Dot2<T(!new)>(G: Group<T>, ks: seq<int>, Ps: seq<T>)
    requires Abelian(G) && |ks| == |Ps| == 2
    ensures Dot(G, ks, Ps) == G.add(Mul(G, ks[0], Ps[0]), Mul(G, ks[1], Ps[1]))
  {
    assert ks[..1][..0] == [];
    assert Dot(G, ks[..1], Ps[..1]) == G.add(G.zero, Mul(G, ks[0], Ps[0]));
    Laws(G, Mul(G, ks[0], Ps[0]), G.zero, G.zero);
  }

  lemma {:induction false} Dot4<T(!new)>(G: Group<T>, ks: seq<int>, Ps: seq<T>)
    requires Abelian(G) && |ks| == |Ps| == 4
    ensures Dot(G, ks, Ps)
            == G.add(G.add(G.add(Mul(G, ks[0], Ps[0]), Mul(G, ks[1], Ps[1])), Mul(G, ks[2], Ps[2])),
              Mul(G, ks[3], Ps[3]))
  {
    Dot2(G, ks[..2], Ps[..2]);
    assert ks[..3][..2] == ks[..2] && Ps[..3][..2] == Ps[..2];
    assert Dot(G, ks[..3], Ps[..3]) == G.add(Dot(G, ks[..2], Ps[..2]), Mul(G, ks[2], Ps[2]));
  }

  /** The digits of SK in base |z|, each as an 8-byte scalar. */
  method GlsScalars(SK: seq<byte>) returns (scalars: seq<seq<byte>>, ghost d: seq<nat>)
    requires |SK| == 32 && LeVal(SK) < ZZ * ZZ
    ensures |scalars| == |d| == 4 && Wide(scalars, 64)
    ensures Scalars(scalars, 64) == [d[0], d[1], d[2], d[3]] && FromDigits(d[0], d[1], d[2], d[3]) == LeVal(SK)
  {
    var val := LimbsFromLeBytes(SK);
    RadixZ(val);
    scalars := [LeBytes(val[0], 8), LeBytes(val[1], 8), LeBytes(val[2], 8), LeBytes(val[3], 8)];
    d := val[..];
    Constants();
    LimbScalar(val[0]);
    LimbScalar(val[1]);
    LimbScalar(val[2]);
    LimbScalar(val[3]);
  }

  /** POINTonE2_mult_gls: SK*in for every SK below z^4. */
  method MultGls<T(!new)>(G: Group<T>, psi: T -> T, in_: T, SK: seq<byte>) returns (out: T)
    requires Abelian(G) && ActsAsZ(G, psi) && |SK| == 32 && LeVal(SK) < ZZ * ZZ
    ensures out == Mul(G, LeVal(SK), in_)
  {
    var scalars;
    ghost var d;
    scalars, d := GlsScalars(SK);
    var p0 := psi(in_);
    var p1 := psi(p0);
    var p2 := psi(p1);
    p0 := G.neg(p0);
    p2 := G.neg(p2);
    Window4();
    out := MultsW(G, B64, 4, [in_, p0, p1, p2], scalars, 64);
    GlsSum(G, psi, in_, d[0], d[1], d[2], d[3]);
  }

  // ---- GLV ----

  /** sigma squared acts as -z^2, and sigma has order three. */
  ghost predicate ActsAsSigma<T(!new)>(G: Group<T>, sigma: T -> T) {
    forall Q: T :: sigma(sigma(Q)) == Mul(G, -ZZ, Q) && sigma(sigma(sigma(Q))) == Q
  }

  lemma {:induction false} GlvSum<T(!new)>(G: Group<T>, sigma: T -> T, P: T, q: int, r: int)
    requires Abelian(G) && ActsAsSigma(G, sigma)
    ensures var out := Dot(G, [q, r], [P, G.neg(sigma(P))]);
            sigma(sigma(G.neg(out))) == Mul(G, r + q * ZZ, P)
  {
    var S := sigma(P);
    var out := Dot(G, [q, r], [P, G.neg(S)]);
    Dot2(G, [q, r], [P, G.neg(S)]);
    MulOfNeg(G, r, S);
    MulOfNeg(G, -ZZ, out);
    assert sigma(sigma(G.neg(out))) == Mul(G, ZZ, out);
    MulOfSum(G, ZZ, Mul(G, q, P), Mul(G, -r, S));
    MulOfMul(G, ZZ, q, P);
    SigmaPart(G, sigma, P, r);
    MulAdds(G, ZZ * q, r, P);
    assert ZZ * q + r == r + q * ZZ;
  }

  /** z^2 times -r*sigma(P) is r*P, because sigma cubed is the identity. */
  lemma {:induction false} SigmaPart<T(!new)>(G: Group<T>, sigma: T -> T, P: T, r: int)
    requires Abelian(G) && ActsAsSigma(G, sigma)
    ensures Mul(G, ZZ, Mul(G, -r, sigma(P))) == Mul(G, r, P)
  {
    var S := sigma(P);
    MulOfMul(G, ZZ, -r, S);
    MulOfMul(G, r, -ZZ, S);
    assert ZZ * (-r) == r * (-ZZ);
    assert sigma(sigma(S)) == Mul(G, -ZZ, S);
    assert sigma(sigma(sigma(P))) == P;
  }

  /** Quotient and remainder of SK by z^2, as 16-byte scalars. */
  method GlvScalars(SK: seq<byte>) returns (scalars: seq<seq<byte>>, ghost q: nat, ghost r: nat)
    requires |SK| == 32 && LeVal(SK) < ZZ * ZZ
    ensures |scalars| == 2 && Wide(scalars, 128) && Scalars(scalars, 128) == [q, r] && r + q * ZZ == LeVal(SK)
  {
    var val := LimbsFromLeBytes(SK);
    TopHalf(W(B64, val[0], val[1]), W(B64, val[2], val[3]));
    DivByZz(val);
    r, q := W(B64, val[0], val[1]), W(B64, val[2], val[3]);
    HiLo(ZZ, LeVal(SK));
    scalars := [LeBytes(val[2], 8) + LeBytes(val[3], 8), LeBytes(val[0], 8) + LeBytes(val[1], 8)];
    WideScalar(val[0], val[1]);
    WideScalar(val[2], val[3]);
  }

  /** POINTonE1_mult_glv: SK*in for every SK below z^4. */
  method MultGlv<T(!new)>(G: Group<T>, sigma: T -> T, in_: T, SK: seq<byte>) returns (out: T)
    requires Abelian(G) && ActsAsSigma(G, sigma) && |SK| == 32 && LeVal(SK) < ZZ * ZZ
    ensures out == Mul(G, LeVal(SK), in_)
  {
    var scalars;
    ghost var q, r;
    scalars, q, r := GlvScalars(SK);
    var inSigma := G.neg(sigma(in_));
    Window4();
    out := MultsW(G, B64, 4, [in_, inSigma], scalars, 128);
    GlvSum(G, sigma, in_, q, r);
    out := G.neg(out);
    out := sigma(sigma(out));
  }
}
