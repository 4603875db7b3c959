/** What the verdict of a batch says: scalars, signatures and the pairing equation (external/blst/aggregate.c). */
module PairingVerdict {
  import opened ByteStrings
  import opened Miller
  import opened PairingSpec
  import opened PairingRuns
  import opened PairingMerge
  import M = Monoids
  import G = Groups
  import W5 = BoothMult

  // ---- scalars ----

  /** The factor that a call multiplies with: 1 where it multiplies nothing. */
  ghost function Factor(scalar: Option<ScalarBits>): nat {
    if scalar.Some? && scalar.value.nbits != 0 then W5.Scalar(scalar.value.bytes, scalar.value.nbits) else 1
  }

  /** The scalar has its bytes, and the point an order above it. */
  ghost predicate ScalarFits<X(!new)>(g: G.Group<X>, scalar: Option<ScalarBits>, x: X) {
    scalar.Some? && scalar.value.nbits != 0 ==>
      var ScalarBits(d, n) := scalar.value;
      n <= 8 * |d| && exists q: nat :: MultipleKnown(g, x, q, d, n)
  }

  lemma ScaledMeans<X(!new)>(g: G.Group<X>, mult: (seq<byte>, nat, X) -> X, scalar: Option<ScalarBits>, x: X)
    requires G.Abelian(g) && Multiplies(g, mult) && ScalarFits(g, scalar, x)
    ensures Scaled(mult, scalar, x) == G.Mul(g, Factor(scalar), x)
  {
    if scalar.Some? && scalar.value.nbits != 0 {
      var ScalarBits(d, n) := scalar.value;
      var q: nat :| MultipleKnown(g, x, q, d, n);
      assert mult(d, n, x) == G.Mul(g, W5.Scalar(d, n), x);
    } else {
      G.MulOne(g, x);
    }
  }

  /** The multiple of its signature that a call with the key in G2 adds. */
  ghost function SignMultiple1<E1, E2, T, L, V>(env: Env<E1, E2, T, L, V>, op: Op<E1, E2>): E1 {
    if op.PkInG2? && op.sig1.Some? && op.sig1.value != env.G1.zero && (op.sigCheck ==> env.inG1(op.sig1.value))
    then G.Mul(env.G1, Factor(op.scalar), op.sig1.value) else env.G1.zero
  }

  ghost function SignMultiple2<E1, E2, T, L, V>(env: Env<E1, E2, T, L, V>, op: Op<E1, E2>): E2 {
    if op.PkInG1? && op.sig2.Some? && op.sig2.value != env.G2.zero && (op.sigCheck ==> env.inG2(op.sig2.value))
    then G.Mul(env.G2, Factor(op.scalar), op.sig2.value) else env.G2.zero
  }

  ghost function SignMultiples1<E1, E2, T, L, V>(env: Env<E1, E2, T, L, V>): Op<E1, E2> -> E1 {
    op => SignMultiple1(env, op)
  }

  ghost function SignMultiples2<E1, E2, T, L, V>(env: Env<E1, E2, T, L, V>): Op<E1, E2> -> E2 {
    op => SignMultiple2(env, op)
  }

  /** The scalar of the call fits the points that it multiplies: the signature, and the hash or the key in G1. */
  ghost predicate OpFits<E1(!new), E2(!new), T, L, V>(
      env: Env<E1, E2, T, L, V>, hash: bool, dst: seq<byte>, op: Op<E1, E2>) {
    match op
    case PkInG2(_, _, sig, _, scalar, msg, aug) =>
      (sig.Some? ==> ScalarFits(env.G1, scalar, sig.value))
      && ScalarFits(env.G1, scalar, env.hash1(hash, Input(msg, dst, aug)))
    case PkInG1(pk, _, sig, _, scalar, _, _) =>
      (sig.Some? ==> ScalarFits(env.G2, scalar, sig.value)) && (pk.Some? ==> ScalarFits(env.G1, scalar, pk.value))
    case Commit => true
  }

  lemma SignTermMeans<E1(!new), E2(!new), T, L, V(!new)>(
      env: Env<E1, E2, T, L, V>, hash: bool, dst: seq<byte>, op: Op<E1, E2>)
    requires Sound(env) && Multiplies(env.G1, env.mult1) && Multiplies(env.G2, env.mult2) && OpFits(env, hash, dst, op)
    ensures SignTerm1(env, op) == SignMultiple1(env, op) && SignTerm2(env, op) == SignMultiple2(env, op)
  {
    if op.PkInG2? && op.sig1.Some? {
      ScaledMeans(env.G1, env.mult1, op.scalar, op.sig1.value);
    } else if op.PkInG1? && op.sig2.Some? {
      ScaledMeans(env.G2, env.mult2, op.scalar, op.sig2.value);
    }
  }

  /** The signature of a run is the sum of scalar times signature over the calls that passed their check. */
  lemma {:induction false} ScaledSignatures<E1(!new), E2(!new), T, L, V(!new)>(
      env: Env<E1, E2, T, L, V>, hash: bool, dst: seq<byte>, ops: seq<Op<E1, E2>>)
    requires Sound(env) && Multiplies(env.G1, env.mult1) && Multiplies(env.G2, env.mult2)
    requires forall op :: op in ops ==> OpFits(env, hash, dst, op)
    ensures var c := Run(env, hash, dst, ops);
      && (Kind(ops) == MinSig ==> Sum1(env, c) == M.Total(AsMonoid(env.G1), SignMultiples1(env), ops))
      && (Kind(ops) == MinPk ==> Sum2(env, c) == M.Total(AsMonoid(env.G2), SignMultiples2(env), ops))
  {
    if Kind(ops) != Undefined {
      RunMeans(env, hash, dst, Kind(ops), ops);
    }
    forall op | op in ops
      ensures SignTerm1(env, op) == SignMultiple1(env, op) && SignTerm2(env, op) == SignMultiple2(env, op)
    {
      SignTermMeans(env, hash, dst, op);
    }
    var g1, g2 := AsMonoid(env.G1), AsMonoid(env.G2);
    M.TotalMapped(g1, g1, (x: E1) => x, SignTerms1(env), SignMultiples1(env), ops);
    M.TotalMapped(g2, g2, (x: E2) => x, SignTerms2(env), SignMultiples2(env), ops);
  }

  /** A pair carries the multiple of the hash, or of the key where the keys are in G1. */
  lemma ScaledPair<E1(!new), E2(!new), T, L, V(!new)>(
      env: Env<E1, E2, T, L, V>, hash: bool, dst: seq<byte>, op: Op<E1, E2>)
    requires Sound(env) && Multiplies(env.G1, env.mult1) && OpFits(env, hash, dst, op)
    requires PairOf(env, hash, dst, op).Some?
    ensures PairOf(env, hash, dst, op).value ==
      if op.PkInG2?
      then (op.pk2.value, G.Mul(env.G1, Factor(op.scalar), env.hash1(hash, Input(op.msg, dst, op.aug))))
      else (env.hash2(hash, Input(op.msg, dst, op.aug)), G.Mul(env.G1, Factor(op.scalar), op.pk1.value))
  {
    if op.PkInG2? {
      ScaledMeans(env.G1, env.mult1, op.scalar, env.hash1(hash, Input(op.msg, dst, op.aug)));
    } else {
      ScaledMeans(env.G1, env.mult1, op.scalar, op.pk1.value);
    }
  }

  // ---- the pairing equation ----

  /** The final exponentiation is multiplicative, and conjugates become inverses under it. */
  ghost predicate Exponent<E1, E2, T, L, V(!new)>(env: Env<E1, E2, T, L, V>) {
    && M.Homomorphism(env.C.m, env.C.m, env.finalExp)
    && (forall x: V {:trigger M.At(x, x, x)} ::
          env.C.m.mul(env.finalExp(x), env.finalExp(env.C.conj(x))) == env.C.m.one)
  }

  /** Dividing by v leaves 1 exactly for the same value. */
  lemma {:induction false} QuotientIsOne<E1, E2, T, L, V(!new)>(env: Env<E1, E2, T, L, V>, v: V, w: V)
    requires Lawful(env.C) && Exponent(env)
    ensures env.finalExp(env.C.m.mul(env.C.conj(v), w)) == env.C.m.one <==> env.finalExp(v) == env.finalExp(w)
  {
    var m, x, y, z := env.C.m, env.finalExp(v), env.finalExp(env.C.conj(v)), env.finalExp(w);
    assert M.At(v, v, v);
    M.MapsProduct(m, m, env.finalExp, env.C.conj(v), w);
    M.Laws(m, x, y, z);
    M.Laws(m, x, m.one, x);
    M.Laws(m, z, m.one, z);
    M.Laws(m, m.one, z, z);
    M.Laws(m, y, x, x);
  }

  /** The verdict compares the pairing value of the signature with that of all pairs. */
  lemma {:induction false} VerdictCompares<E1(!new), E2(!new), T, L, V(!new)>(
      env: Env<E1, E2, T, L, V>, k: Mode, c: Ctx<E1, E2, V>, v: V)
    requires Sound(env) && Exponent(env) && Ok(c) && c.qs == [] && k != Undefined && c.mode in {Undefined, k}
    ensures Verify(env, c, Some(v)) <==> HasPair(c) && env.finalExp(v) == env.finalExp(Accumulated(env, c))
    ensures Verify(env, c, None) <==>
      HasPair(c) && env.finalExp(SignValue(env, k, c)) == env.finalExp(Accumulated(env, c))
  {
    assert c.(qs := [], ps := []) == c;
    VerifyGiven(env, c, v);
    VerifyBySum(env, k, c);
    QuotientIsOne(env, v, Accumulated(env, c));
    QuotientIsOne(env, SignValue(env, k, c), Accumulated(env, c));
  }

  /** The pairing: one pair through the loop and the final exponentiation. */
  ghost function Pair<E1, E2, T, L, V>(env: Env<E1, E2, T, L, V>, q: E2, p: E1): V {
    env.finalExp(LoopValue(env.C, [q], [p]))
  }

  ghost predicate Subgroup<X(!new)>(g: G.Group<X>, has: X -> bool) {
    has(g.zero) && forall x: X, y: X :: has(x) && has(y) ==> has(g.add(x, y))
  }

  lemma {:induction false} MultipleInside<X(!new)>(g: G.Group<X>, has: X -> bool, k: nat, x: X)
    requires G.Abelian(g) && Subgroup(g, has) && has(x)
    ensures has(G.Mul(g, k, x))
  {
    if k > 0 {
      MultipleInside(g, has, k - 1, x);
      G.MulSucc(g, k - 1, x);
    }
  }

  /** Names the points at which bilinearity is used. */
  ghost predicate At<E1, E2>(q: E2, q': E2, p: E1, p': E1) {
    true
  }

  /** On the two subgroups the pairing is bilinear; they hold the generators and the hashes. */
  ghost predicate Bilinear<E1(!new), E2(!new), T, L, V>(env: Env<E1, E2, T, L, V>) {
    && Subgroup(env.G1, env.inG1) && Subgroup(env.G2, env.inG2) && env.inG1(env.gen1) && env.inG2(env.gen2)
    && (forall h: bool, x: Input :: env.inG1(env.hash1(h, x)))
    && (forall h: bool, x: Input :: env.inG2(env.hash2(h, x)))
    && (forall q: E2, q': E2, p: E1, p': E1 {:trigger At(q, q', p, p')} ::
          env.inG2(q) && env.inG2(q') && env.inG1(p) && env.inG1(p') ==>
            && Pair(env, q, env.G1.add(p, p')) == env.C.m.mul(Pair(env, q, p), Pair(env, q, p'))
            && Pair(env, env.G2.add(q, q'), p) == env.C.m.mul(Pair(env, q, p), Pair(env, q', p)))
  }

  lemma PairAdds<E1(!new), E2(!new), T, L, V>(
      env: Env<E1, E2, T, L, V>, q: E2, q': E2, p: E1, p': E1)
    requires Bilinear(env) && env.inG2(q) && env.inG2(q') && env.inG1(p) && env.inG1(p')
    ensures Pair(env, q, env.G1.add(p, p')) == env.C.m.mul(Pair(env, q, p), Pair(env, q, p'))
    ensures Pair(env, env.G2.add(q, q'), p) == env.C.m.mul(Pair(env, q, p), Pair(env, q', p))
  {
    assert At(q, q', p, p');
  }

  lemma PairWithZero<E1(!new), E2(!new), T, L, V(!new)>(env: Env<E1, E2, T, L, V>, q: E2, p: E1)
    requires Sound(env) && Exponent(env)
    ensures Pair(env, env.G2.zero, p) == env.C.m.one && Pair(env, q, env.G1.zero) == env.C.m.one
  {
  }

  lemma PairOfFinite<E1(!new), E2(!new), T, L, V(!new)>(env: Env<E1, E2, T, L, V>, q: E2, p: E1)
    requires Sound(env) && Finite(env, (q, p))
    ensures Pair(env, q, p) == env.finalExp(Single(env.C, q, p))
  {
    assert Singles(env.C, [q], [p]) == [Single(env.C, q, p)];
    M.ProductOne(env.C.m, Single(env.C, q, p));
  }

  lemma PairStep<E1(!new), E2(!new), T, L, V(!new)>(env: Env<E1, E2, T, L, V>, q: E2, q': E2, p: E1, p': E1)
    requires Bilinear(env) && env.inG2(q) && env.inG2(q') && env.inG1(p) && env.inG1(p')
    requires Pair(env, q', p) == Pair(env, q, p')
    ensures Pair(env, env.G2.add(q', q), p) == Pair(env, q, env.G1.add(p', p))
  {
    PairAdds(env, q', q, p, p);
    PairAdds(env, q, q, p', p);
  }

  /** A multiple may stand on either side. */
  lemma {:induction false} PairTimes<E1(!new), E2(!new), T, L, V(!new)>(
      env: Env<E1, E2, T, L, V>, k: nat, q: E2, p: E1)
    requires Sound(env) && Exponent(env) && Bilinear(env) && env.inG2(q) && env.inG1(p)
    ensures Pair(env, G.Mul(env.G2, k, q), p) == Pair(env, q, G.Mul(env.G1, k, p))
  {
    if k == 0 {
      PairWithZero(env, q, p);
    } else {
      PairTimes(env, k - 1, q, p);
      var q', p' := G.Mul(env.G2, k - 1, q), G.Mul(env.G1, k - 1, p);
      MultipleInside(env.G2, env.inG2, k - 1, q);
      MultipleInside(env.G1, env.inG1, k - 1, p);
      PairStep(env, q, q', p, p');
      assert G.Mul(env.G2, k, q) == env.G2.add(q', q) && G.Mul(env.G1, k, p) == env.G1.add(p', p);
    }
  }

  ghost function PairingTerms<E1, E2, T, L, V>(
      env: Env<E1, E2, T, L, V>, hash: bool, dst: seq<byte>, k: Mode): Op<E1, E2> -> V {
    op => env.finalExp(PairTerm(env, hash, dst, k, op))
  }

  /**
   * The verdict on a committed run without lone infinite pairs: there is a pair, and the pairing of
   * the summed signatures with the generator is the product of the pairings of all pairs.
   */
  lemma {:induction false} BatchEquation<E1(!new), E2(!new), T, L, V(!new)>(
      env: Env<E1, E2, T, L, V>, hash: bool, dst: seq<byte>, k: Mode, ops: seq<Op<E1, E2>>)
    requires Sound(env) && Exponent(env) && k != Undefined && Committed(ops) && OneKind(k, ops)
    requires Clean(env, hash, dst, k, ops)
    ensures Verify(env, Run(env, hash, dst, ops), None) <==>
      && (exists op :: op in ops && Contributes(env, hash, dst, k, op))
      && M.Total(env.C.m, PairingTerms(env, hash, dst, k), ops) ==
         if k == MinSig then Pair(env, env.gen2, M.Total(AsMonoid(env.G1), SignTerms1(env), ops))
         else Pair(env, M.Total(AsMonoid(env.G2), SignTerms2(env), ops), env.gen1)
  {
    var c := Run(env, hash, dst, ops);
    ShardMeans(env, hash, dst, k, ops);
    KindOfOneKind(k, ops);
    ProductExact(env, hash, dst, k, ops);
    VerdictCompares(env, k, c, env.C.m.one);
    M.TotalMapped(
      env.C.m, env.C.m, env.finalExp, PairTerms(env, hash, dst, k), PairingTerms(env, hash, dst, k), ops);
  }

  // ---- what the keys owe ----

  /** The signature that goes with the key and the message of a call, times its scalar. */
  ghost function Owed1<E1, E2, T, L, V>(
      env: Env<E1, E2, T, L, V>, hash: bool, dst: seq<byte>, sk: Op<E1, E2> -> nat, op: Op<E1, E2>): E1 {
    if op.PkInG2? && PairOf(env, hash, dst, op).Some?
    then G.Mul(env.G1, Factor(op.scalar), G.Mul(env.G1, sk(op), env.hash1(hash, Input(op.msg, dst, op.aug))))
    else env.G1.zero
  }

  ghost function Owed2<E1, E2, T, L, V>(
      env: Env<E1, E2, T, L, V>, hash: bool, dst: seq<byte>, sk: Op<E1, E2> -> nat, op: Op<E1, E2>): E2 {
    if op.PkInG1? && PairOf(env, hash, dst, op).Some?
    then G.Mul(env.G2, Factor(op.scalar), G.Mul(env.G2, sk(op), env.hash2(hash, Input(op.msg, dst, op.aug))))
    else env.G2.zero
  }

  ghost function AllOwed1<E1, E2, T, L, V>(
      env: Env<E1, E2, T, L, V>, hash: bool, dst: seq<byte>, sk: Op<E1, E2> -> nat): Op<E1, E2> -> E1 {
    op => Owed1(env, hash, dst, sk, op)
  }

  ghost function AllOwed2<E1, E2, T, L, V>(
      env: Env<E1, E2, T, L, V>, hash: bool, dst: seq<byte>, sk: Op<E1, E2> -> nat): Op<E1, E2> -> E2 {
    op => Owed2(env, hash, dst, sk, op)
  }

  /** A commit, or a call in mode k whose key is sk times the generator and whose pair, if any, is finite. */
  ghost predicate Keyed<E1(!new), E2(!new), T, L, V>(
      env: Env<E1, E2, T, L, V>, hash: bool, dst: seq<byte>, k: Mode, sk: Op<E1, E2> -> nat, op: Op<E1, E2>) {
    op.Commit? ||
    (KindOf(op) == k && OpFits(env, hash, dst, op) && FinitePair(env, hash, dst, op)
      && (op.PkInG2? && op.pk2.Some? ==> op.pk2.value == G.Mul(env.G2, sk(op), env.gen2))
      && (op.PkInG1? && op.pk1.Some? ==> op.pk1.value == G.Mul(env.G1, sk(op), env.gen1)))
  }

  lemma {:induction false} SwapFactors<X(!new)>(g: G.Group<X>, m: nat, n: nat, x: X)
    requires G.Abelian(g)
    ensures G.Mul(g, m, G.Mul(g, n, x)) == G.Mul(g, n, G.Mul(g, m, x)) == G.Mul(g, m * n, x)
  {
    G.MulOfMul(g, m, n, x);
    G.MulOfMul(g, n, m, x);
  }

  /** sk times the generator against r*H pairs like the generator against r*(sk*H). */
  lemma {:induction false} KeyPairs1<E1(!new), E2(!new), T, L, V(!new)>(
      env: Env<E1, E2, T, L, V>, sk: nat, r: nat, H: E1)
    requires Sound(env) && Exponent(env) && Bilinear(env) && env.inG1(H)
    ensures var sig := G.Mul(env.G1, r, G.Mul(env.G1, sk, H));
      && env.inG1(sig)
      && Pair(env, G.Mul(env.G2, sk, env.gen2), G.Mul(env.G1, r, H)) == Pair(env, env.gen2, sig)
  {
    MultipleInside(env.G1, env.inG1, r, H);
    PairTimes(env, sk, env.gen2, G.Mul(env.G1, r, H));
    SwapFactors(env.G1, sk, r, H);
    MultipleInside(env.G1, env.inG1, sk, G.Mul(env.G1, r, H));
  }

  lemma {:induction false} KeyPairs2<E1(!new), E2(!new), T, L, V(!new)>(
      env: Env<E1, E2, T, L, V>, sk: nat, r: nat, H: E2)
    requires Sound(env) && Exponent(env) && Bilinear(env) && env.inG2(H)
    ensures var sig := G.Mul(env.G2, r, G.Mul(env.G2, sk, H));
      && env.inG2(sig)
      && Pair(env, H, G.Mul(env.G1, r, G.Mul(env.G1, sk, env.gen1))) == Pair(env, sig, env.gen1)
  {
    SwapFactors(env.G1, r, sk, env.gen1);
    SwapFactors(env.G2, r, sk, H);
    PairTimes(env, r * sk, H, env.gen1);
    MultipleInside(env.G2, env.inG2, r * sk, H);
  }

  /** The pairing of a call is that of what it owes with the generator. */
  lemma {:induction false} OnePairs<E1(!new), E2(!new), T, L, V(!new)>(
      env: Env<E1, E2, T, L, V>, hash: bool, dst: seq<byte>, k: Mode, sk: Op<E1, E2> -> nat, op: Op<E1, E2>)
    requires Sound(env) && Exponent(env) && Bilinear(env) && k != Undefined && Multiplies(env.G1, env.mult1)
    requires Keyed(env, hash, dst, k, sk, op)
    ensures env.inG1(Owed1(env, hash, dst, sk, op)) && env.inG2(Owed2(env, hash, dst, sk, op))
    ensures env.finalExp(PairTerm(env, hash, dst, k, op)) ==
      if k == MinSig then Pair(env, env.gen2, Owed1(env, hash, dst, sk, op))
      else Pair(env, Owed2(env, hash, dst, sk, op), env.gen1)
  {
    PairWithZero(env, env.gen2, env.gen1);
    if PairOf(env, hash, dst, op).Some? {
      var (q, p) := PairOf(env, hash, dst, op).value;
      PairOfFinite(env, q, p);
      ScaledPair(env, hash, dst, op);
      if op.PkInG2? {
        KeyPairs1(env, sk(op), Factor(op.scalar), env.hash1(hash, Input(op.msg, dst, op.aug)));
      } else {
        KeyPairs2(env, sk(op), Factor(op.scalar), env.hash2(hash, Input(op.msg, dst, op.aug)));
      }
    }
  }

  ghost predicate AllKeyed<E1(!new), E2(!new), T, L, V>(
      env: Env<E1, E2, T, L, V>, hash: bool, dst: seq<byte>, k: Mode, sk: Op<E1, E2> -> nat, ops: seq<Op<E1, E2>>) {
    forall i :: 0 <= i < |ops| ==> Keyed(env, hash, dst, k, sk, ops[i])
  }

  /** Bilinearity carries this over to sum and product. */
  lemma {:induction false} SumPairs<E1(!new), E2(!new), T, L, V(!new)>(
      env: Env<E1, E2, T, L, V>, hash: bool, dst: seq<byte>, k: Mode, sk: Op<E1, E2> -> nat, ops: seq<Op<E1, E2>>)
    requires Sound(env) && Exponent(env) && Bilinear(env) && k != Undefined && Multiplies(env.G1, env.mult1)
    requires AllKeyed(env, hash, dst, k, sk, ops)
    ensures var s1, s2 := M.Total(AsMonoid(env.G1), AllOwed1(env, hash, dst, sk), ops),
        M.Total(AsMonoid(env.G2), AllOwed2(env, hash, dst, sk), ops);
      && env.inG1(s1) && env.inG2(s2)
      && M.Total(env.C.m, PairingTerms(env, hash, dst, k), ops) ==
         if k == MinSig then Pair(env, env.gen2, s1) else Pair(env, s2, env.gen1)
  {
    if ops == [] {
      PairWithZero(env, env.gen2, env.gen1);
    } else {
      var n := |ops| - 1;
      SumPairs(env, hash, dst, k, sk, ops[..n]);
      var s1, s2 := M.Total(AsMonoid(env.G1), AllOwed1(env, hash, dst, sk), ops[..n]),
        M.Total(AsMonoid(env.G2), AllOwed2(env, hash, dst, sk), ops[..n]);
      OnePairs(env, hash, dst, k, sk, ops[n]);
      PairAdds(env, env.gen2, env.gen2, s1, Owed1(env, hash, dst, sk, ops[n]));
      PairAdds(env, s2, Owed2(env, hash, dst, sk, ops[n]), env.gen1, env.gen1);
    }
  }

  lemma {:induction false} FiniteIsClean<E1, E2, T, L, V>(
      env: Env<E1, E2, T, L, V>, hash: bool, dst: seq<byte>, k: Mode, ops: seq<Op<E1, E2>>)
    requires forall i :: 0 <= i < |ops| ==> FinitePair(env, hash, dst, ops[i])
    ensures Clean(env, hash, dst, k, ops)
    ensures forall i :: 0 <= i < |Pending(env, hash, dst, k, ops)| ==>
      Finite(env, Pending(env, hash, dst, k, ops)[i])
  {
    if ops != [] {
      FiniteIsClean(env, hash, dst, k, ops[..|ops| - 1]);
    }
  }

  /** Different signatures pair differently with the generator. */
  ghost predicate NonDegenerate<E1(!new), E2(!new), T, L, V>(env: Env<E1, E2, T, L, V>) {
    forall q: E2, q': E2, p: E1, p': E1 {:trigger At(q, q', p, p')} ::
      && (env.inG1(p) && env.inG1(p') && Pair(env, env.gen2, p) == Pair(env, env.gen2, p') ==> p == p')
      && (env.inG2(q) && env.inG2(q') && Pair(env, q, env.gen1) == Pair(env, q', env.gen1) ==> q == q')
  }

  /** Sums of signatures that the verdict is about, in either group. */
  ghost predicate SumsAgree<E1, E2, T, L, V>(
      env: Env<E1, E2, T, L, V>, hash: bool, dst: seq<byte>, k: Mode, sk: Op<E1, E2> -> nat, ops: seq<Op<E1, E2>>,
      s1: E1, s2: E2) {
    if k == MinSig then s1 == M.Total(AsMonoid(env.G1), AllOwed1(env, hash, dst, sk), ops)
    else s2 == M.Total(AsMonoid(env.G2), AllOwed2(env, hash, dst, sk), ops)
  }

  /** The value that stands for a signature. */
  ghost function ValueFor<E1, E2, T, L, V>(env: Env<E1, E2, T, L, V>, k: Mode, s1: E1, s2: E2): V {
    if k == MinSig then LoopValue(env.C, [env.gen2], [s1]) else LoopValue(env.C, [s2], [env.gen1])
  }

  /** Keyed calls pair to the pairing of a signature exactly if it is the one they owe. */
  lemma {:induction false} PairsLikeOwed<E1(!new), E2(!new), T, L, V(!new)>(
      env: Env<E1, E2, T, L, V>, hash: bool, dst: seq<byte>, k: Mode, sk: Op<E1, E2> -> nat, ops: seq<Op<E1, E2>>,
      s1: E1, s2: E2)
    requires Sound(env) && Exponent(env) && Bilinear(env) && k != Undefined && Multiplies(env.G1, env.mult1)
    requires AllKeyed(env, hash, dst, k, sk, ops) && env.inG1(s1) && env.inG2(s2)
    ensures var same := env.finalExp(ValueFor(env, k, s1, s2)) ==
        env.finalExp(M.Total(env.C.m, PairTerms(env, hash, dst, k), ops));
      && (SumsAgree(env, hash, dst, k, sk, ops, s1, s2) ==> same)
      && (NonDegenerate(env) && same ==> SumsAgree(env, hash, dst, k, sk, ops, s1, s2))
  {
    SumPairs(env, hash, dst, k, sk, ops);
    M.TotalMapped(
      env.C.m, env.C.m, env.finalExp, PairTerms(env, hash, dst, k), PairingTerms(env, hash, dst, k), ops);
    assert At(s2, M.Total(AsMonoid(env.G2), AllOwed2(env, hash, dst, sk), ops),
      s1, M.Total(AsMonoid(env.G1), AllOwed1(env, hash, dst, sk), ops));
  }

  /** A committed run of keyed calls: no pair is lost. */
  lemma {:induction false} KeyedRun<E1(!new), E2(!new), T, L, V(!new)>(
      env: Env<E1, E2, T, L, V>, hash: bool, dst: seq<byte>, k: Mode, sk: Op<E1, E2> -> nat, ops: seq<Op<E1, E2>>)
    requires Sound(env) && k != Undefined && Committed(ops) && AllKeyed(env, hash, dst, k, sk, ops)
    ensures MeansAll(env, hash, dst, k, ops, Run(env, hash, dst, ops), Lost(env, hash, dst, k, ops))
    ensures Accumulated(env, Run(env, hash, dst, ops)) == M.Total(env.C.m, PairTerms(env, hash, dst, k), ops)
  {
    forall i | 0 <= i < |ops|
      ensures KindOf(ops[i]) in {Undefined, k} && FinitePair(env, hash, dst, ops[i])
    {
      assert Keyed(env, hash, dst, k, sk, ops[i]);
    }
    ShardMeans(env, hash, dst, k, ops);
    FiniteIsClean(env, hash, dst, k, ops);
    KindOfOneKind(k, ops);
    ProductExact(env, hash, dst, k, ops);
  }

  /**
   * The verdict on a committed run, whatever the keys, the scalars and the order of the calls: some
   * pair, and signatures that add up to what the keys owe. Acceptance needs bilinearity alone.
   */
  lemma {:induction false} AcceptedIffSigned<E1(!new), E2(!new), T, L, V(!new)>(
      env: Env<E1, E2, T, L, V>, hash: bool, dst: seq<byte>, k: Mode, sk: Op<E1, E2> -> nat, ops: seq<Op<E1, E2>>)
    requires Sound(env) && Exponent(env) && Bilinear(env) && k != Undefined && Multiplies(env.G1, env.mult1)
    requires Committed(ops) && AllKeyed(env, hash, dst, k, sk, ops)
    requires var c := Run(env, hash, dst, ops); env.inG1(Sum1(env, c)) && env.inG2(Sum2(env, c))
    ensures var c := Run(env, hash, dst, ops);
      var signed := (exists op :: op in ops && Contributes(env, hash, dst, k, op))
        && SumsAgree(env, hash, dst, k, sk, ops, Sum1(env, c), Sum2(env, c));
      && (signed ==> Verify(env, c, None)) && (NonDegenerate(env) && Verify(env, c, None) ==> signed)
  {
    var c := Run(env, hash, dst, ops);
    KeyedRun(env, hash, dst, k, sk, ops);
    PairsLikeOwed(env, hash, dst, k, sk, ops, Sum1(env, c), Sum2(env, c));
    VerdictCompares(env, k, c, env.C.m.one);
  }

  /** The same for an aggregated signature that is supplied as its Miller value. */
  lemma {:induction false} SuppliedIffSigned<E1(!new), E2(!new), T, L, V(!new)>(
      env: Env<E1, E2, T, L, V>, hash: bool, dst: seq<byte>, k: Mode, sk: Op<E1, E2> -> nat, ops: seq<Op<E1, E2>>,
      s1: E1, s2: E2)
    requires Sound(env) && Exponent(env) && Bilinear(env) && k != Undefined && Multiplies(env.G1, env.mult1)
    requires Committed(ops) && AllKeyed(env, hash, dst, k, sk, ops) && env.inG1(s1) && env.inG2(s2)
    ensures var accepts := Verify(env, Run(env, hash, dst, ops), Some(ValueFor(env, k, s1, s2)));
      var signed := (exists op :: op in ops && Contributes(env, hash, dst, k, op))
        && SumsAgree(env, hash, dst, k, sk, ops, s1, s2);
      && (signed ==> accepts) && (NonDegenerate(env) && accepts ==> signed)
  {
    KeyedRun(env, hash, dst, k, sk, ops);
    PairsLikeOwed(env, hash, dst, k, sk, ops, s1, s2);
    VerdictCompares(env, k, Run(env, hash, dst, ops), ValueFor(env, k, s1, s2));
  }

  /** A call that carries sk times its hash pays exactly what it owes. */
  lemma {:induction false} SignedPays<E1(!new), E2(!new), T, L, V(!new)>(
      env: Env<E1, E2, T, L, V>, hash: bool, dst: seq<byte>, sk: Op<E1, E2> -> nat, op: Op<E1, E2>)
    requires Sound(env) && Multiplies(env.G1, env.mult1) && Multiplies(env.G2, env.mult2)
    requires GoodKey(env, op) && OpFits(env, hash, dst, op)
    requires op.PkInG2? ==> op.sig1 == Some(G.Mul(env.G1, sk(op), env.hash1(hash, Input(op.msg, dst, op.aug))))
    requires op.PkInG1? ==> op.sig2 == Some(G.Mul(env.G2, sk(op), env.hash2(hash, Input(op.msg, dst, op.aug))))
    ensures SignTerm1(env, op) == Owed1(env, hash, dst, sk, op) && SignTerm2(env, op) == Owed2(env, hash, dst, sk, op)
  {
    SignTermMeans(env, hash, dst, op);
    G.MulOfZero(env.G1, Factor(op.scalar));
    G.MulOfZero(env.G2, Factor(op.scalar));
  }
}
