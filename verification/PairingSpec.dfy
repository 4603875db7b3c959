/**
 * Batched aggregate verification (external/blst/aggregate.c) on values: one step per call, whole
 * runs, and merging of contexts. The class in Pairing.dfy does the same in place.
 */
module PairingSpec {
  import opened ByteStrings
  import opened Miller
  import M = Monoids
  import G = Groups

  datatype Option<T> = None | Some(value: T)

  datatype Error = Success | PointNotInGroup | AggrTypeMismatch | PkIsInfinity

  datatype ScalarBits = ScalarBits(bytes: seq<byte>, nbits: nat)

  /** Message, domain separation tag and augmentation. */
  datatype Input = Input(msg: seq<byte>, dst: seq<byte>, aug: seq<byte>)

  /** The curve arithmetic that the calls rest on. The flag of a hash chooses hash or encode. */
  datatype Env<!E1, !E2, !T, !L, !V> = Env(
    C: Curve<E2, E1, T, L, V>,
    G1: G.Group<E1>,
    G2: G.Group<E2>,
    inG1: E1 -> bool,
    inG2: E2 -> bool,
    hash1: (bool, Input) -> E1,
    hash2: (bool, Input) -> E2,
    mult1: (seq<byte>, nat, E1) -> E1,    // POINTonE1_mult_w5: scalar, its length in bits, point
    mult2: (seq<byte>, nat, E2) -> E2,
    gen1: E1,
    gen2: E2,
    finalExp: V -> V)

  ghost predicate Sound<E1(!new), E2(!new), T, L, V(!new)>(env: Env<E1, E2, T, L, V>) {
    && Lawful(env.C) && G.Abelian(env.G1) && G.Abelian(env.G2)
    && (forall q :: env.C.qInf(q) <==> q == env.G2.zero)
    && (forall p :: env.C.pInf(p) <==> p == env.G1.zero)
  }

  /** MinSig: signatures in G1, keys in G2. MinPk: the other way round. */
  datatype Mode = Undefined | MinSig | MinPk

  datatype Sign<E1, E2> = NoSign | Sign1(e1: E1) | Sign2(e2: E2)

  datatype Ctx<E1, E2, V> = Ctx(
    mode: Mode, hash: bool, dst: seq<byte>, gt: Option<V>, sign: Sign<E1, E2>, qs: seq<E2>, ps: seq<E1>)

  datatype Op<E1, E2> =
    | PkInG2(pk2: Option<E2>, pkCheck: bool, sig1: Option<E1>, sigCheck: bool, scalar: Option<ScalarBits>,
      msg: seq<byte>, aug: seq<byte>)
    | PkInG1(pk1: Option<E1>, pkCheck: bool, sig2: Option<E2>, sigCheck: bool, scalar: Option<ScalarBits>,
      msg: seq<byte>, aug: seq<byte>)
    | Commit

  const N_MAX: nat := 8

  // ---- one call ----

  /** Nothing is multiplied where the scalar is NULL or has no bits. */
  function Scaled<X>(mult: (seq<byte>, nat, X) -> X, scalar: Option<ScalarBits>, x: X): X {
    if scalar.Some? && scalar.value.nbits != 0 then mult(scalar.value.bytes, scalar.value.nbits, x) else x
  }

  /** Multiplies the value of the buffer into GT. */
  ghost function Flush<E1, E2, T, L, V>(env: Env<E1, E2, T, L, V>, c: Ctx<E1, E2, V>): Ctx<E1, E2, V>
    requires |c.qs| == |c.ps|
  {
    var v := LoopValue(env.C, c.qs, c.ps);
    c.(gt := Some(if c.gt.Some? then env.C.m.mul(c.gt.value, v) else v), qs := [], ps := [])
  }

  ghost function Push<E1, E2, T, L, V>(env: Env<E1, E2, T, L, V>, c: Ctx<E1, E2, V>, q: E2, p: E1): Ctx<E1, E2, V>
    requires |c.qs| == |c.ps|
  {
    var d := c.(qs := c.qs + [q], ps := c.ps + [p]);
    if |d.qs| == N_MAX then Flush(env, d) else d
  }

  function AddSign1<E1, E2, T, L, V>(env: Env<E1, E2, T, L, V>, c: Ctx<E1, E2, V>, x: E1): Ctx<E1, E2, V> {
    c.(sign := Sign1(if c.sign.Sign1? then env.G1.add(c.sign.e1, x) else x))
  }

  function AddSign2<E1, E2, T, L, V>(env: Env<E1, E2, T, L, V>, c: Ctx<E1, E2, V>, x: E2): Ctx<E1, E2, V> {
    c.(sign := Sign2(if c.sign.Sign2? then env.G2.add(c.sign.e2, x) else x))
  }

  /** A key and its pair: the key is rejected when infinite, or outside its group if that is checked. */
  ghost function PushKey<E1, E2, T, L, V>(
      env: Env<E1, E2, T, L, V>, c: Ctx<E1, E2, V>, infinite: bool, outside: bool, q: E2, p: E1)
      : (Error, Ctx<E1, E2, V>)
    requires |c.qs| == |c.ps|
  {
    if infinite then (PkIsInfinity, c)
    else if outside then (PointNotInGroup, c)
    else (Success, Push(env, c, q, p))
  }

  /** The mode is set and the signature, unless infinite, checked and added; true if the check fails. */
  function SignPartG2<E1, E2, T, L, V>(
      env: Env<E1, E2, T, L, V>, c: Ctx<E1, E2, V>, op: Op<E1, E2>): (bool, Ctx<E1, E2, V>)
    requires op.PkInG2?
  {
    var c1 := c.(mode := MinSig);
    if op.sig1.None? || env.C.pInf(op.sig1.value) then (false, c1)
    else if op.sigCheck && !env.inG1(op.sig1.value) then (true, c1)
    else (false, AddSign1(env, c1, Scaled(env.mult1, op.scalar, op.sig1.value)))
  }

  ghost function KeyPartG2<E1, E2, T, L, V>(
      env: Env<E1, E2, T, L, V>, c: Ctx<E1, E2, V>, op: Op<E1, E2>): (Error, Ctx<E1, E2, V>)
    requires |c.qs| == |c.ps| && op.PkInG2?
  {
    if op.pk2.None? then (Success, c) else
    PushKey(env, c, env.C.qInf(op.pk2.value), op.pkCheck && !env.inG2(op.pk2.value),
      op.pk2.value, Scaled(env.mult1, op.scalar, env.hash1(c.hash, Input(op.msg, c.dst, op.aug))))
  }

  ghost function StepG2<E1, E2, T, L, V>(
      env: Env<E1, E2, T, L, V>, c: Ctx<E1, E2, V>, op: Op<E1, E2>): (Error, Ctx<E1, E2, V>)
    requires |c.qs| == |c.ps| && op.PkInG2?
  {
    if c.mode == MinPk then (AggrTypeMismatch, c) else
    var (bad, d) := SignPartG2(env, c, op);
    if bad then (PointNotInGroup, d) else KeyPartG2(env, d, op)
  }

  /** The mode is set and the signature, unless infinite, checked and added; true if the check fails. */
  function SignPartG1<E1, E2, T, L, V>(
      env: Env<E1, E2, T, L, V>, c: Ctx<E1, E2, V>, op: Op<E1, E2>): (bool, Ctx<E1, E2, V>)
    requires op.PkInG1?
  {
    var c1 := c.(mode := MinPk);
    if op.sig2.None? || env.C.qInf(op.sig2.value) then (false, c1)
    else if op.sigCheck && !env.inG2(op.sig2.value) then (true, c1)
    else (false, AddSign2(env, c1, Scaled(env.mult2, op.scalar, op.sig2.value)))
  }

  ghost function KeyPartG1<E1, E2, T, L, V>(
      env: Env<E1, E2, T, L, V>, c: Ctx<E1, E2, V>, op: Op<E1, E2>): (Error, Ctx<E1, E2, V>)
    requires |c.qs| == |c.ps| && op.PkInG1?
  {
    if op.pk1.None? then (Success, c) else
    PushKey(env, c, env.C.pInf(op.pk1.value), op.pkCheck && !env.inG1(op.pk1.value),
      env.hash2(c.hash, Input(op.msg, c.dst, op.aug)), Scaled(env.mult1, op.scalar, op.pk1.value))
  }

  ghost function StepG1<E1, E2, T, L, V>(
      env: Env<E1, E2, T, L, V>, c: Ctx<E1, E2, V>, op: Op<E1, E2>): (Error, Ctx<E1, E2, V>)
    requires |c.qs| == |c.ps| && op.PkInG1?
  {
    if c.mode == MinSig then (AggrTypeMismatch, c) else
    var (bad, d) := SignPartG1(env, c, op);
    if bad then (PointNotInGroup, d) else KeyPartG1(env, d, op)
  }

  ghost function CommitStep<E1, E2, T, L, V>(env: Env<E1, E2, T, L, V>, c: Ctx<E1, E2, V>): Ctx<E1, E2, V>
    requires |c.qs| == |c.ps|
  {
    if |c.qs| != 0 then Flush(env, c) else c
  }

  ghost function Step<E1, E2, T, L, V>(
      env: Env<E1, E2, T, L, V>, c: Ctx<E1, E2, V>, op: Op<E1, E2>): (Error, Ctx<E1, E2, V>)
    requires |c.qs| == |c.ps|
  {
    match op
    case PkInG2(_, _, _, _, _, _, _) => StepG2(env, c, op)
    case PkInG1(_, _, _, _, _, _, _) => StepG1(env, c, op)
    case Commit => (Success, CommitStep(env, c))
  }

  function KindOf<E1, E2>(op: Op<E1, E2>): Mode {
    match op
    case PkInG2(_, _, _, _, _, _, _) => MinSig
    case PkInG1(_, _, _, _, _, _, _) => MinPk
    case Commit => Undefined
  }

  /** No mode is left again, and each kind of signature belongs to one mode. */
  ghost predicate Ok<E1, E2, V>(c: Ctx<E1, E2, V>) {
    && |c.qs| == |c.ps| < N_MAX
    && (c.sign.Sign1? ==> c.mode == MinSig)
    && (c.sign.Sign2? ==> c.mode == MinPk)
    && (c.mode == Undefined ==> c.gt.None? && c.qs == [])
  }

  /** d is c with other GT and other buffered pairs. */
  ghost predicate SamePlan<E1, E2, V>(c: Ctx<E1, E2, V>, d: Ctx<E1, E2, V>) {
    d.mode == c.mode && d.hash == c.hash && d.dst == c.dst && d.sign == c.sign
  }

  lemma PushKeyKeeps<E1, E2, T, L, V>(
      env: Env<E1, E2, T, L, V>, c: Ctx<E1, E2, V>, infinite: bool, outside: bool, q: E2, p: E1)
    requires Ok(c) && c.mode != Undefined
    ensures Ok(PushKey(env, c, infinite, outside, q, p).1) && SamePlan(c, PushKey(env, c, infinite, outside, q, p).1)
  {
  }

  lemma StepKeepsOk<E1, E2, T, L, V>(env: Env<E1, E2, T, L, V>, c: Ctx<E1, E2, V>, op: Op<E1, E2>)
    requires Ok(c)
    ensures Ok(Step(env, c, op).1) && Step(env, c, op).1.hash == c.hash && Step(env, c, op).1.dst == c.dst
    ensures Step(env, c, op).1.mode == if c.mode == Undefined then KindOf(op) else c.mode
  {
    if op.PkInG2? {
      StepG2Keeps(env, c, op);
    } else if op.PkInG1? {
      StepG1Keeps(env, c, op);
    }
  }

  lemma StepG2Keeps<E1, E2, T, L, V>(env: Env<E1, E2, T, L, V>, c: Ctx<E1, E2, V>, op: Op<E1, E2>)
    requires Ok(c) && op.PkInG2?
    ensures Ok(StepG2(env, c, op).1) && StepG2(env, c, op).1.hash == c.hash && StepG2(env, c, op).1.dst == c.dst
    ensures StepG2(env, c, op).1.mode == if c.mode == Undefined then MinSig else c.mode
  {
    var d := SignPartG2(env, c, op).1;
    if c.mode in {Undefined, MinSig} && op.pk2.Some? {
      PushKeyKeeps(env, d, env.C.qInf(op.pk2.value), op.pkCheck && !env.inG2(op.pk2.value),
        op.pk2.value, Scaled(env.mult1, op.scalar, env.hash1(c.hash, Input(op.msg, c.dst, op.aug))));
    }
  }

  lemma StepG1Keeps<E1, E2, T, L, V>(env: Env<E1, E2, T, L, V>, c: Ctx<E1, E2, V>, op: Op<E1, E2>)
    requires Ok(c) && op.PkInG1?
    ensures Ok(StepG1(env, c, op).1) && StepG1(env, c, op).1.hash == c.hash && StepG1(env, c, op).1.dst == c.dst
    ensures StepG1(env, c, op).1.mode == if c.mode == Undefined then MinPk else c.mode
  {
    var d := SignPartG1(env, c, op).1;
    if c.mode in {Undefined, MinPk} && op.pk1.Some? {
      PushKeyKeeps(env, d, env.C.pInf(op.pk1.value), op.pkCheck && !env.inG1(op.pk1.value),
        env.hash2(c.hash, Input(op.msg, c.dst, op.aug)), Scaled(env.mult1, op.scalar, op.pk1.value));
    }
  }

  // ---- whole runs ----

  function Init<E1, E2, V>(hash: bool, dst: seq<byte>): Ctx<E1, E2, V> {
    Ctx(Undefined, hash, dst, None, NoSign, [], [])
  }

  ghost function Run<E1, E2, T, L, V>(
      env: Env<E1, E2, T, L, V>, hash: bool, dst: seq<byte>, ops: seq<Op<E1, E2>>): (c: Ctx<E1, E2, V>)
    ensures Ok(c) && c.hash == hash && c.dst == dst
  {
    if ops == [] then Init(hash, dst)
    else
      var c := Run(env, hash, dst, ops[..|ops| - 1]);
      StepKeepsOk(env, c, ops[|ops| - 1]);
      Step(env, c, ops[|ops| - 1]).1
  }

  /** The kind of the first aggregation in a run. */
  function Kind<E1, E2>(ops: seq<Op<E1, E2>>): Mode {
    if ops == [] then Undefined
    else if KindOf(ops[0]) != Undefined then KindOf(ops[0])
    else Kind(ops[1..])
  }

  lemma {:induction false} KindSnoc<E1, E2>(ops: seq<Op<E1, E2>>)
    requires ops != []
    ensures Kind(ops) == if Kind(ops[..|ops| - 1]) != Undefined then Kind(ops[..|ops| - 1]) else KindOf(ops[|ops| - 1])
  {
    if |ops| > 1 {
      assert ops[..|ops| - 1][1..] == ops[1..][..|ops| - 2];
      KindSnoc(ops[1..]);
    }
  }

  /** The signature an aggregation adds, if any: finite, and in its group when that is checked. */
  function Signature1<E1, E2, T, L, V>(env: Env<E1, E2, T, L, V>, op: Op<E1, E2>): Option<E1> {
    if op.PkInG2? && op.sig1.Some? && !env.C.pInf(op.sig1.value) && (op.sigCheck ==> env.inG1(op.sig1.value))
    then Some(Scaled(env.mult1, op.scalar, op.sig1.value)) else None
  }

  function Signature2<E1, E2, T, L, V>(env: Env<E1, E2, T, L, V>, op: Op<E1, E2>): Option<E2> {
    if op.PkInG1? && op.sig2.Some? && !env.C.qInf(op.sig2.value) && (op.sigCheck ==> env.inG2(op.sig2.value))
    then Some(Scaled(env.mult2, op.scalar, op.sig2.value)) else None
  }

  /** The signature of the call is absent or passes its group check. */
  predicate SignaturePasses<E1, E2, T, L, V>(env: Env<E1, E2, T, L, V>, op: Op<E1, E2>) {
    match op
    case PkInG2(_, _, sig, sigCheck, _, _, _) =>
      sig.Some? && sigCheck && !env.C.pInf(sig.value) ==> env.inG1(sig.value)
    case PkInG1(_, _, sig, sigCheck, _, _, _) =>
      sig.Some? && sigCheck && !env.C.qInf(sig.value) ==> env.inG2(sig.value)
    case Commit => true
  }

  /** The pair an aggregation contributes, if any: a finite key, in its group when that is checked, with the hash. */
  function PairOf<E1, E2, T, L, V>(
      env: Env<E1, E2, T, L, V>, hash: bool, dst: seq<byte>, op: Op<E1, E2>): Option<(E2, E1)> {
    if !SignaturePasses(env, op) then None else
    match op
    case PkInG2(pk, pkCheck, _, _, scalar, msg, aug) =>
      if pk.Some? && !env.C.qInf(pk.value) && (pkCheck ==> env.inG2(pk.value))
      then Some((pk.value, Scaled(env.mult1, scalar, env.hash1(hash, Input(msg, dst, aug))))) else None
    case PkInG1(pk, pkCheck, _, _, scalar, msg, aug) =>
      if pk.Some? && !env.C.pInf(pk.value) && (pkCheck ==> env.inG1(pk.value))
      then Some((env.hash2(hash, Input(msg, dst, aug)), Scaled(env.mult1, scalar, pk.value))) else None
    case Commit => None
  }

  predicate Finite<E1, E2, T, L, V>(env: Env<E1, E2, T, L, V>, pair: (E2, E1)) {
    !env.C.qInf(pair.0) && !env.C.pInf(pair.1)
  }

  /** The pair of a batch that holds nothing but one pair with a point at infinity: the loop takes it for 1. */
  ghost predicate LoneInfinite<E1, E2, T, L, V>(env: Env<E1, E2, T, L, V>, pairs: seq<(E2, E1)>) {
    |pairs| == 1 && !Finite(env, pairs[0])
  }

  /** The product of the single-pair loops. */
  ghost function PairProduct<E1, E2, T, L, V>(env: Env<E1, E2, T, L, V>, pairs: seq<(E2, E1)>): V {
    M.Product(env.C.m, Each(env, pairs))
  }

  ghost function Each<E1, E2, T, L, V>(env: Env<E1, E2, T, L, V>, pairs: seq<(E2, E1)>): seq<V> {
    seq(|pairs|, i requires 0 <= i < |pairs| => Single(env.C, pairs[i].0, pairs[i].1))
  }

  /** What its single-pair loop would have given. */
  ghost function LoneValue<E1, E2, T, L, V>(env: Env<E1, E2, T, L, V>, pairs: seq<(E2, E1)>): V {
    if LoneInfinite(env, pairs) then PairProduct(env, pairs) else env.C.m.one
  }

  lemma {:induction false} PairProductConcat<E1, E2, T, L, V(!new)>(
      env: Env<E1, E2, T, L, V>, a: seq<(E2, E1)>, b: seq<(E2, E1)>)
    requires Lawful(env.C)
    ensures PairProduct(env, a + b) == env.C.m.mul(PairProduct(env, a), PairProduct(env, b))
  {
    assert Each(env, a + b) == Each(env, a) + Each(env, b);
    M.ProductConcat(env.C.m, Each(env, a), Each(env, b));
  }

  ghost function Zip<X, Y>(xs: seq<X>, ys: seq<Y>): (r: seq<(X, Y)>)
    requires |xs| == |ys|
    ensures |r| == |xs| && forall i :: 0 <= i < |r| ==> r[i] == (xs[i], ys[i])
  {
    seq(|xs|, i requires 0 <= i < |xs| => (xs[i], ys[i]))
  }

  /** The accumulated GT times the Miller value of the buffered pairs. */
  ghost function Accumulated<E1, E2, T, L, V>(env: Env<E1, E2, T, L, V>, c: Ctx<E1, E2, V>): V
    requires |c.qs| == |c.ps|
  {
    env.C.m.mul(if c.gt.Some? then c.gt.value else env.C.m.one, PairProduct(env, Zip(c.qs, c.ps)))
  }

  lemma {:induction false} LoopIsPairProduct<E1, E2, T, L, V(!new)>(env: Env<E1, E2, T, L, V>, qs: seq<E2>, ps: seq<E1>)
    requires Lawful(env.C) && |qs| == |ps|
    ensures env.C.m.mul(LoopValue(env.C, qs, ps), LoneValue(env, Zip(qs, ps))) == PairProduct(env, Zip(qs, ps))
  {
    var z := Zip(qs, ps);
    var v := PairProduct(env, z);
    M.Laws(env.C.m, v, env.C.m.one, v);
    M.Laws(env.C.m, env.C.m.one, v, v);
    if !LoneInfinite(env, z) {
      assert Singles(env.C, qs, ps) == Each(env, z);
    }
  }

  /** Emptying the buffer keeps the product, but for a lone infinite pair. */
  lemma {:induction false} FlushKeeps<E1, E2, T, L, V(!new)>(env: Env<E1, E2, T, L, V>, c: Ctx<E1, E2, V>)
    requires Lawful(env.C) && |c.qs| == |c.ps|
    ensures env.C.m.mul(Accumulated(env, Flush(env, c)), LoneValue(env, Zip(c.qs, c.ps))) == Accumulated(env, c)
  {
    LoopIsPairProduct(env, c.qs, c.ps);
    var m, l, v := env.C.m, LoneValue(env, Zip(c.qs, c.ps)), LoopValue(env.C, c.qs, c.ps);
    var g := if c.gt.Some? then c.gt.value else m.one;
    M.Laws(m, v, m.one, v);
    M.Laws(m, g, v, l);
    M.Laws(m, m.mul(g, v), m.one, v);
    assert Each(env, Zip<E2, E1>([], [])) == [];
  }

  lemma {:induction false} PushMultiplies<E1, E2, T, L, V(!new)>(
      env: Env<E1, E2, T, L, V>, c: Ctx<E1, E2, V>, q: E2, p: E1)
    requires Lawful(env.C) && |c.qs| == |c.ps|
    ensures Accumulated(env, Push(env, c, q, p)) == env.C.m.mul(Accumulated(env, c), PairProduct(env, [(q, p)]))
  {
    var d := c.(qs := c.qs + [q], ps := c.ps + [p]);
    var m := env.C.m;
    assert Zip(d.qs, d.ps) == Zip(c.qs, c.ps) + [(q, p)];
    PairProductConcat(env, Zip(c.qs, c.ps), [(q, p)]);
    M.Laws(m, if c.gt.Some? then c.gt.value else m.one, PairProduct(env, Zip(c.qs, c.ps)), PairProduct(env, [(q, p)]));
    if |d.qs| == N_MAX {
      FlushKeeps(env, d);
      M.Laws(m, Accumulated(env, Flush(env, d)), m.one, m.one);
    }
  }
}
