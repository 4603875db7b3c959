/** What whole runs of aggregate, commit and merge calls compute (external/blst/aggregate.c). */
module PairingRuns {
  import opened ByteStrings
  import opened Miller
  import opened PairingSpec
  import M = Monoids
  import G = Groups

  // ---- what each call contributes ----

  /** The operation contributes a pair to a run in mode k. */
  predicate Contributes<E1, E2, T, L, V>(
      env: Env<E1, E2, T, L, V>, hash: bool, dst: seq<byte>, k: Mode, op: Op<E1, E2>) {
    KindOf(op) == k && PairOf(env, hash, dst, op).Some?
  }

  function ValueOf<E1, E2, T, L, V>(env: Env<E1, E2, T, L, V>, pair: Option<(E2, E1)>): V {
    if pair.Some? then Single(env.C, pair.value.0, pair.value.1) else env.C.m.one
  }

  function PairTerm<E1, E2, T, L, V>(
      env: Env<E1, E2, T, L, V>, hash: bool, dst: seq<byte>, k: Mode, op: Op<E1, E2>): V {
    if KindOf(op) == k then ValueOf(env, PairOf(env, hash, dst, op)) else env.C.m.one
  }

  function PairTerms<E1, E2, T, L, V>(env: Env<E1, E2, T, L, V>, hash: bool, dst: seq<byte>, k: Mode): Op<E1, E2> -> V {
    op => PairTerm(env, hash, dst, k, op)
  }

  function SignTerm1<E1, E2, T, L, V>(env: Env<E1, E2, T, L, V>, op: Op<E1, E2>): E1 {
    if Signature1(env, op).Some? then Signature1(env, op).value else env.G1.zero
  }

  function SignTerm2<E1, E2, T, L, V>(env: Env<E1, E2, T, L, V>, op: Op<E1, E2>): E2 {
    if Signature2(env, op).Some? then Signature2(env, op).value else env.G2.zero
  }

  function SignTerms1<E1, E2, T, L, V>(env: Env<E1, E2, T, L, V>): Op<E1, E2> -> E1 {
    op => SignTerm1(env, op)
  }

  function SignTerms2<E1, E2, T, L, V>(env: Env<E1, E2, T, L, V>): Op<E1, E2> -> E2 {
    op => SignTerm2(env, op)
  }

  function AsMonoid<X>(g: G.Group<X>): M.Monoid<X> {
    M.Monoid(g.zero, g.add)
  }

  lemma GroupIsMonoid<X(!new)>(g: G.Group<X>)
    requires G.Abelian(g)
    ensures M.Commutative(AsMonoid(g))
  {
    var m := AsMonoid(g);
    forall x: X, y: X, z: X
      ensures m.mul(m.mul(x, y), z) == m.mul(x, m.mul(y, z))
    {
      G.Laws(g, x, y, z);
    }
    forall x: X, y: X
      ensures m.mul(x, y) == m.mul(y, x)
    {
      G.Laws(g, x, y, x);
    }
    forall x: X
      ensures m.mul(x, m.one) == x
    {
      G.Laws(g, x, x, x);
    }
  }

  /** Sums of signatures; no signature counts as the point at infinity. */
  function Sum1<E1, E2, T, L, V>(env: Env<E1, E2, T, L, V>, c: Ctx<E1, E2, V>): E1 {
    if c.sign.Sign1? then c.sign.e1 else env.G1.zero
  }

  function Sum2<E1, E2, T, L, V>(env: Env<E1, E2, T, L, V>, c: Ctx<E1, E2, V>): E2 {
    if c.sign.Sign2? then c.sign.e2 else env.G2.zero
  }

  predicate HasPair<E1, E2, V>(c: Ctx<E1, E2, V>) {
    c.gt.Some? || c.qs != []
  }

  /** The pair of the operation, if it contributes one, is finite. */
  predicate FinitePair<E1, E2, T, L, V>(env: Env<E1, E2, T, L, V>, hash: bool, dst: seq<byte>, op: Op<E1, E2>) {
    PairOf(env, hash, dst, op).Some? ==> Finite(env, PairOf(env, hash, dst, op).value)
  }

  // ---- one call ----

  /** Two contexts with the same GT and buffer. */
  lemma SameAccumulated<E1, E2, T, L, V>(env: Env<E1, E2, T, L, V>, c: Ctx<E1, E2, V>, d: Ctx<E1, E2, V>)
    requires |c.qs| == |c.ps| && c.gt == d.gt && c.qs == d.qs && c.ps == d.ps
    ensures Accumulated(env, c) == Accumulated(env, d)
  {
  }

  lemma {:induction false} PairProductOne<E1, E2, T, L, V(!new)>(env: Env<E1, E2, T, L, V>, q: E2, p: E1)
    requires Lawful(env.C)
    ensures PairProduct(env, [(q, p)]) == Single(env.C, q, p)
  {
    assert Each(env, [(q, p)]) == [Single(env.C, q, p)];
    M.ProductOne(env.C.m, Single(env.C, q, p));
  }

  /** The buffer with one more pair: the eighth empties it. */
  ghost function Grown<X>(pairs: seq<X>, x: X): seq<X> {
    if |pairs| + 1 == N_MAX then [] else pairs + [x]
  }

  /** d is c after one more pair, or after none. */
  ghost predicate Took<E1, E2, T, L, V>(
      env: Env<E1, E2, T, L, V>, c: Ctx<E1, E2, V>, pair: Option<(E2, E1)>, d: Ctx<E1, E2, V>) {
    && |c.qs| == |c.ps| && |d.qs| == |d.ps| && SamePlan(c, d)
    && Zip(d.qs, d.ps) == (if pair.Some? then Grown(Zip(c.qs, c.ps), pair.value) else Zip(c.qs, c.ps))
    && Accumulated(env, d) == env.C.m.mul(Accumulated(env, c), ValueOf(env, pair))
    && (HasPair(d) <==> HasPair(c) || pair.Some?)
  }

  /** A key pushed multiplies the accumulated value by its pair's, and a rejected one changes nothing. */
  lemma {:induction false} PushKeyMeaning<E1, E2, T, L, V(!new)>(
      env: Env<E1, E2, T, L, V>, c: Ctx<E1, E2, V>, infinite: bool, outside: bool, q: E2, p: E1)
    requires Lawful(env.C) && Ok(c)
    ensures Took(env, c, if infinite || outside then None else Some((q, p)), PushKey(env, c, infinite, outside, q, p).1)
  {
    if infinite || outside {
      M.Laws(env.C.m, Accumulated(env, c), env.C.m.one, env.C.m.one);
    } else {
      PushMultiplies(env, c, q, p);
      PairProductOne(env, q, p);
      assert Zip(c.qs + [q], c.ps + [p]) == Zip(c.qs, c.ps) + [(q, p)];
      assert Zip<E2, E1>([], []) == [];
    }
  }

  /** The buffer after an operation. */
  ghost function Buffered<E1, E2, T, L, V>(
      env: Env<E1, E2, T, L, V>, hash: bool, dst: seq<byte>, k: Mode, pairs: seq<(E2, E1)>,
      op: Op<E1, E2>): seq<(E2, E1)> {
    if op.Commit? then []
    else if Contributes(env, hash, dst, k, op) then Grown(pairs, PairOf(env, hash, dst, op).value)
    else pairs
  }

  /** What the loop leaves out of the product: a pair with a point at infinity, committed alone. */
  ghost function LostBy<E1, E2, T, L, V>(env: Env<E1, E2, T, L, V>, pairs: seq<(E2, E1)>, op: Op<E1, E2>): V {
    if op.Commit? then LoneValue(env, pairs) else env.C.m.one
  }

  /** What a call may change: GT and buffer by the pair, the mode if it is not yet set. */
  ghost predicate Advanced<E1, E2, T, L, V>(
      env: Env<E1, E2, T, L, V>, k: Mode, c: Ctx<E1, E2, V>, op: Op<E1, E2>, d: Ctx<E1, E2, V>) {
    && Ok(d) && |c.qs| == |c.ps|
    && Zip(d.qs, d.ps) == Buffered(env, c.hash, c.dst, k, Zip(c.qs, c.ps), op)
    && d.mode == (if c.mode == Undefined then KindOf(op) else c.mode)
    && env.C.m.mul(Accumulated(env, d), LostBy(env, Zip(c.qs, c.ps), op))
       == env.C.m.mul(Accumulated(env, c), PairTerm(env, c.hash, c.dst, k, op))
    && (HasPair(d) <==> HasPair(c) || Contributes(env, c.hash, c.dst, k, op))
    && (k == MinSig ==> Sum1(env, d) == env.G1.add(Sum1(env, c), SignTerm1(env, op)))
    && (k == MinPk ==> Sum2(env, d) == env.G2.add(Sum2(env, c), SignTerm2(env, op)))
  }

  lemma TookNothing<E1, E2, T, L, V(!new)>(env: Env<E1, E2, T, L, V>, c: Ctx<E1, E2, V>)
    requires Lawful(env.C) && Ok(c)
    ensures Took(env, c, None, c)
  {
    M.Laws(env.C.m, Accumulated(env, c), env.C.m.one, env.C.m.one);
  }

  /** The signature taken into d, then the pair into e. */
  lemma TookAdvances<E1, E2, T, L, V(!new)>(
      env: Env<E1, E2, T, L, V>, k: Mode, c: Ctx<E1, E2, V>, d: Ctx<E1, E2, V>, e: Ctx<E1, E2, V>, op: Op<E1, E2>)
    requires Lawful(env.C) && !op.Commit? && KindOf(op) == k && Ok(c) && Ok(e) && c.mode in {Undefined, k}
    requires d == c.(mode := k, sign := d.sign) && Took(env, d, PairOf(env, c.hash, c.dst, op), e)
    requires k == MinSig ==> Sum1(env, d) == env.G1.add(Sum1(env, c), SignTerm1(env, op))
    requires k == MinPk ==> Sum2(env, d) == env.G2.add(Sum2(env, c), SignTerm2(env, op))
    ensures Advanced(env, k, c, op, e)
  {
    TookAs(env, c, d, e, PairOf(env, c.hash, c.dst, op));
  }

  lemma TookAs<E1, E2, T, L, V(!new)>(
      env: Env<E1, E2, T, L, V>, c: Ctx<E1, E2, V>, d: Ctx<E1, E2, V>, e: Ctx<E1, E2, V>, pair: Option<(E2, E1)>)
    requires Lawful(env.C) && Ok(c) && d == c.(mode := d.mode, sign := d.sign) && Took(env, d, pair, e)
    ensures |e.qs| == |e.ps| && e.mode == d.mode && e.sign == d.sign && (HasPair(e) <==> HasPair(c) || pair.Some?)
    ensures Zip(e.qs, e.ps) == if pair.Some? then Grown(Zip(c.qs, c.ps), pair.value) else Zip(c.qs, c.ps)
    ensures env.C.m.mul(Accumulated(env, e), env.C.m.one) == env.C.m.mul(Accumulated(env, c), ValueOf(env, pair))
  {
    SameAccumulated(env, c, d);
    M.Laws(env.C.m, Accumulated(env, e), env.C.m.one, env.C.m.one);
  }

  lemma Sum1Grows<E1(!new), E2(!new), T, L, V(!new)>(env: Env<E1, E2, T, L, V>, c: Ctx<E1, E2, V>, x: E1)
    requires Sound(env) && Ok(c) && c.mode != MinPk
    ensures Sum1(env, AddSign1(env, c, x)) == env.G1.add(Sum1(env, c), x)
    ensures Sum1(env, c) == env.G1.add(Sum1(env, c), env.G1.zero)
  {
    G.Laws(env.G1, x, env.G1.zero, x);
    G.Laws(env.G1, Sum1(env, c), x, x);
  }

  lemma Sum2Grows<E1(!new), E2(!new), T, L, V(!new)>(env: Env<E1, E2, T, L, V>, c: Ctx<E1, E2, V>, x: E2)
    requires Sound(env) && Ok(c) && c.mode != MinSig
    ensures Sum2(env, AddSign2(env, c, x)) == env.G2.add(Sum2(env, c), x)
    ensures Sum2(env, c) == env.G2.add(Sum2(env, c), env.G2.zero)
  {
    G.Laws(env.G2, x, env.G2.zero, x);
    G.Laws(env.G2, Sum2(env, c), x, x);
  }

  lemma KeyPartG2Meaning<E1(!new), E2(!new), T, L, V(!new)>(
      env: Env<E1, E2, T, L, V>, c: Ctx<E1, E2, V>, op: Op<E1, E2>)
    requires Lawful(env.C) && Ok(c) && op.PkInG2? && SignaturePasses(env, op)
    ensures Took(env, c, PairOf(env, c.hash, c.dst, op), KeyPartG2(env, c, op).1)
  {
    if op.pk2.None? {
      M.Laws(env.C.m, Accumulated(env, c), env.C.m.one, env.C.m.one);
    } else {
      PushKeyMeaning(env, c, env.C.qInf(op.pk2.value), op.pkCheck && !env.inG2(op.pk2.value),
        op.pk2.value, Scaled(env.mult1, op.scalar, env.hash1(c.hash, Input(op.msg, c.dst, op.aug))));
    }
  }

  lemma SignPartG2Meaning<E1(!new), E2(!new), T, L, V(!new)>(
      env: Env<E1, E2, T, L, V>, c: Ctx<E1, E2, V>, op: Op<E1, E2>)
    requires Sound(env) && Ok(c) && op.PkInG2? && c.mode != MinPk
    ensures SignPartG2(env, c, op).0 <==> !SignaturePasses(env, op)
    ensures var d := SignPartG2(env, c, op).1;
      && Ok(d) && d == c.(mode := MinSig, sign := d.sign)
      && Sum1(env, d) == env.G1.add(Sum1(env, c), SignTerm1(env, op))
  {
    Sum1Grows(env, c, SignTerm1(env, op));
  }

  /** An aggregation with the key in G2, in a context that is not for keys in the other group. */
  lemma StepG2Meaning<E1(!new), E2(!new), T, L, V(!new)>(env: Env<E1, E2, T, L, V>, c: Ctx<E1, E2, V>, op: Op<E1, E2>)
    requires Sound(env) && Ok(c) && op.PkInG2? && c.mode != MinPk
    ensures Advanced(env, MinSig, c, op, StepG2(env, c, op).1)
  {
    StepG2Keeps(env, c, op);
    SignPartG2Meaning(env, c, op);
    var d, e := SignPartG2(env, c, op).1, StepG2(env, c, op).1;
    if SignaturePasses(env, op) {
      KeyPartG2Meaning(env, d, op);
    } else {
      TookNothing(env, d);
    }
    TookAdvances(env, MinSig, c, d, e, op);
  }

  lemma KeyPartG1Meaning<E1(!new), E2(!new), T, L, V(!new)>(
      env: Env<E1, E2, T, L, V>, c: Ctx<E1, E2, V>, op: Op<E1, E2>)
    requires Lawful(env.C) && Ok(c) && op.PkInG1? && SignaturePasses(env, op)
    ensures Took(env, c, PairOf(env, c.hash, c.dst, op), KeyPartG1(env, c, op).1)
  {
    if op.pk1.None? {
      M.Laws(env.C.m, Accumulated(env, c), env.C.m.one, env.C.m.one);
    } else {
      PushKeyMeaning(env, c, env.C.pInf(op.pk1.value), op.pkCheck && !env.inG1(op.pk1.value),
        env.hash2(c.hash, Input(op.msg, c.dst, op.aug)), Scaled(env.mult1, op.scalar, op.pk1.value));
    }
  }

  lemma SignPartG1Meaning<E1(!new), E2(!new), T, L, V(!new)>(
      env: Env<E1, E2, T, L, V>, c: Ctx<E1, E2, V>, op: Op<E1, E2>)
    requires Sound(env) && Ok(c) && op.PkInG1? && c.mode != MinSig
    ensures SignPartG1(env, c, op).0 <==> !SignaturePasses(env, op)
    ensures var d := SignPartG1(env, c, op).1;
      && Ok(d) && d == c.(mode := MinPk, sign := d.sign)
      && Sum2(env, d) == env.G2.add(Sum2(env, c), SignTerm2(env, op))
  {
    Sum2Grows(env, c, SignTerm2(env, op));
  }

  /** An aggregation with the key in G1, in a context that is not for keys in the other group. */
  lemma StepG1Meaning<E1(!new), E2(!new), T, L, V(!new)>(env: Env<E1, E2, T, L, V>, c: Ctx<E1, E2, V>, op: Op<E1, E2>)
    requires Sound(env) && Ok(c) && op.PkInG1? && c.mode != MinSig
    ensures Advanced(env, MinPk, c, op, StepG1(env, c, op).1)
  {
    StepG1Keeps(env, c, op);
    SignPartG1Meaning(env, c, op);
    var d, e := SignPartG1(env, c, op).1, StepG1(env, c, op).1;
    if SignaturePasses(env, op) {
      KeyPartG1Meaning(env, d, op);
    } else {
      TookNothing(env, d);
    }
    TookAdvances(env, MinPk, c, d, e, op);
  }

  /** A call that contributes nothing and at most commits. */
  lemma IdleMeaning<E1(!new), E2(!new), T, L, V(!new)>(
      env: Env<E1, E2, T, L, V>, k: Mode, c: Ctx<E1, E2, V>, op: Op<E1, E2>)
    requires Sound(env) && Ok(c) && k != Undefined
    requires op.Commit? || (c.mode == k && KindOf(op) != k)
    ensures Advanced(env, k, c, op, Step(env, c, op).1)
  {
    M.Laws(env.C.m, Accumulated(env, c), env.C.m.one, env.C.m.one);
    G.Laws(env.G1, Sum1(env, c), env.G1.zero, env.G1.zero);
    G.Laws(env.G2, Sum2(env, c), env.G2.zero, env.G2.zero);
    if op.Commit? {
      FlushKeeps(env, c);
      assert Zip<E2, E1>([], []) == [];
    }
  }

  lemma StepMeaning<E1(!new), E2(!new), T, L, V(!new)>(
      env: Env<E1, E2, T, L, V>, k: Mode, c: Ctx<E1, E2, V>, op: Op<E1, E2>)
    requires Sound(env) && Ok(c) && k != Undefined
    requires c.mode == k || (c.mode == Undefined && KindOf(op) in {Undefined, k})
    ensures Advanced(env, k, c, op, Step(env, c, op).1)
  {
    if KindOf(op) != k {
      IdleMeaning(env, k, c, op);
    } else if op.PkInG2? {
      StepG2Meaning(env, c, op);
    } else {
      StepG1Meaning(env, c, op);
    }
  }

  // ---- whole runs ----

  /** The pairs in the buffer after a run in mode k. */
  ghost function Pending<E1, E2, T, L, V>(
      env: Env<E1, E2, T, L, V>, hash: bool, dst: seq<byte>, k: Mode, ops: seq<Op<E1, E2>>): seq<(E2, E1)> {
    if ops == [] then []
    else Buffered(env, hash, dst, k, Pending(env, hash, dst, k, ops[..|ops| - 1]), ops[|ops| - 1])
  }

  /** The product of the pairs that the commits of a run leave out. */
  ghost function Lost<E1, E2, T, L, V>(
      env: Env<E1, E2, T, L, V>, hash: bool, dst: seq<byte>, k: Mode, ops: seq<Op<E1, E2>>): V {
    if ops == [] then env.C.m.one
    else
      var before := ops[..|ops| - 1];
      env.C.m.mul(Lost(env, hash, dst, k, before), LostBy(env, Pending(env, hash, dst, k, before), ops[|ops| - 1]))
  }

  /** No commit meets a buffer of exactly one pair with a point at infinity. */
  ghost predicate Clean<E1, E2, T, L, V>(
      env: Env<E1, E2, T, L, V>, hash: bool, dst: seq<byte>, k: Mode, ops: seq<Op<E1, E2>>) {
    ops != [] ==>
      var before := ops[..|ops| - 1];
      && Clean(env, hash, dst, k, before)
      && !(ops[|ops| - 1].Commit? && LoneInfinite(env, Pending(env, hash, dst, k, before)))
  }

  lemma {:induction false} CleanLosesNothing<E1, E2, T, L, V(!new)>(
      env: Env<E1, E2, T, L, V>, hash: bool, dst: seq<byte>, k: Mode, ops: seq<Op<E1, E2>>)
    requires Lawful(env.C) && Clean(env, hash, dst, k, ops)
    ensures Lost(env, hash, dst, k, ops) == env.C.m.one
  {
    if ops != [] {
      CleanLosesNothing(env, hash, dst, k, ops[..|ops| - 1]);
      M.Laws(env.C.m, env.C.m.one, env.C.m.one, env.C.m.one);
    }
  }

  /** c holds the product over ops but for lost, and their signatures. */
  ghost predicate Means<E1, E2, T, L, V>(
      env: Env<E1, E2, T, L, V>, hash: bool, dst: seq<byte>, k: Mode, ops: seq<Op<E1, E2>>, c: Ctx<E1, E2, V>,
      lost: V) {
    && Ok(c)
    && env.C.m.mul(Accumulated(env, c), lost) == M.Total(env.C.m, PairTerms(env, hash, dst, k), ops)
    && (HasPair(c) <==> exists op :: op in ops && Contributes(env, hash, dst, k, op))
    && (k == MinSig ==> c.mode != MinPk && Sum1(env, c) == M.Total(AsMonoid(env.G1), SignTerms1(env), ops))
    && (k == MinPk ==> c.mode != MinSig && Sum2(env, c) == M.Total(AsMonoid(env.G2), SignTerms2(env), ops))
  }

  lemma {:induction false} MeansStep<E1(!new), E2(!new), T, L, V(!new)>(
      env: Env<E1, E2, T, L, V>, hash: bool, dst: seq<byte>, k: Mode, ops: seq<Op<E1, E2>>,
      c: Ctx<E1, E2, V>, d: Ctx<E1, E2, V>, lost: V, more: V)
    requires Lawful(env.C) && ops != [] && k != Undefined && Means(env, hash, dst, k, ops[..|ops| - 1], c, lost)
    requires c.hash == hash && c.dst == dst && c.mode in {Undefined, k} && d.mode in {Undefined, k}
    requires Advanced(env, k, c, ops[|ops| - 1], d) && more == LostBy(env, Zip(c.qs, c.ps), ops[|ops| - 1])
    ensures Means(env, hash, dst, k, ops, d, env.C.m.mul(lost, more))
  {
    var n := |ops| - 1;
    assert ops == ops[..n] + [ops[n]];
    assert forall op :: op in ops <==> op in ops[..n] || op == ops[n];
    Regrouped(env.C.m, Accumulated(env, d), lost, more, Accumulated(env, c), PairTerm(env, hash, dst, k, ops[n]));
  }

  /** d*more == c*t and c*lost == total give d*(lost*more) == total*t. */
  lemma Regrouped<V(!new)>(m: M.Monoid<V>, d: V, lost: V, more: V, c: V, t: V)
    requires M.Commutative(m) && m.mul(d, more) == m.mul(c, t)
    ensures m.mul(d, m.mul(lost, more)) == m.mul(m.mul(c, lost), t)
  {
    M.Laws(m, lost, more, d);
    M.Laws(m, d, more, lost);
    M.Laws(m, c, t, lost);
    M.Laws(m, t, lost, c);
    M.Laws(m, c, lost, t);
  }

  /**
   * Over every run, successful calls or not: the mode is the kind of the first aggregation; GT
   * times the value of the buffer, times what lone commits leave out, is the product over all pairs
   * of that kind that passed their checks; the signature is the sum of those that passed theirs.
   */
  lemma {:induction false} RunMeans<E1(!new), E2(!new), T, L, V(!new)>(
      env: Env<E1, E2, T, L, V>, hash: bool, dst: seq<byte>, k: Mode, ops: seq<Op<E1, E2>>)
    requires Sound(env) && k != Undefined && Kind(ops) in {Undefined, k}
    ensures var c := Run(env, hash, dst, ops);
      && c.mode == Kind(ops) && Zip(c.qs, c.ps) == Pending(env, hash, dst, k, ops)
      && Means(env, hash, dst, k, ops, c, Lost(env, hash, dst, k, ops))
  {
    if ops == [] {
      var c: Ctx<E1, E2, V> := Run(env, hash, dst, ops);
      assert Zip(c.qs, c.ps) == [] && Each(env, Zip(c.qs, c.ps)) == [];
      M.Laws(env.C.m, env.C.m.one, env.C.m.one, env.C.m.one);
    } else {
      var n := |ops| - 1;
      KindSnoc(ops);
      RunMeans(env, hash, dst, k, ops[..n]);
      var c := Run(env, hash, dst, ops[..n]);
      StepMeaning(env, k, c, ops[n]);
      MeansStep(env, hash, dst, k, ops, c, Step(env, c, ops[n]).1, Lost(env, hash, dst, k, ops[..n]),
        LostBy(env, Zip(c.qs, c.ps), ops[n]));
    }
  }

  /**
   * The product is that over all accepted pairs exactly when what was left out is absorbed; so it
   * is in every clean run.
   */
  lemma {:induction false} ProductExact<E1(!new), E2(!new), T, L, V(!new)>(
      env: Env<E1, E2, T, L, V>, hash: bool, dst: seq<byte>, k: Mode, ops: seq<Op<E1, E2>>)
    requires Sound(env) && k != Undefined && Kind(ops) in {Undefined, k}
    ensures var got, all := Accumulated(env, Run(env, hash, dst, ops)),
        M.Total(env.C.m, PairTerms(env, hash, dst, k), ops);
      && (got == all <==> env.C.m.mul(got, Lost(env, hash, dst, k, ops)) == got)
      && (Clean(env, hash, dst, k, ops) ==> got == all)
  {
    RunMeans(env, hash, dst, k, ops);
    var got := Accumulated(env, Run(env, hash, dst, ops));
    M.Laws(env.C.m, got, env.C.m.one, got);
    if Clean(env, hash, dst, k, ops) {
      CleanLosesNothing(env, hash, dst, k, ops);
    }
  }

  /** What the next call of a run answers. */
  ghost function Answer<E1, E2, T, L, V>(
      env: Env<E1, E2, T, L, V>, hash: bool, dst: seq<byte>, before: seq<Op<E1, E2>>, op: Op<E1, E2>): Error {
    if op.Commit? then Success
    else if Kind(before) !in {Undefined, KindOf(op)} then AggrTypeMismatch
    else if !SignaturePasses(env, op) then PointNotInGroup
    else if PairOf(env, hash, dst, op).Some? then Success
    else if (op.PkInG2? && op.pk2.None?) || (op.PkInG1? && op.pk1.None?) then Success
    else if (op.PkInG2? && op.pk2 == Some(env.G2.zero)) || (op.PkInG1? && op.pk1 == Some(env.G1.zero)) then PkIsInfinity
    else PointNotInGroup
  }

  lemma {:induction false} RunMode<E1, E2, T, L, V>(
      env: Env<E1, E2, T, L, V>, hash: bool, dst: seq<byte>, ops: seq<Op<E1, E2>>)
    ensures Run(env, hash, dst, ops).mode == Kind(ops)
  {
    if ops != [] {
      KindSnoc(ops);
      RunMode(env, hash, dst, ops[..|ops| - 1]);
      StepKeepsOk(env, Run(env, hash, dst, ops[..|ops| - 1]), ops[|ops| - 1]);
    }
  }

  lemma RunAnswers<E1(!new), E2(!new), T, L, V(!new)>(
      env: Env<E1, E2, T, L, V>, hash: bool, dst: seq<byte>, before: seq<Op<E1, E2>>, op: Op<E1, E2>)
    requires Sound(env)
    ensures Step(env, Run(env, hash, dst, before), op).0 == Answer(env, hash, dst, before, op)
  {
    RunMode(env, hash, dst, before);
  }
}
