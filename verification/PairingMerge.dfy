/** Merging committed contexts, and the final verification (external/blst/aggregate.c:399-488). */
module PairingMerge {
  import opened ByteStrings
  import opened Miller
  import opened PairingSpec
  import opened PairingRuns
  import M = Monoids
  import G = Groups
  import W5 = BoothMult

  /** The signatures of two contexts of one mode. */
  function MergedSign<E1, E2, T, L, V>(env: Env<E1, E2, T, L, V>, a: Sign<E1, E2>, b: Sign<E1, E2>): Sign<E1, E2> {
    match (a, b)
    case (Sign1(x), Sign1(y)) => Sign1(env.G1.add(x, y))
    case (Sign2(x), Sign2(y)) => Sign2(env.G2.add(x, y))
    case (_, NoSign) => a
    case (_, _) => b
  }

  function MergedGt<V>(m: M.Monoid<V>, a: Option<V>, b: Option<V>): Option<V> {
    if a.Some? && b.Some? then Some(m.mul(a.value, b.value)) else if b.Some? then b else a
  }

  function MergeStep<E1, E2, T, L, V>(
      env: Env<E1, E2, T, L, V>, c: Ctx<E1, E2, V>, d: Ctx<E1, E2, V>): (Error, Ctx<E1, E2, V>) {
    if c.mode != Undefined && d.mode != Undefined && c.mode != d.mode then (AggrTypeMismatch, c)
    else if |c.qs| != 0 || |d.qs| != 0 then (AggrTypeMismatch, c)
    else if c.mode == Undefined then (Success, d)
    else (Success, c.(sign := MergedSign(env, c.sign, d.sign), gt := MergedGt(env.C.m, c.gt, d.gt)))
  }

  /** Two committed contexts that can be merged. */
  ghost predicate Mergeable<E1, E2, V>(k: Mode, c: Ctx<E1, E2, V>, d: Ctx<E1, E2, V>) {
    k != Undefined && c.mode in {Undefined, k} && d.mode in {Undefined, k} && c.qs == [] && d.qs == []
  }

  lemma {:induction false} EmptyBuffer<E1, E2, T, L, V(!new)>(env: Env<E1, E2, T, L, V>, c: Ctx<E1, E2, V>)
    requires Lawful(env.C) && c.qs == [] && c.ps == []
    ensures Accumulated(env, c) == if c.gt.Some? then c.gt.value else env.C.m.one
  {
    assert Each(env, Zip(c.qs, c.ps)) == [];
    M.Laws(env.C.m, if c.gt.Some? then c.gt.value else env.C.m.one, env.C.m.one, env.C.m.one);
  }

  lemma {:induction false} MergeAccumulated<E1, E2, T, L, V(!new)>(
      env: Env<E1, E2, T, L, V>, k: Mode, c: Ctx<E1, E2, V>, d: Ctx<E1, E2, V>)
    requires Lawful(env.C) && Ok(c) && Ok(d) && Mergeable(k, c, d)
    ensures Ok(MergeStep(env, c, d).1) && MergeStep(env, c, d).1.qs == []
    ensures Accumulated(env, MergeStep(env, c, d).1) == env.C.m.mul(Accumulated(env, c), Accumulated(env, d))
  {
    var r := MergeStep(env, c, d).1;
    EmptyBuffer(env, c);
    EmptyBuffer(env, d);
    EmptyBuffer(env, r);
    var x, y := Accumulated(env, c), Accumulated(env, d);
    M.Laws(env.C.m, x, y, y);
    M.Laws(env.C.m, x, env.C.m.one, x);
    M.Laws(env.C.m, y, env.C.m.one, x);
    M.Laws(env.C.m, env.C.m.one, y, x);
  }

  lemma {:induction false} MergeSums<E1(!new), E2(!new), T, L, V(!new)>(
      env: Env<E1, E2, T, L, V>, k: Mode, c: Ctx<E1, E2, V>, d: Ctx<E1, E2, V>)
    requires Sound(env) && Ok(c) && Ok(d) && Mergeable(k, c, d)
    ensures Sum1(env, MergeStep(env, c, d).1) == env.G1.add(Sum1(env, c), Sum1(env, d))
    ensures Sum2(env, MergeStep(env, c, d).1) == env.G2.add(Sum2(env, c), Sum2(env, d))
  {
    var x1, y1, o1 := Sum1(env, c), Sum1(env, d), env.G1.zero;
    G.Laws(env.G1, x1, o1, o1);
    G.Laws(env.G1, y1, o1, o1);
    var x2, y2, o2 := Sum2(env, c), Sum2(env, d), env.G2.zero;
    G.Laws(env.G2, x2, o2, o2);
    G.Laws(env.G2, y2, o2, o2);
  }

  /** Merging the contexts of two runs gives the meaning of both runs together. */
  lemma {:induction false} MergeMeans<E1(!new), E2(!new), T, L, V(!new)>(
      env: Env<E1, E2, T, L, V>, hash: bool, dst: seq<byte>, k: Mode, a: seq<Op<E1, E2>>, b: seq<Op<E1, E2>>,
      c: Ctx<E1, E2, V>, d: Ctx<E1, E2, V>, lc: V, ld: V)
    requires Sound(env) && Means(env, hash, dst, k, a, c, lc) && Means(env, hash, dst, k, b, d, ld)
    requires Mergeable(k, c, d)
    ensures MergeStep(env, c, d).0 == Success
    ensures Means(env, hash, dst, k, a + b, MergeStep(env, c, d).1, env.C.m.mul(lc, ld))
    ensures MergeStep(env, c, d).1.qs == [] && MergeStep(env, c, d).1.mode in {Undefined, k}
  {
    var r := MergeStep(env, c, d).1;
    MergeAccumulated(env, k, c, d);
    M.Exchange(env.C.m, Accumulated(env, c), Accumulated(env, d), lc, ld);
    MergeSums(env, k, c, d);
    M.TotalConcat(env.C.m, PairTerms(env, hash, dst, k), a, b);
    if k == MinSig {
      GroupIsMonoid(env.G1);
      M.TotalConcat(AsMonoid(env.G1), SignTerms1(env), a, b);
    } else {
      GroupIsMonoid(env.G2);
      M.TotalConcat(AsMonoid(env.G2), SignTerms2(env), a, b);
    }
    assert forall op :: op in a + b <==> op in a || op in b;
  }

  /** blst_pairing_merge refuses contexts of different modes and contexts with buffered pairs, and nothing else. */
  lemma MergeRefuses<E1, E2, T, L, V>(
      env: Env<E1, E2, T, L, V>, hash: bool, dst: seq<byte>, a: seq<Op<E1, E2>>, b: seq<Op<E1, E2>>)
    ensures var c, d := Run(env, hash, dst, a), Run(env, hash, dst, b);
      MergeStep(env, c, d).0 != Success <==>
        (Kind(a) != Undefined && Kind(b) != Undefined && Kind(a) != Kind(b)) || c.qs != [] || d.qs != []
  {
    RunMode(env, hash, dst, a);
    RunMode(env, hash, dst, b);
  }

  /** The one error, after which the context is as it was; otherwise its hash and tag, unless it was unused. */
  lemma MergeKeeps<E1, E2, T, L, V>(env: Env<E1, E2, T, L, V>, c: Ctx<E1, E2, V>, d: Ctx<E1, E2, V>)
    ensures var (err, r) := MergeStep(env, c, d);
      && (err != Success ==> err == AggrTypeMismatch && r == c)
      && (c.hash == d.hash || c.mode != Undefined ==> r.hash == c.hash)
      && (c.dst == d.dst || c.mode != Undefined ==> r.dst == c.dst)
      && (err == Success && c.mode == Undefined ==> r == d)
  {
  }

  /** A call after a merge counts as one more call of the two runs together. */
  lemma {:induction false} AfterMerge<E1(!new), E2(!new), T, L, V(!new)>(
      env: Env<E1, E2, T, L, V>, hash: bool, dst: seq<byte>, k: Mode, a: seq<Op<E1, E2>>, b: seq<Op<E1, E2>>,
      c: Ctx<E1, E2, V>, d: Ctx<E1, E2, V>, lc: V, ld: V, op: Op<E1, E2>)
    requires Sound(env) && Means(env, hash, dst, k, a, c, lc) && Means(env, hash, dst, k, b, d, ld)
    requires Mergeable(k, c, d) && c.hash == d.hash == hash && c.dst == d.dst == dst
    requires KindOf(op) in {Undefined, k} || c.mode == k || d.mode == k
    ensures Means(env, hash, dst, k, a + b + [op], Step(env, MergeStep(env, c, d).1, op).1, env.C.m.mul(lc, ld))
  {
    var r, lost := MergeStep(env, c, d).1, env.C.m.mul(lc, ld);
    MergeMeans(env, hash, dst, k, a, b, c, d, lc, ld);
    MergeKeeps(env, c, d);
    StepMeaning(env, k, r, op);
    var ops := a + b + [op];
    assert ops[..|ops| - 1] == a + b;
    assert LostBy(env, Zip(r.qs, r.ps), op) == env.C.m.one;
    MeansStep(env, hash, dst, k, ops, r, Step(env, r, op).1, lost, env.C.m.one);
    M.Laws(env.C.m, lost, env.C.m.one, lost);
  }

  // ---- many contexts ----

  ghost function MergeAll<E1, E2, T, L, V>(
      env: Env<E1, E2, T, L, V>, hash: bool, dst: seq<byte>, shards: seq<seq<Op<E1, E2>>>): (Error, Ctx<E1, E2, V>)
    requires shards != []
  {
    var n := |shards| - 1;
    if n == 0 then (Success, Run(env, hash, dst, shards[0]))
    else
      var so := MergeAll(env, hash, dst, shards[..n]);
      if so.0 != Success then so else MergeStep(env, so.1, Run(env, hash, dst, shards[n]))
  }

  ghost function Concat<X>(ss: seq<seq<X>>): seq<X> {
    if ss == [] then [] else Concat(ss[..|ss| - 1]) + ss[|ss| - 1]
  }

  /** The context has been committed last, or never used. */
  ghost predicate Committed<E1, E2>(ops: seq<Op<E1, E2>>) {
    ops == [] || ops[|ops| - 1].Commit?
  }

  ghost predicate OneKind<E1, E2>(k: Mode, ops: seq<Op<E1, E2>>) {
    forall op :: op in ops ==> KindOf(op) in {Undefined, k}
  }

  lemma {:induction false} KindOfOneKind<E1, E2>(k: Mode, ops: seq<Op<E1, E2>>)
    requires OneKind(k, ops)
    ensures Kind(ops) in {Undefined, k}
    ensures Kind(ops) == Undefined ==> forall op :: op in ops ==> op.Commit?
  {
    if ops != [] {
      KindOfOneKind(k, ops[1..]);
      assert forall op :: op in ops <==> op == ops[0] || op in ops[1..];
    }
  }

  lemma RunCommitted<E1, E2, T, L, V>(env: Env<E1, E2, T, L, V>, hash: bool, dst: seq<byte>, ops: seq<Op<E1, E2>>)
    requires Committed(ops)
    ensures Run(env, hash, dst, ops).qs == []
  {
  }

  /** Every part ends with a commit and aggregates in one mode only. */
  ghost predicate Shards<E1, E2>(k: Mode, shards: seq<seq<Op<E1, E2>>>) {
    forall i :: 0 <= i < |shards| ==> Committed(shards[i]) && OneKind(k, shards[i])
  }

  /** What the commits of all parts leave out. */
  ghost function LostAll<E1, E2, T, L, V>(
      env: Env<E1, E2, T, L, V>, hash: bool, dst: seq<byte>, k: Mode, shards: seq<seq<Op<E1, E2>>>): V {
    if shards == [] then env.C.m.one
    else
      var n := |shards| - 1;
      env.C.m.mul(LostAll(env, hash, dst, k, shards[..n]), Lost(env, hash, dst, k, shards[n]))
  }

  lemma {:induction false} CleanShards<E1, E2, T, L, V(!new)>(
      env: Env<E1, E2, T, L, V>, hash: bool, dst: seq<byte>, k: Mode, shards: seq<seq<Op<E1, E2>>>)
    requires Lawful(env.C) && forall i :: 0 <= i < |shards| ==> Clean(env, hash, dst, k, shards[i])
    ensures LostAll(env, hash, dst, k, shards) == env.C.m.one
  {
    if shards != [] {
      var n := |shards| - 1;
      CleanShards(env, hash, dst, k, shards[..n]);
      CleanLosesNothing(env, hash, dst, k, shards[n]);
      M.Laws(env.C.m, env.C.m.one, env.C.m.one, env.C.m.one);
    }
  }

  /** Means, in a context that was just committed. */
  ghost predicate MeansAll<E1, E2, T, L, V>(
      env: Env<E1, E2, T, L, V>, hash: bool, dst: seq<byte>, k: Mode, ops: seq<Op<E1, E2>>, c: Ctx<E1, E2, V>,
      lost: V) {
    Means(env, hash, dst, k, ops, c, lost) && c.qs == [] && c.mode in {Undefined, k}
  }

  lemma {:induction false} ShardMeans<E1(!new), E2(!new), T, L, V(!new)>(
      env: Env<E1, E2, T, L, V>, hash: bool, dst: seq<byte>, k: Mode, ops: seq<Op<E1, E2>>)
    requires Sound(env) && k != Undefined && Committed(ops) && OneKind(k, ops)
    ensures MeansAll(env, hash, dst, k, ops, Run(env, hash, dst, ops), Lost(env, hash, dst, k, ops))
  {
    KindOfOneKind(k, ops);
    RunMeans(env, hash, dst, k, ops);
    RunCommitted(env, hash, dst, ops);
  }

  lemma MergeTwo<E1(!new), E2(!new), T, L, V(!new)>(
      env: Env<E1, E2, T, L, V>, hash: bool, dst: seq<byte>, k: Mode, a: seq<Op<E1, E2>>, b: seq<Op<E1, E2>>,
      c: Ctx<E1, E2, V>, d: Ctx<E1, E2, V>, lc: V, ld: V)
    requires Sound(env) && k != Undefined
    requires MeansAll(env, hash, dst, k, a, c, lc) && MeansAll(env, hash, dst, k, b, d, ld)
    ensures MergeStep(env, c, d).0 == Success
    ensures MeansAll(env, hash, dst, k, a + b, MergeStep(env, c, d).1, env.C.m.mul(lc, ld))
  {
    MergeMeans(env, hash, dst, k, a, b, c, d, lc, ld);
  }

  lemma {:induction false} MergeAllMeans<E1(!new), E2(!new), T, L, V(!new)>(
      env: Env<E1, E2, T, L, V>, hash: bool, dst: seq<byte>, k: Mode, shards: seq<seq<Op<E1, E2>>>)
    requires Sound(env) && k != Undefined && shards != [] && Shards(k, shards)
    ensures var (err, c) := MergeAll(env, hash, dst, shards);
      err == Success && MeansAll(env, hash, dst, k, Concat(shards), c, LostAll(env, hash, dst, k, shards))
  {
    var n := |shards| - 1;
    var d, ld := Run(env, hash, dst, shards[n]), Lost(env, hash, dst, k, shards[n]);
    ShardMeans(env, hash, dst, k, shards[n]);
    if n == 0 {
      assert shards[..0] == [];
      assert Concat(shards) == shards[0];
      M.Laws(env.C.m, ld, env.C.m.one, ld);
    } else {
      MergeAllMeans(env, hash, dst, k, shards[..n]);
      var so := MergeAll(env, hash, dst, shards[..n]);
      MergeTwo(env, hash, dst, k, Concat(shards[..n]), shards[n], so.1, d, LostAll(env, hash, dst, k, shards[..n]), ld);
      assert MergeAll(env, hash, dst, shards) == MergeStep(env, so.1, d);
    }
  }

  // ---- the verdict ----

  /** PAIRING_FinalVerify on a context that is in one of the states calls can reach. */
  ghost function Verify<E1, E2, T, L, V>(env: Env<E1, E2, T, L, V>, c: Ctx<E1, E2, V>, gtSig: Option<V>): bool {
    c.gt.Some? &&
    var s :=
      if gtSig.Some? then gtSig.value
      else match c.sign
        case NoSign => env.C.m.one
        case Sign1(e) => LoopValue(env.C, [env.gen2], [e])
        case Sign2(e) => LoopValue(env.C, [e], [env.gen1]);
    env.finalExp(env.C.m.mul(env.C.conj(s), c.gt.value)) == env.C.m.one
  }

  /** The Miller value of the summed signatures against the generator. */
  ghost function SignValue<E1, E2, T, L, V>(env: Env<E1, E2, T, L, V>, k: Mode, c: Ctx<E1, E2, V>): V {
    if k == MinSig then LoopValue(env.C, [env.gen2], [Sum1(env, c)]) else LoopValue(env.C, [Sum2(env, c)], [env.gen1])
  }

  /** The verdict with a supplied value: the product so far against it. Pairs still buffered do not count. */
  lemma {:induction false} VerifyGiven<E1, E2, T, L, V(!new)>(env: Env<E1, E2, T, L, V>, c: Ctx<E1, E2, V>, v: V)
    requires Lawful(env.C) && Ok(c)
    ensures var d := c.(qs := [], ps := []);
      Verify(env, c, Some(v)) <==>
        HasPair(d) && env.finalExp(env.C.m.mul(env.C.conj(v), Accumulated(env, d))) == env.C.m.one
  {
    EmptyBuffer(env, c.(qs := [], ps := []));
  }

  /** Supplying the value of the sum gives the verdict that computing it gives. */
  lemma VerifySupplied<E1(!new), E2(!new), T, L, V(!new)>(env: Env<E1, E2, T, L, V>, k: Mode, c: Ctx<E1, E2, V>)
    requires Sound(env) && Ok(c) && k != Undefined && c.mode in {Undefined, k}
    ensures Verify(env, c, Some(SignValue(env, k, c))) <==> Verify(env, c, None)
  {
  }

  /** The value of the signature depends on the sum alone: a missing signature is the point at infinity. */
  lemma VerifyBySum<E1(!new), E2(!new), T, L, V(!new)>(env: Env<E1, E2, T, L, V>, k: Mode, c: Ctx<E1, E2, V>)
    requires Sound(env) && Ok(c) && c.qs == [] && k != Undefined && c.mode in {Undefined, k}
    ensures Verify(env, c, None) <==>
        HasPair(c) && env.finalExp(env.C.m.mul(env.C.conj(SignValue(env, k, c)), Accumulated(env, c))) == env.C.m.one
  {
    EmptyBuffer(env, c);
  }

  /** The context after one more commit. */
  lemma CommitLast<E1(!new), E2(!new), T, L, V(!new)>(
      env: Env<E1, E2, T, L, V>, hash: bool, dst: seq<byte>, k: Mode, ops: seq<Op<E1, E2>>)
    requires Sound(env) && k != Undefined && OneKind(k, ops)
    ensures OneKind(k, ops + [Commit])
    ensures M.Total(env.C.m, PairTerms(env, hash, dst, k), ops + [Commit])
        == M.Total(env.C.m, PairTerms(env, hash, dst, k), ops)
    ensures M.Total(AsMonoid(env.G1), SignTerms1(env), ops + [Commit])
        == M.Total(AsMonoid(env.G1), SignTerms1(env), ops)
    ensures M.Total(AsMonoid(env.G2), SignTerms2(env), ops + [Commit])
        == M.Total(AsMonoid(env.G2), SignTerms2(env), ops)
  {
    assert (ops + [Commit])[..|ops|] == ops;
    M.Laws(env.C.m, M.Total(env.C.m, PairTerms(env, hash, dst, k), ops), env.C.m.one, env.C.m.one);
    G.Laws(env.G1, M.Total(AsMonoid(env.G1), SignTerms1(env), ops), env.G1.zero, env.G1.zero);
    G.Laws(env.G2, M.Total(AsMonoid(env.G2), SignTerms2(env), ops), env.G2.zero, env.G2.zero);
  }

  lemma SameMembers<X>(s: seq<X>, t: seq<X>)
    requires multiset(s) == multiset(t)
    ensures forall x :: x in s <==> x in t
  {
    forall x
      ensures x in s <==> x in t
    {
      assert x in multiset(s) <==> x in s;
      assert x in multiset(t) <==> x in t;
    }
  }

  lemma {:induction false} MeansPermuted<E1(!new), E2(!new), T, L, V(!new)>(
      env: Env<E1, E2, T, L, V>, hash: bool, dst: seq<byte>, k: Mode, ops: seq<Op<E1, E2>>, all: seq<Op<E1, E2>>,
      c: Ctx<E1, E2, V>, lost: V)
    requires Sound(env) && multiset(ops) == multiset(all) && Means(env, hash, dst, k, ops, c, lost)
    ensures Means(env, hash, dst, k, all, c, lost)
  {
    SameMembers(ops, all);
    M.TotalPermuted(env.C.m, PairTerms(env, hash, dst, k), ops, all);
    GroupIsMonoid(env.G1);
    GroupIsMonoid(env.G2);
    M.TotalPermuted(AsMonoid(env.G1), SignTerms1(env), ops, all);
    M.TotalPermuted(AsMonoid(env.G2), SignTerms2(env), ops, all);
  }

  /** The same meaning with and without the last commit among the operations. */
  lemma {:induction false} MeansWithout<E1(!new), E2(!new), T, L, V(!new)>(
      env: Env<E1, E2, T, L, V>, hash: bool, dst: seq<byte>, k: Mode, ops: seq<Op<E1, E2>>, c: Ctx<E1, E2, V>, lost: V)
    requires Sound(env) && k != Undefined && OneKind(k, ops) && Means(env, hash, dst, k, ops + [Commit], c, lost)
    ensures Means(env, hash, dst, k, ops, c, lost)
  {
    CommitLast(env, hash, dst, k, ops);
  }

  /** One context that ran all operations, in any order, and committed. */
  lemma {:induction false} OneContext<E1(!new), E2(!new), T, L, V(!new)>(
      env: Env<E1, E2, T, L, V>, hash: bool, dst: seq<byte>, k: Mode, ops: seq<Op<E1, E2>>, all: seq<Op<E1, E2>>)
    requires Sound(env) && k != Undefined && OneKind(k, all) && multiset(ops) == multiset(all)
    ensures MeansAll(env, hash, dst, k, all, Run(env, hash, dst, ops + [Commit]),
        Lost(env, hash, dst, k, ops + [Commit]))
  {
    SameMembers(ops, all);
    var c, lost := Run(env, hash, dst, ops + [Commit]), Lost(env, hash, dst, k, ops + [Commit]);
    CommitLast(env, hash, dst, k, ops);
    ShardMeans(env, hash, dst, k, ops + [Commit]);
    MeansWithout(env, hash, dst, k, ops, c, lost);
    MeansPermuted(env, hash, dst, k, ops, all, c, lost);
  }

  lemma {:induction false} ShardsTogether<E1, E2>(k: Mode, shards: seq<seq<Op<E1, E2>>>)
    requires Shards(k, shards)
    ensures OneKind(k, Concat(shards))
  {
    if shards != [] {
      ShardsTogether(k, shards[..|shards| - 1]);
    }
  }

  /** Two committed contexts that mean the same operations, each but for what it lost. */
  lemma {:induction false} SameMeaning<E1(!new), E2(!new), T, L, V(!new)>(
      env: Env<E1, E2, T, L, V>, hash: bool, dst: seq<byte>, k: Mode, all: seq<Op<E1, E2>>,
      c: Ctx<E1, E2, V>, d: Ctx<E1, E2, V>, lc: V, ld: V, gtSig: Option<V>)
    requires Sound(env) && k != Undefined && MeansAll(env, hash, dst, k, all, c, lc)
    requires MeansAll(env, hash, dst, k, all, d, ld)
    ensures env.C.m.mul(Accumulated(env, c), lc) == env.C.m.mul(Accumulated(env, d), ld)
    ensures Sum1(env, c) == Sum1(env, d) && Sum2(env, c) == Sum2(env, d)
    ensures c.gt == d.gt <==> Accumulated(env, c) == Accumulated(env, d)
    ensures c.gt == d.gt ==> (Verify(env, c, gtSig) <==> Verify(env, d, gtSig))
  {
    EmptyBuffer(env, c);
    EmptyBuffer(env, d);
    VerifyBySum(env, k, c);
    VerifyBySum(env, k, d);
  }

  /**
   * Merging the committed contexts of any partition of the operations, in any order, succeeds and
   * leaves the sum of signatures of one context that ran them all, and its product but for what
   * lone commits left out on either side. Where they left out nothing, GT and verdict are the same.
   */
  lemma {:induction false} AnyPartition<E1(!new), E2(!new), T, L, V(!new)>(
      env: Env<E1, E2, T, L, V>, hash: bool, dst: seq<byte>, k: Mode, shards: seq<seq<Op<E1, E2>>>,
      ops: seq<Op<E1, E2>>,
      gtSig: Option<V>)
    requires Sound(env) && k != Undefined && shards != [] && Shards(k, shards)
    requires multiset(ops) == multiset(Concat(shards))
    ensures MergeAll(env, hash, dst, shards).0 == Success
    ensures var many, one := MergeAll(env, hash, dst, shards).1, Run(env, hash, dst, ops + [Commit]);
      var lost, lost1 := LostAll(env, hash, dst, k, shards), Lost(env, hash, dst, k, ops + [Commit]);
      && |many.qs| == |many.ps|
      && env.C.m.mul(Accumulated(env, many), lost) == env.C.m.mul(Accumulated(env, one), lost1)
      && Sum1(env, many) == Sum1(env, one) && Sum2(env, many) == Sum2(env, one)
      && (many.gt == one.gt <==> Accumulated(env, many) == Accumulated(env, one))
      && (lost == env.C.m.one == lost1 ==> many.gt == one.gt)
      && (many.gt == one.gt ==> (Verify(env, many, gtSig) <==> Verify(env, one, gtSig)))
  {
    var many, one := MergeAll(env, hash, dst, shards).1, Run(env, hash, dst, ops + [Commit]);
    var lost, lost1 := LostAll(env, hash, dst, k, shards), Lost(env, hash, dst, k, ops + [Commit]);
    MergeAllMeans(env, hash, dst, k, shards);
    ShardsTogether(k, shards);
    OneContext(env, hash, dst, k, ops, Concat(shards));
    SameMeaning(env, hash, dst, k, Concat(shards), many, one, lost, lost1, gtSig);
    M.Laws(env.C.m, Accumulated(env, many), env.C.m.one, env.C.m.one);
    M.Laws(env.C.m, Accumulated(env, one), env.C.m.one, env.C.m.one);
  }

  /** Where no commit meets a lone infinite pair, the merged context is the single one. */
  lemma {:induction false} CleanPartition<E1(!new), E2(!new), T, L, V(!new)>(
      env: Env<E1, E2, T, L, V>, hash: bool, dst: seq<byte>, k: Mode, shards: seq<seq<Op<E1, E2>>>,
      ops: seq<Op<E1, E2>>,
      gtSig: Option<V>)
    requires Sound(env) && k != Undefined && shards != [] && Shards(k, shards)
    requires multiset(ops) == multiset(Concat(shards)) && Clean(env, hash, dst, k, ops + [Commit])
    requires forall i :: 0 <= i < |shards| ==> Clean(env, hash, dst, k, shards[i])
    ensures var (err, many) := MergeAll(env, hash, dst, shards);
      var one := Run(env, hash, dst, ops + [Commit]);
      err == Success && many.gt == one.gt && (Verify(env, many, gtSig) <==> Verify(env, one, gtSig))
  {
    AnyPartition(env, hash, dst, k, shards, ops, gtSig);
    CleanShards(env, hash, dst, k, shards);
    CleanLosesNothing(env, hash, dst, k, ops + [Commit]);
  }

  // ---- infinite pairs ----

  lemma RunSnoc<E1, E2, T, L, V>(
      env: Env<E1, E2, T, L, V>, hash: bool, dst: seq<byte>, ops: seq<Op<E1, E2>>, op: Op<E1, E2>)
    ensures Run(env, hash, dst, ops + [op]) == Step(env, Run(env, hash, dst, ops), op).1
  {
    assert (ops + [op])[..|ops|] == ops;
  }

  /** A call that contributes its pair. */
  lemma StepPushes<E1, E2, T, L, V>(env: Env<E1, E2, T, L, V>, k: Mode, c: Ctx<E1, E2, V>, op: Op<E1, E2>)
    requires Ok(c) && c.mode in {Undefined, k} && |c.qs| < N_MAX - 1 && Contributes(env, c.hash, c.dst, k, op)
    ensures var (q, p) := PairOf(env, c.hash, c.dst, op).value;
      var d := Step(env, c, op).1;
      d.gt == c.gt && d.qs == c.qs + [q] && d.ps == c.ps + [p]
  {
  }

  /**
   * A point at infinity among the pairs: committed alone its pair counts as 1, committed with
   * another pair as whatever the line functions yield, so that results agree only if that is absorbed.
   */
  lemma {:induction false} InfinitePair<E1(!new), E2(!new), T, L, V(!new)>(
      env: Env<E1, E2, T, L, V>, hash: bool, dst: seq<byte>, k: Mode, x: Op<E1, E2>, y: Op<E1, E2>)
    requires Sound(env) && Contributes(env, hash, dst, k, x) && Contributes(env, hash, dst, k, y)
    requires !FinitePair(env, hash, dst, x) && FinitePair(env, hash, dst, y)
    ensures Run(env, hash, dst, [] + [x] + [Commit] + [y] + [Commit]).gt == Some(PairTerm(env, hash, dst, k, y))
    ensures Run(env, hash, dst, [] + [x] + [y] + [Commit]).gt
         == Some(env.C.m.mul(PairTerm(env, hash, dst, k, x), PairTerm(env, hash, dst, k, y)))
  {
    InfiniteAlone(env, hash, dst, k, x, y);
    InfiniteTogether(env, hash, dst, k, x, y);
  }

  lemma {:induction false} InfiniteAlone<E1(!new), E2(!new), T, L, V(!new)>(
      env: Env<E1, E2, T, L, V>, hash: bool, dst: seq<byte>, k: Mode, x: Op<E1, E2>, y: Op<E1, E2>)
    requires Sound(env) && Contributes(env, hash, dst, k, x) && Contributes(env, hash, dst, k, y)
    requires !FinitePair(env, hash, dst, x) && FinitePair(env, hash, dst, y)
    ensures Run(env, hash, dst, [] + [x] + [Commit] + [y] + [Commit]).gt == Some(PairTerm(env, hash, dst, k, y))
  {
    var c0 := Run(env, hash, dst, []);
    RunTaken(env, hash, dst, [], x);
    RunTaken(env, hash, dst, [] + [x] + [Commit], y);
    CommitOne(env, k, c0, x);
    CommitNext(env, k, Run(env, hash, dst, [] + [x] + [Commit]), y);
  }

  /** A call followed by a commit. */
  ghost function Taken<E1, E2, T, L, V>(
      env: Env<E1, E2, T, L, V>, c: Ctx<E1, E2, V>, op: Op<E1, E2>): (d: Ctx<E1, E2, V>)
    requires Ok(c)
    ensures Ok(d) && d.hash == c.hash && d.dst == c.dst
  {
    StepKeepsOk(env, c, op);
    StepKeepsOk(env, Step(env, c, op).1, Commit);
    Step(env, Step(env, c, op).1, Commit).1
  }

  lemma RunTaken<E1, E2, T, L, V>(
      env: Env<E1, E2, T, L, V>, hash: bool, dst: seq<byte>, ops: seq<Op<E1, E2>>, op: Op<E1, E2>)
    ensures Run(env, hash, dst, ops + [op] + [Commit]) == Taken(env, Run(env, hash, dst, ops), op)
  {
    RunSnoc(env, hash, dst, ops, op);
    RunSnoc(env, hash, dst, ops + [op], Commit);
  }

  /** A context that holds only the value 1 takes one finite pair and commits. */
  lemma {:induction false} CommitNext<E1(!new), E2(!new), T, L, V(!new)>(
      env: Env<E1, E2, T, L, V>, k: Mode, c: Ctx<E1, E2, V>, op: Op<E1, E2>)
    requires Sound(env) && Ok(c) && c.mode == k && c.qs == [] && c.gt == Some(env.C.m.one)
    requires Contributes(env, c.hash, c.dst, k, op) && FinitePair(env, c.hash, c.dst, op)
    ensures Taken(env, c, op).gt == Some(PairTerm(env, c.hash, c.dst, k, op))
  {
    CommitOne(env, k, c, op);
    var v := PairTerm(env, c.hash, c.dst, k, op);
    M.Laws(env.C.m, env.C.m.one, v, v);
    M.Laws(env.C.m, v, env.C.m.one, v);
  }

  /** An empty context takes one pair and commits. */
  lemma {:induction false} CommitOne<E1(!new), E2(!new), T, L, V(!new)>(
      env: Env<E1, E2, T, L, V>, k: Mode, c: Ctx<E1, E2, V>, op: Op<E1, E2>)
    requires Sound(env) && Ok(c) && c.mode in {Undefined, k} && c.qs == [] && Contributes(env, c.hash, c.dst, k, op)
    ensures var d := Taken(env, c, op);
      var v := if FinitePair(env, c.hash, c.dst, op) then PairTerm(env, c.hash, c.dst, k, op) else env.C.m.one;
      d.qs == [] && d.mode == k && d.gt == Some(if c.gt.Some? then env.C.m.mul(c.gt.value, v) else v)
  {
    StepPushes(env, k, c, op);
    StepKeepsOk(env, c, op);
    var (q, p) := PairOf(env, c.hash, c.dst, op).value;
    assert Singles(env.C, [q], [p]) == [Single(env.C, q, p)];
    M.ProductOne(env.C.m, Single(env.C, q, p));
    assert [] + [q] == [q] && [] + [p] == [p];
  }

  lemma {:induction false} InfiniteTogether<E1(!new), E2(!new), T, L, V(!new)>(
      env: Env<E1, E2, T, L, V>, hash: bool, dst: seq<byte>, k: Mode, x: Op<E1, E2>, y: Op<E1, E2>)
    requires Sound(env) && Contributes(env, hash, dst, k, x) && Contributes(env, hash, dst, k, y)
    ensures Run(env, hash, dst, [] + [x] + [y] + [Commit]).gt
         == Some(env.C.m.mul(PairTerm(env, hash, dst, k, x), PairTerm(env, hash, dst, k, y)))
  {
    RunSnoc(env, hash, dst, [], x);
    var c0 := Run(env, hash, dst, []);
    StepPushes(env, k, c0, x);
    StepKeepsOk(env, c0, x);
    var c1 := Run(env, hash, dst, [] + [x]);
    assert c1.mode == k;
    RunSnoc(env, hash, dst, [] + [x], y);
    StepPushes(env, k, c1, y);
    RunSnoc(env, hash, dst, [] + [x] + [y], Commit);
    var (q, p) := PairOf(env, hash, dst, x).value;
    var (q', p') := PairOf(env, hash, dst, y).value;
    assert [] + [q] + [q'] == [q, q'] && [] + [p] + [p'] == [p, p'];
    var s := Single(env.C, q, p);
    assert Singles(env.C, [q, q'], [p, p']) == [s] + [Single(env.C, q', p')];
    M.ProductSnoc(env.C.m, [s], Single(env.C, q', p'));
    M.ProductOne(env.C.m, s);
  }

  /** The multiplications do what BoothMult.MultW promises: the multiple, for a scalar below the order of the point. */
  ghost predicate Multiplies<X(!new)>(g: G.Group<X>, mult: (seq<byte>, nat, X) -> X) {
    forall d: seq<byte>, n: nat, x: X, q: nat :: |d| > 0 && n <= 8 * |d| && MultipleKnown(g, x, q, d, n) ==>
      mult(d, n, x) == G.Mul(g, W5.Scalar(d, n), x)
  }

  ghost predicate MultipleKnown<X(!new)>(g: G.Group<X>, x: X, q: nat, d: seq<byte>, n: nat) {
    x == g.zero || (W5.HasOrder(g, x, q) && q > 2 * 32 && W5.Scalar(d, n) < q)
  }

  /** The point that the scalar multiplies: the hash, or the key in G1. */
  function Multiplied<E1, E2, T, L, V>(env: Env<E1, E2, T, L, V>, hash: bool, dst: seq<byte>, op: Op<E1, E2>): E1
    requires !op.Commit? && (op.PkInG1? ==> op.pk1.Some?)
  {
    if op.PkInG2? then env.hash1(hash, Input(op.msg, dst, op.aug)) else op.pk1.value
  }

  /** The call has a finite key that passes its check, and a signature that passes its own. */
  ghost predicate GoodKey<E1, E2, T, L, V>(env: Env<E1, E2, T, L, V>, op: Op<E1, E2>) {
    && !op.Commit? && SignaturePasses(env, op)
    && (op.PkInG2? ==> op.pk2.Some? && op.pk2.value != env.G2.zero && (op.pkCheck ==> env.inG2(op.pk2.value)))
    && (op.PkInG1? ==> op.pk1.Some? && op.pk1.value != env.G1.zero && (op.pkCheck ==> env.inG1(op.pk1.value)))
  }

  /** A scalar of 0 is accepted and gives such a pair, whatever the key and the message. */
  lemma ScalarZero<E1(!new), E2(!new), T, L, V(!new)>(
      env: Env<E1, E2, T, L, V>, hash: bool, dst: seq<byte>, op: Op<E1, E2>, d: seq<byte>, n: nat, q: nat)
    requires Sound(env) && Multiplies(env.G1, env.mult1) && GoodKey(env, op)
    requires op.scalar == Some(ScalarBits(d, n)) && 0 < n <= 8 * |d| && W5.Scalar(d, n) == 0
    requires MultipleKnown(env.G1, Multiplied(env, hash, dst, op), q, d, n)
    ensures Step(env, Run(env, hash, dst, []), op).0 == Success
    ensures Contributes(env, hash, dst, KindOf(op), op) && !FinitePair(env, hash, dst, op)
  {
    RunAnswers(env, hash, dst, [], op);
    assert G.Mul(env.G1, 0, Multiplied(env, hash, dst, op)) == env.G1.zero;
  }
}
