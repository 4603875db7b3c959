/** The Miller loop over several pairs (external/blst/pairing.c:181-334). */
module Miller {
  import opened Monoids
  import opened ZDigits
  import G = Groups

  /**
   * What the loop needs of the curve arithmetic. A step of the point T yields the coefficients of
   * a line and the next T; a line is evaluated at a point P; values live in a commutative monoid.
   */
  datatype Curve<!Q, !P, !T, !L, !M> = Curve(
    m: Monoid<M>,
    conj: M -> M,               // conjugate_fp12
    start: Q -> T,              // an affine point in Jacobian coordinates
    dbl: T -> (L, T),           // line_dbl
    add: (T, Q) -> (L, T),      // line_add
    eval: (L, P) -> M,          // line_by_Px2, P doubled beforehand
    qInf: Q -> bool,
    pInf: P -> bool)
  {
    function Sqr(x: M): M {
      m.mul(x, x)
    }
  }

  ghost predicate Lawful<Q, P, T, L, M(!new)>(C: Curve<Q, P, T, L, M>) {
    && Commutative(C.m)
    && C.conj(C.m.one) == C.m.one
    && forall x: M, y: M :: C.conj(C.m.mul(x, y)) == C.m.mul(C.conj(x), C.conj(y))
  }

  // ---- one pair ----

  /** The running value and the running point. */
  datatype State<M, T> = State(f: M, t: T)

  function Start<Q, P, T, L, M>(C: Curve<Q, P, T, L, M>, q: Q, p: P): State<M, T> {
    var (l, t) := C.dbl(C.start(q));
    State(C.eval(l, p), t)
  }

  function AddStep<Q, P, T, L, M>(C: Curve<Q, P, T, L, M>, s: State<M, T>, q: Q, p: P): State<M, T> {
    var (l, t) := C.add(s.t, q);
    State(C.m.mul(s.f, C.eval(l, p)), t)
  }

  function DblStep<Q, P, T, L, M>(C: Curve<Q, P, T, L, M>, s: State<M, T>, p: P): State<M, T> {
    var (l, t) := C.dbl(s.t);
    State(C.m.mul(C.Sqr(s.f), C.eval(l, p)), t)
  }

  function DblSteps<Q, P, T, L, M>(C: Curve<Q, P, T, L, M>, s: State<M, T>, p: P, k: nat): State<M, T> {
    if k == 0 then s else DblStep(C, DblSteps(C, s, p, k - 1), p)
  }

  /** One addition followed by k doublings. */
  function AddDbl<Q, P, T, L, M>(C: Curve<Q, P, T, L, M>, s: State<M, T>, q: Q, p: P, k: nat): State<M, T> {
    DblSteps(C, AddStep(C, s, q, p), p, k)
  }

  /** The bits of |z| after the leading 11: an addition and so many doublings each. */
  const SCHEDULE: seq<nat> := [2, 3, 9, 32, 16]

  function Along<Q, P, T, L, M>(C: Curve<Q, P, T, L, M>, s: State<M, T>, q: Q, p: P, ks: seq<nat>): State<M, T> {
    if ks == [] then s else AddDbl(C, Along(C, s, q, p, ks[..|ks| - 1]), q, p, ks[|ks| - 1])
  }

  /**
   * The Miller recursion over the binary digits of n: a squaring and a line for each digit, and one
   * more line for each digit that is one.
   */
  function ByBits<Q, P, T, L, M>(C: Curve<Q, P, T, L, M>, q: Q, p: P, n: nat): State<M, T> {
    if n <= 1 then State(C.m.one, C.start(q))
    else if n % 2 == 0 then DblStep(C, ByBits(C, q, p, n / 2), p)
    else AddStep(C, ByBits(C, q, p, n - 1), q, p)
  }

  /** The single-pair Miller loop: the recursion to |z|, conjugated because z is negative. */
  function Single<Q, P, T, L, M>(C: Curve<Q, P, T, L, M>, q: Q, p: P): M {
    C.conj(ByBits(C, q, p, Z).f)
  }

  // ---- the schedule and |z| ----

  /** Where k doublings from m lead. */
  ghost function Shifted(m: nat, k: nat): nat {
    if k == 0 then m else 2 * Shifted(m, k - 1)
  }

  /** What the first j entries of the schedule lead to, from 2 on. */
  ghost function Multiple(j: nat): nat
    requires j <= 5
  {
    if j == 0 then 2 else Shifted(Multiple(j - 1) + 1, SCHEDULE[j - 1])
  }

  lemma {:induction false} ShiftByte(m: nat, k: nat)
    ensures Shifted(m, k + 8) == 256 * Shifted(m, k)
  {
    assert Shifted(m, k + 8) == 2 * Shifted(m, k + 7);
    assert Shifted(m, k + 6) == 2 * Shifted(m, k + 5);
    assert Shifted(m, k + 4) == 2 * Shifted(m, k + 3);
    assert Shifted(m, k + 2) == 2 * Shifted(m, k + 1);
  }

  lemma {:induction false} Multiples()
    ensures Multiple(0) == 2 && Multiple(1) == 0xc && Multiple(2) == 0x68 && Multiple(3) == 0xd200
    ensures Multiple(4) == 0xd20100000000 && Multiple(5) == Z
  {
    assert Multiple(1) == Shifted(3, 2);
    assert Multiple(2) == Shifted(0xd, 3);
    ShiftByte(0x69, 1);
    assert Multiple(3) == Shifted(0x69, 9);
    ShiftByte(0xd201, 0);
    ShiftByte(0xd201, 8);
    ShiftByte(0xd201, 16);
    ShiftByte(0xd201, 24);
    assert Multiple(4) == Shifted(0xd201, 32);
    ShiftByte(0xd20100000001, 0);
    ShiftByte(0xd20100000001, 8);
  }

  lemma {:induction false} MultipleEven(j: nat)
    requires j <= 5
    ensures Multiple(j) % 2 == 0 && Multiple(j) > 0
  {
    Multiples();
  }

  lemma {:induction false} Shifts(m: nat, k: nat)
    requires m > 0
    ensures Shifted(m, 0) == m && Shifted(m, k) > 0 && Shifted(m, k + 1) == 2 * Shifted(m, k)
  {
    if k > 0 {
      Shifts(m, k - 1);
    }
  }

  lemma {:induction false} DoubleBits<Q, P, T, L, M>(C: Curve<Q, P, T, L, M>, q: Q, p: P, x: nat)
    requires x > 0
    ensures ByBits(C, q, p, 2 * x) == DblStep(C, ByBits(C, q, p, x), p)
  {
  }

  lemma {:induction false} AddBits<Q, P, T, L, M>(C: Curve<Q, P, T, L, M>, q: Q, p: P, m: nat)
    requires m > 0 && m % 2 == 0
    ensures ByBits(C, q, p, m + 1) == AddStep(C, ByBits(C, q, p, m), q, p)
  {
  }

  lemma {:induction false} DblBits<Q, P, T, L, M>(C: Curve<Q, P, T, L, M>, q: Q, p: P, m: nat, k: nat)
    requires m > 0
    ensures DblSteps(C, ByBits(C, q, p, m), p, k) == ByBits(C, q, p, Shifted(m, k))
  {
    Shifts(m, 0);
    if k > 0 {
      DblBits(C, q, p, m, k - 1);
      Shifts(m, k - 1);
      DoubleBits(C, q, p, Shifted(m, k - 1));
    }
  }

  /** An entry of the schedule takes the recursion from m to (m + 1)*2^k. */
  lemma {:induction false} EntryBits<Q, P, T, L, M>(C: Curve<Q, P, T, L, M>, q: Q, p: P, m: nat, k: nat)
    requires m > 0 && m % 2 == 0
    ensures AddDbl(C, ByBits(C, q, p, m), q, p, k) == ByBits(C, q, p, Shifted(m + 1, k))
  {
    AddBits(C, q, p, m);
    DblBits(C, q, p, m + 1, k);
  }

  /** The first step is 1^2*line, which the source replaces with line. */
  lemma StartBits<Q, P, T, L, M(!new)>(C: Curve<Q, P, T, L, M>, q: Q, p: P)
    requires Lawful(C)
    ensures Start(C, q, p) == ByBits(C, q, p, 2)
  {
    var v := C.eval(C.dbl(C.start(q)).0, p);
    assert ByBits(C, q, p, 1) == State(C.m.one, C.start(q));
    Laws(C.m, C.m.one, C.m.one, C.m.one);
    Laws(C.m, C.m.one, v, v);
    Laws(C.m, v, C.m.one, v);
  }

  lemma {:induction false} AlongBits<Q, P, T, L, M(!new)>(C: Curve<Q, P, T, L, M>, q: Q, p: P, j: nat)
    requires Lawful(C) && j <= 5
    ensures Along(C, Start(C, q, p), q, p, SCHEDULE[..j]) == ByBits(C, q, p, Multiple(j))
  {
    if j == 0 {
      StartBits(C, q, p);
    } else {
      AlongBits(C, q, p, j - 1);
      assert SCHEDULE[..j][..j - 1] == SCHEDULE[..j - 1] && SCHEDULE[..j][j - 1] == SCHEDULE[j - 1];
      MultipleEven(j - 1);
      EntryBits(C, q, p, Multiple(j - 1), SCHEDULE[j - 1]);
    }
  }

  /** The schedule runs to |z|. */
  lemma {:induction false} AlongIsSingle<Q, P, T, L, M(!new)>(C: Curve<Q, P, T, L, M>, q: Q, p: P)
    requires Lawful(C)
    ensures C.conj(Along(C, Start(C, q, p), q, p, SCHEDULE).f) == Single(C, q, p)
  {
    assert SCHEDULE[..5] == SCHEDULE;
    AlongBits(C, q, p, 5);
    Multiples();
  }

  // ---- n pairs ----

  /** The states of all pairs; the n-pair loop keeps only the product of their values. */
  ghost predicate Tracks<Q, P, T, L, M>(C: Curve<Q, P, T, L, M>, ret: M, ts: seq<T>, ss: seq<State<M, T>>) {
    && |ts| == |ss|
    && (forall i :: 0 <= i < |ss| ==> ts[i] == ss[i].t)
    && ret == Product(C.m, Values(ss))
  }

  ghost function Values<M, T>(ss: seq<State<M, T>>): seq<M> {
    seq(|ss|, i requires 0 <= i < |ss| => ss[i].f)
  }

  /** The points of the first i pairs have been doubled. */
  ghost predicate StartedTo<Q, P, T, L, M>(C: Curve<Q, P, T, L, M>, ts: seq<T>, qs: seq<Q>, ps: seq<P>, i: nat) {
    && |ts| == |qs| == |ps|
    && forall k :: 0 <= k < |qs| ==> ts[k] == if k < i then Start(C, qs[k], ps[k]).t else C.start(qs[k])
  }

  lemma StartedNext<Q, P, T, L, M>(C: Curve<Q, P, T, L, M>, ts: seq<T>, qs: seq<Q>, ps: seq<P>, i: nat)
    requires StartedTo(C, ts, qs, ps, i) && i < |qs|
    ensures StartedTo(C, ts[i := C.dbl(ts[i]).1], qs, ps, i + 1)
    ensures C.eval(C.dbl(ts[i]).0, ps[i]) == Start(C, qs[i], ps[i]).f
  {
  }

  /** The first doubling: the square of 1 is left out, and the first line starts the product. */
  method StartDblN<Q, P, T, L, M(!new)>(C: Curve<Q, P, T, L, M>, ts: array<T>, qs: seq<Q>, ps: seq<P>) returns (ret: M)
    requires Lawful(C) && ts.Length == |qs| == |ps| > 0 && forall i :: 0 <= i < |qs| ==> ts[i] == C.start(qs[i])
    modifies ts
    ensures Tracks(C, ret, ts[..], Starts(C, qs, ps))
  {
    assert StartedTo(C, ts[..], qs, ps, 0);
    StartedNext(C, ts[..], qs, ps, 0);
    StartFirst(C, qs, ps);
    ghost var was := ts[..];
    var (l, t) := C.dbl(ts[0]);
    ts[0] := t;
    ret := C.eval(l, ps[0]);
    assert ts[..] == was[0 := t];
    for i := 1 to |qs|
      invariant StartedTo(C, ts[..], qs, ps, i) && ret == ProductTo(C, qs, ps, i)
    {
      StartedNext(C, ts[..], qs, ps, i);
      StartStep(C, qs, ps, i);
      was := ts[..];
      var (l, t) := C.dbl(ts[i]);
      ts[i] := t;
      ret := C.m.mul(ret, C.eval(l, ps[i]));
      assert ts[..] == was[i := t];
    }
    StartsTracked(C, ret, ts[..], qs, ps);
  }

  lemma StartsTracked<Q, P, T, L, M>(C: Curve<Q, P, T, L, M>, ret: M, ts: seq<T>, qs: seq<Q>, ps: seq<P>)
    requires |qs| == |ps| && ret == ProductTo(C, qs, ps, |qs|) && StartedTo(C, ts, qs, ps, |qs|)
    ensures Tracks(C, ret, ts, Starts(C, qs, ps))
  {
    assert Starts(C, qs, ps)[..|qs|] == Starts(C, qs, ps);
  }

  /** The product of the first i starting values. */
  ghost function ProductTo<Q, P, T, L, M>(C: Curve<Q, P, T, L, M>, qs: seq<Q>, ps: seq<P>, i: nat): M
    requires |qs| == |ps| && i <= |qs|
  {
    Product(C.m, Values(Starts(C, qs, ps)[..i]))
  }

  lemma {:induction false} StartFirst<Q, P, T, L, M(!new)>(C: Curve<Q, P, T, L, M>, qs: seq<Q>, ps: seq<P>)
    requires Lawful(C) && |qs| == |ps| > 0
    ensures ProductTo(C, qs, ps, 1) == Start(C, qs[0], ps[0]).f
  {
    assert Values(Starts(C, qs, ps)[..1]) == [Start(C, qs[0], ps[0]).f];
    ProductOne(C.m, Start(C, qs[0], ps[0]).f);
  }

  lemma {:induction false} StartStep<Q, P, T, L, M(!new)>(C: Curve<Q, P, T, L, M>, qs: seq<Q>, ps: seq<P>, i: nat)
    requires |qs| == |ps| && i < |qs|
    ensures ProductTo(C, qs, ps, i + 1) == C.m.mul(ProductTo(C, qs, ps, i), Start(C, qs[i], ps[i]).f)
  {
    var ss := Starts(C, qs, ps);
    ValuesSnoc(ss, i);
    ProductSnoc(C.m, Values(ss[..i]), ss[i].f);
  }

  ghost function Starts<Q, P, T, L, M>(C: Curve<Q, P, T, L, M>, qs: seq<Q>, ps: seq<P>): seq<State<M, T>>
    requires |qs| == |ps|
  {
    seq(|qs|, i requires 0 <= i < |qs| => Start(C, qs[i], ps[i]))
  }

  lemma ValuesSnoc<M, T>(ss: seq<State<M, T>>, i: nat)
    requires i < |ss|
    ensures Values(ss[..i + 1]) == Values(ss[..i]) + [ss[i].f]
  {
  }

  lemma {:induction false} ProductUpdate<M(!new)>(m: Monoid<M>, s: seq<M>, i: nat, x: M, y: M)
    requires Commutative(m) && i < |s| && y == m.mul(s[i], x)
    ensures Product(m, s[i := y]) == m.mul(Product(m, s), x)
  {
    var n := |s| - 1;
    var s' := s[i := y];
    if i == n {
      assert s'[..n] == s[..n];
      Laws(m, Product(m, s[..n]), s[n], x);
    } else {
      assert s'[..n] == s[..n][i := y];
      ProductUpdate(m, s[..n], i, x, y);
      var p := Product(m, s[..n]);
      Laws(m, p, x, s[n]);
      Laws(m, x, s[n], p);
      Laws(m, p, s[n], x);
    }
  }

  lemma {:induction false} ProductSquares<M(!new)>(m: Monoid<M>, s: seq<M>, t: seq<M>)
    requires Commutative(m) && |s| == |t| && forall i :: 0 <= i < |s| ==> t[i] == m.mul(s[i], s[i])
    ensures Product(m, t) == m.mul(Product(m, s), Product(m, s))
  {
    if s == [] {
      Laws(m, m.one, m.one, m.one);
    } else {
      var n := |s| - 1;
      ProductSquares(m, s[..n], t[..n]);
      Exchange(m, Product(m, s[..n]), Product(m, s[..n]), s[n], s[n]);
    }
  }

  /** One addition for every pair, lines 205-208. */
  method AddN<Q, P, T, L, M(!new)>(
      C: Curve<Q, P, T, L, M>, acc: M, ts: array<T>, qs: seq<Q>, ps: seq<P>, ghost ss: seq<State<M, T>>)
      returns (ret: M)
    requires Lawful(C) && |qs| == |ps| == |ss| && Tracks(C, acc, ts[..], ss)
    modifies ts
    ensures Tracks(C, ret, ts[..], Added(C, ss, qs, ps))
  {
    ret := acc;
    ghost var ss' := Added(C, ss, qs, ps);
    ghost var vs := Values(ss);
    for i := 0 to |qs|
      invariant |vs| == |ss| && (forall k :: 0 <= k < i ==> vs[k] == ss'[k].f)
      invariant (forall k :: i <= k < |ss| ==> vs[k] == ss[k].f)
      invariant forall k :: 0 <= k < i ==> ts[k] == ss'[k].t
      invariant forall k :: i <= k < |ss| ==> ts[k] == ss[k].t
      invariant ret == Product(C.m, vs)
    {
      var (l, t) := C.add(ts[i], qs[i]);
      ts[i] := t;
      ProductUpdate(C.m, vs, i, C.eval(l, ps[i]), ss'[i].f);
      vs := vs[i := ss'[i].f];
      ret := C.m.mul(ret, C.eval(l, ps[i]));
    }
    assert vs == Values(ss');
  }

  ghost function Added<Q, P, T, L, M>(
      C: Curve<Q, P, T, L, M>, ss: seq<State<M, T>>, qs: seq<Q>, ps: seq<P>): seq<State<M, T>>
    requires |qs| == |ps| == |ss|
  {
    seq(|ss|, i requires 0 <= i < |ss| => AddStep(C, ss[i], qs[i], ps[i]))
  }

  ghost function Doubled<Q, P, T, L, M>(C: Curve<Q, P, T, L, M>, ss: seq<State<M, T>>, ps: seq<P>): seq<State<M, T>>
    requires |ps| == |ss|
  {
    seq(|ss|, i requires 0 <= i < |ss| => DblStep(C, ss[i], ps[i]))
  }

  ghost function Squares<Q, P, T, L, M>(C: Curve<Q, P, T, L, M>, ss: seq<State<M, T>>): seq<M> {
    seq(|ss|, i requires 0 <= i < |ss| => C.Sqr(ss[i].f))
  }

  /** One squaring of the product and one doubling for every pair, lines 209-215. */
  method DblN<Q, P, T, L, M(!new)>(
      C: Curve<Q, P, T, L, M>, acc: M, ts: array<T>, ps: seq<P>, ghost ss: seq<State<M, T>>) returns (ret: M)
    requires Lawful(C) && |ps| == |ss| && Tracks(C, acc, ts[..], ss)
    modifies ts
    ensures Tracks(C, ret, ts[..], Doubled(C, ss, ps))
  {
    ret := C.Sqr(acc);
    ghost var ss' := Doubled(C, ss, ps);
    ghost var vs := Squares(C, ss);
    ProductSquares(C.m, Values(ss), vs);
    for i := 0 to |ps|
      invariant |vs| == |ss| && (forall k :: 0 <= k < i ==> vs[k] == ss'[k].f)
      invariant (forall k :: i <= k < |ss| ==> vs[k] == C.Sqr(ss[k].f))
      invariant forall k :: 0 <= k < i ==> ts[k] == ss'[k].t
      invariant forall k :: i <= k < |ss| ==> ts[k] == ss[k].t
      invariant ret == Product(C.m, vs)
    {
      var (l, t) := C.dbl(ts[i]);
      ts[i] := t;
      ProductUpdate(C.m, vs, i, C.eval(l, ps[i]), ss'[i].f);
      vs := vs[i := ss'[i].f];
      ret := C.m.mul(ret, C.eval(l, ps[i]));
    }
    assert vs == Values(ss');
  }

  ghost function AllAddDbl<Q, P, T, L, M>(
      C: Curve<Q, P, T, L, M>, ss: seq<State<M, T>>, qs: seq<Q>, ps: seq<P>, k: nat): seq<State<M, T>>
    requires |qs| == |ps| == |ss|
  {
    seq(|ss|, i requires 0 <= i < |ss| => AddDbl(C, ss[i], qs[i], ps[i], k))
  }

  /** add_n_dbl_n */
  method AddNDblN<Q, P, T, L, M(!new)>(
      C: Curve<Q, P, T, L, M>, acc: M, ts: array<T>, qs: seq<Q>, ps: seq<P>, k: nat, ghost ss: seq<State<M, T>>)
      returns (ret: M)
    requires Lawful(C) && |qs| == |ps| == |ss| && Tracks(C, acc, ts[..], ss)
    modifies ts
    ensures Tracks(C, ret, ts[..], AllAddDbl(C, ss, qs, ps, k))
  {
    ret := AddN(C, acc, ts, qs, ps, ss);
    assert Added(C, ss, qs, ps) == AllAddDbl(C, ss, qs, ps, 0);
    for j := 0 to k
      invariant Tracks(C, ret, ts[..], AllAddDbl(C, ss, qs, ps, j))
    {
      ret := DblN(C, ret, ts, ps, AllAddDbl(C, ss, qs, ps, j));
      assert Doubled(C, AllAddDbl(C, ss, qs, ps, j), ps) == AllAddDbl(C, ss, qs, ps, j + 1);
    }
  }

  ghost function AllAlong<Q, P, T, L, M>(
      C: Curve<Q, P, T, L, M>, qs: seq<Q>, ps: seq<P>, ks: seq<nat>): seq<State<M, T>>
    requires |qs| == |ps|
  {
    seq(|qs|, i requires 0 <= i < |qs| => Along(C, Start(C, qs[i], ps[i]), qs[i], ps[i], ks))
  }

  ghost function Singles<Q, P, T, L, M>(C: Curve<Q, P, T, L, M>, qs: seq<Q>, ps: seq<P>): seq<M>
    requires |qs| == |ps|
  {
    seq(|qs|, i requires 0 <= i < |qs| => Single(C, qs[i], ps[i]))
  }

  /** What miller_loop_n computes: a lone pair with a point at infinity gives 1, anything else a product. */
  ghost function LoopValue<Q, P, T, L, M>(C: Curve<Q, P, T, L, M>, qs: seq<Q>, ps: seq<P>): M
    requires |qs| == |ps|
  {
    if |qs| == 1 && (C.qInf(qs[0]) || C.pInf(ps[0])) then C.m.one else Product(C.m, Singles(C, qs, ps))
  }

  lemma {:induction false} ConjOfProduct<Q, P, T, L, M(!new)>(C: Curve<Q, P, T, L, M>, s: seq<M>, t: seq<M>)
    requires Lawful(C) && |s| == |t| && forall i :: 0 <= i < |s| ==> t[i] == C.conj(s[i])
    ensures Product(C.m, t) == C.conj(Product(C.m, s))
  {
    if s != [] {
      var n := |s| - 1;
      ConjOfProduct(C, s[..n], t[..n]);
    }
  }

  /** miller_loop_n */
  method MillerLoopN<Q, P, T, L, M(!new)>(C: Curve<Q, P, T, L, M>, qs: seq<Q>, ps: seq<P>) returns (ret: M)
    requires Lawful(C) && |qs| == |ps| > 0
    ensures ret == LoopValue(C, qs, ps)
  {
    var n := |qs|;
    if n == 1 && (C.qInf(qs[0]) || C.pInf(ps[0])) {
      return C.m.one;
    }
    var ts := new T[n](i requires 0 <= i < n => C.start(qs[i]));
    ret := StartDblN(C, ts, qs, ps);
    assert Starts(C, qs, ps) == AllAlong(C, qs, ps, SCHEDULE[..0]);
    for j := 0 to 5
      invariant Tracks(C, ret, ts[..], AllAlong(C, qs, ps, SCHEDULE[..j]))
    {
      ret := AddNDblN(C, ret, ts, qs, ps, SCHEDULE[j], AllAlong(C, qs, ps, SCHEDULE[..j]));
      AlongStep(C, qs, ps, j);
    }
    assert SCHEDULE[..5] == SCHEDULE;
    AllSingle(C, qs, ps);
    ConjOfProduct(C, Values(AllAlong(C, qs, ps, SCHEDULE)), Singles(C, qs, ps));
    ret := C.conj(ret);
  }

  lemma AllSingle<Q, P, T, L, M(!new)>(C: Curve<Q, P, T, L, M>, qs: seq<Q>, ps: seq<P>)
    requires Lawful(C) && |qs| == |ps|
    ensures var vs := Values(AllAlong(C, qs, ps, SCHEDULE));
      |vs| == |qs| && forall i :: 0 <= i < |qs| ==> Singles(C, qs, ps)[i] == C.conj(vs[i])
  {
    forall i | 0 <= i < |qs|
      ensures Single(C, qs[i], ps[i]) == C.conj(Values(AllAlong(C, qs, ps, SCHEDULE))[i])
    {
      AlongIsSingle(C, qs[i], ps[i]);
    }
  }

  lemma AlongStep<Q, P, T, L, M>(C: Curve<Q, P, T, L, M>, qs: seq<Q>, ps: seq<P>, j: nat)
    requires |qs| == |ps| && j < 5
    ensures AllAddDbl(C, AllAlong(C, qs, ps, SCHEDULE[..j]), qs, ps, SCHEDULE[j])
        == AllAlong(C, qs, ps, SCHEDULE[..j + 1])
  {
    assert SCHEDULE[..j + 1][..j] == SCHEDULE[..j] && SCHEDULE[..j + 1][j] == SCHEDULE[j];
  }

  // ---- precomputed lines ----

  /** The lines on the way to n, in the order of the recursion, and the point at its end. */
  datatype Way<L, T> = Way(lines: seq<L>, t: T)

  /** The recursion without P. */
  ghost function WayTo<Q, P, T, L, M>(C: Curve<Q, P, T, L, M>, q: Q, n: nat): Way<L, T> {
    if n <= 1 then Way([], C.start(q))
    else
      var w := WayTo(C, q, if n % 2 == 0 then n / 2 else n - 1);
      var (l, t) := if n % 2 == 0 then C.dbl(w.t) else C.add(w.t, q);
      Way(w.lines + [l], t)
  }

  ghost function PointOf<Q, P, T, L, M>(C: Curve<Q, P, T, L, M>, q: Q, n: nat): T {
    WayTo(C, q, n).t
  }

  ghost function LinesOf<Q, P, T, L, M>(C: Curve<Q, P, T, L, M>, q: Q, n: nat): seq<L> {
    WayTo(C, q, n).lines
  }

  lemma {:induction false} DoubleLines<Q, P, T, L, M>(C: Curve<Q, P, T, L, M>, q: Q, x: nat)
    requires x > 0
    ensures PointOf(C, q, 2 * x) == C.dbl(PointOf(C, q, x)).1
    ensures LinesOf(C, q, 2 * x) == LinesOf(C, q, x) + [C.dbl(PointOf(C, q, x)).0]
  {
  }

  lemma {:induction false} AddLines<Q, P, T, L, M>(C: Curve<Q, P, T, L, M>, q: Q, m: nat)
    requires m > 0 && m % 2 == 0
    ensures PointOf(C, q, m + 1) == C.add(PointOf(C, q, m), q).1
    ensures LinesOf(C, q, m + 1) == LinesOf(C, q, m) + [C.add(PointOf(C, q, m), q).0]
  {
  }

  lemma {:induction false} PointOfBits<Q, P, T, L, M>(C: Curve<Q, P, T, L, M>, q: Q, p: P, n: nat)
    ensures ByBits(C, q, p, n).t == PointOf(C, q, n)
  {
    if n > 1 {
      PointOfBits(C, q, p, if n % 2 == 0 then n / 2 else n - 1);
    }
  }

  /** Where adding and doubling are those of a group, the loop ends at |z| times the point. */
  lemma {:induction false} PointIsMultiple<Q(!new), P, T(!new), L, M>(
      C: Curve<Q, P, T, L, M>, g: G.Group<T>, q: Q, n: nat)
    requires G.Abelian(g) && n > 0
    requires forall t: T :: C.dbl(t).1 == g.add(t, t)
    requires forall t: T, q: Q :: C.add(t, q).1 == g.add(t, C.start(q))
    ensures PointOf(C, q, n) == G.Mul(g, n, C.start(q))
  {
    if n == 1 {
      G.MulOne(g, C.start(q));
    } else if n % 2 == 0 {
      PointIsMultiple(C, g, q, n / 2);
      G.MulAdds(g, n / 2, n / 2, C.start(q));
    } else {
      PointIsMultiple(C, g, q, n - 1);
      G.MulSucc(g, n - 1, C.start(q));
    }
  }

  /**
   * A homomorphism from values to a group of divisors, written additively, under which the line of a
   * step stands for the points it adds less the point it reaches.
   */
  ghost predicate Divisors<Q, P, T(!new), L, M(!new), E>(
      C: Curve<Q, P, T, L, M>, g: G.Group<E>, div: M -> E, at: T -> E, q: Q, p: P)
  {
    && (forall x: M, y: M :: div(C.m.mul(x, y)) == g.add(div(x), div(y)))
    && (forall t: T :: var (l, t') := C.dbl(t); g.add(div(C.eval(l, p)), at(t')) == g.add(at(t), at(t)))
    && (forall t: T ::
          var (l, t') := C.add(t, q); g.add(div(C.eval(l, p)), at(t')) == g.add(at(t), at(C.start(q))))
  }

  /** Miller's theorem: the divisor of the value at n is n times that of the point less that of the n-th multiple. */
  lemma {:induction false} MillerLaw<Q, P, T(!new), L, M(!new), E(!new)>(
      C: Curve<Q, P, T, L, M>, g: G.Group<E>, div: M -> E, at: T -> E, q: Q, p: P, n: nat)
    requires G.Abelian(g) && Commutative(C.m) && Divisors(C, g, div, at, q, p) && n > 0
    ensures var s := ByBits(C, q, p, n); g.add(div(s.f), at(s.t)) == G.Mul(g, n, at(C.start(q)))
  {
    var e := at(C.start(q));
    if n == 1 {
      DivisorOfOne(C, g, div, at, q, p);
      G.MulOne(g, e);
      G.Laws(g, e, g.zero, e);
    } else if n % 2 == 0 {
      var s := ByBits(C, q, p, n / 2);
      MillerLaw(C, g, div, at, q, p, n / 2);
      var (l, t) := C.dbl(s.t);
      G.Laws(g, g.add(div(s.f), div(s.f)), div(C.eval(l, p)), at(t));
      G.Exchange(g, div(s.f), div(s.f), at(s.t), at(s.t));
      G.MulAdds(g, n / 2, n / 2, e);
    } else {
      var s := ByBits(C, q, p, n - 1);
      MillerLaw(C, g, div, at, q, p, n - 1);
      var (l, t) := C.add(s.t, q);
      G.Laws(g, div(s.f), div(C.eval(l, p)), at(t));
      G.Laws(g, div(s.f), at(s.t), e);
      G.MulSucc(g, n - 1, e);
    }
  }

  /** With conjugates as inverses, the loop has the divisor that goes with z itself, which is negative. */
  lemma {:induction false} SingleLaw<Q, P, T(!new), L, M(!new), E(!new)>(
      C: Curve<Q, P, T, L, M>, g: G.Group<E>, div: M -> E, at: T -> E, q: Q, p: P)
    requires G.Abelian(g) && Commutative(C.m) && Divisors(C, g, div, at, q, p)
    requires forall x: M :: div(C.conj(x)) == g.neg(div(x))
    ensures g.add(div(Single(C, q, p)), g.neg(at(PointOf(C, q, Z)))) == G.Mul(g, -Z, at(C.start(q)))
  {
    var s := ByBits(C, q, p, Z);
    MillerLaw(C, g, div, at, q, p, Z);
    PointOfBits(C, q, p, Z);
    G.MulNegates(g, Z, at(C.start(q)));
    var a, b := div(s.f), at(s.t);
    G.Exchange(g, a, b, g.neg(a), g.neg(b));
    G.Laws(g, a, b, a);
    G.Laws(g, b, a, b);
    G.Laws(g, g.zero, a, a);
    G.NegUnique(g, g.add(a, b), g.add(g.neg(a), g.neg(b)));
  }

  lemma DivisorOfOne<Q, P, T(!new), L, M(!new), E(!new)>(
      C: Curve<Q, P, T, L, M>, g: G.Group<E>, div: M -> E, at: T -> E, q: Q, p: P)
    requires G.Abelian(g) && Commutative(C.m) && Divisors(C, g, div, at, q, p)
    ensures div(C.m.one) == g.zero
  {
    var d := div(C.m.one);
    Laws(C.m, C.m.one, C.m.one, C.m.one);
    G.Laws(g, d, g.zero, d);
    G.Laws(g, g.zero, d, d);
    G.Cancel(g, d, g.zero, d);
  }

  /** pre_add_n_dbl: the lines from m to (m + 1)*2^n, in consecutive slots. */
  method PreAddNDbl<Q, P, T, L, M>(
      C: Curve<Q, P, T, L, M>, lines: array<L>, off: nat, t0: T, q: Q, n: nat, ghost m: nat) returns (t: T)
    requires off + n + 1 <= lines.Length && m > 0 && m % 2 == 0
    requires t0 == PointOf(C, q, m) && lines[..off] == LinesOf(C, q, m)
    modifies lines
    ensures lines[..off + n + 1] == LinesOf(C, q, Shifted(m + 1, n))
    ensures t == PointOf(C, q, Shifted(m + 1, n))
  {
    var (l, t1) := C.add(t0, q);
    lines[off] := l;
    t := t1;
    AddLines(C, q, m);
    Shifts(m + 1, 0);
    assert lines[..off + 1] == lines[..off] + [l];
    for k := 0 to n
      invariant t == PointOf(C, q, Shifted(m + 1, k))
      invariant lines[..off + k + 1] == LinesOf(C, q, Shifted(m + 1, k))
    {
      Shifts(m + 1, k);
      DoubleLines(C, q, Shifted(m + 1, k));
      ghost var was := lines[..off + k + 1];
      var (l', t') := C.dbl(t);
      lines[off + 1 + k] := l';
      t := t';
      assert lines[..off + k + 2] == was + [l'];
    }
  }

  /** The slot where the block of the j-th entry of the schedule begins. */
  const OFFSETS: seq<nat> := [1, 4, 8, 18, 51, 68]

  ghost predicate Prefix<L>(a: seq<L>, b: seq<L>) {
    |a| <= |b| && b[..|a|] == a
  }

  lemma {:induction false} DblLines<Q, P, T, L, M>(C: Curve<Q, P, T, L, M>, q: Q, m: nat, k: nat)
    requires m > 0
    ensures Prefix(LinesOf(C, q, m), LinesOf(C, q, Shifted(m, k)))
    ensures |LinesOf(C, q, Shifted(m, k))| == |LinesOf(C, q, m)| + k
  {
    Shifts(m, 0);
    if k > 0 {
      DblLines(C, q, m, k - 1);
      Shifts(m, k - 1);
      DoubleLines(C, q, Shifted(m, k - 1));
    }
  }

  lemma {:induction false} EntryLines<Q, P, T, L, M>(C: Curve<Q, P, T, L, M>, q: Q, m: nat, k: nat)
    requires m > 0 && m % 2 == 0
    ensures Prefix(LinesOf(C, q, m), LinesOf(C, q, Shifted(m + 1, k)))
    ensures |LinesOf(C, q, Shifted(m + 1, k))| == |LinesOf(C, q, m)| + k + 1
  {
    AddLines(C, q, m);
    DblLines(C, q, m + 1, k);
    var a, b := LinesOf(C, q, m), LinesOf(C, q, Shifted(m + 1, k));
    assert b[..|a|] == b[..|a| + 1][..|a|];
  }

  /** The offsets are the numbers of lines so far, 68 in all, and every prefix leads to the next. */
  lemma {:induction false} OffsetsFit<Q, P, T, L, M>(C: Curve<Q, P, T, L, M>, q: Q, j: nat)
    requires j <= 5
    ensures |LinesOf(C, q, Multiple(j))| == OFFSETS[j]
    ensures j < 5 ==> OFFSETS[j] + SCHEDULE[j] + 1 == OFFSETS[j + 1] <= 68
  {
    if j == 0 {
      assert LinesOf(C, q, 1) == [];
    } else {
      OffsetsFit(C, q, j - 1);
      MultipleEven(j - 1);
      EntryLines(C, q, Multiple(j - 1), SCHEDULE[j - 1]);
    }
  }

  /** precompute_lines fills all 68 slots with the lines on the way to |z|. */
  method PrecomputeLines<Q, P, T, L, M>(C: Curve<Q, P, T, L, M>, lines: array<L>, q: Q)
    requires lines.Length == 68
    modifies lines
    ensures lines[..] == LinesOf(C, q, Z)
  {
    var (l, t0) := C.dbl(C.start(q));
    lines[0] := l;
    var t := t0;
    FirstLine(C, q);
    assert lines[..1] == [l];
    for j := 0 to 5
      invariant t == PointOf(C, q, Multiple(j)) && lines[..OFFSETS[j]] == LinesOf(C, q, Multiple(j))
    {
      OffsetsFit(C, q, j);
      MultipleEven(j);
      t := PreAddNDbl(C, lines, OFFSETS[j], t, q, SCHEDULE[j], Multiple(j));
    }
    Multiples();
    assert lines[..] == lines[..68];
  }

  lemma FirstLine<Q, P, T, L, M>(C: Curve<Q, P, T, L, M>, q: Q)
    ensures Multiple(0) == 2 && LinesOf(C, q, 2) == [C.dbl(C.start(q)).0] && PointOf(C, q, 2) == C.dbl(C.start(q)).1
  {
    assert LinesOf(C, q, 1) == [] && PointOf(C, q, 1) == C.start(q);
  }

  /** post_add_n_dbl reads the lines from m to (m + 1)*2^n and takes the same steps. */
  method PostAddNDbl<Q, P, T, L, M>(
      C: Curve<Q, P, T, L, M>, acc: M, lines: seq<L>, p: P, n: nat, ghost q: Q, ghost m: nat) returns (ret: M)
    requires m > 0 && m % 2 == 0 && acc == ByBits(C, q, p, m).f
    requires LinesOf(C, q, m) + lines == LinesOf(C, q, Shifted(m + 1, n)) && |lines| == n + 1
    ensures ret == ByBits(C, q, p, Shifted(m + 1, n)).f
  {
    AddLine(C, q, p, m, n, lines);
    ret := C.m.mul(acc, C.eval(lines[0], p));
    for k := 0 to n
      invariant ret == ByBits(C, q, p, Shifted(m + 1, k)).f
    {
      DblLine(C, q, p, m, n, lines, k);
      ret := C.Sqr(ret);
      ret := C.m.mul(ret, C.eval(lines[1 + k], p));
    }
  }

  /** The first slot of a block holds the line of the addition. */
  lemma {:induction false} AddLine<Q, P, T, L, M>(
      C: Curve<Q, P, T, L, M>, q: Q, p: P, m: nat, n: nat, lines: seq<L>)
    requires m > 0 && m % 2 == 0 && |lines| == n + 1
    requires LinesOf(C, q, m) + lines == LinesOf(C, q, Shifted(m + 1, n))
    ensures ByBits(C, q, p, Shifted(m + 1, 0)).f == C.m.mul(ByBits(C, q, p, m).f, C.eval(lines[0], p))
  {
    Shifts(m + 1, 0);
    AddBits(C, q, p, m);
    AddLines(C, q, m);
    DblLines(C, q, m + 1, n);
    PointOfBits(C, q, p, m);
    LineAt(LinesOf(C, q, m), lines, LinesOf(C, q, m + 1), 0);
  }

  /** The slots after it hold those of the doublings. */
  lemma {:induction false} DblLine<Q, P, T, L, M>(
      C: Curve<Q, P, T, L, M>, q: Q, p: P, m: nat, n: nat, lines: seq<L>, k: nat)
    requires m > 0 && m % 2 == 0 && |lines| == n + 1 && k < n
    requires LinesOf(C, q, m) + lines == LinesOf(C, q, Shifted(m + 1, n))
    ensures ByBits(C, q, p, Shifted(m + 1, k + 1)).f
        == C.m.mul(C.Sqr(ByBits(C, q, p, Shifted(m + 1, k)).f), C.eval(lines[k + 1], p))
  {
    var x := Shifted(m + 1, k);
    Shifts(m + 1, k);
    DoubleBits(C, q, p, x);
    DoubleLines(C, q, x);
    PointOfBits(C, q, p, x);
    EntryLines(C, q, m, k);
    EntryLines(C, q, m, k + 1);
    LaterLines(C, q, m, k + 1, n);
    LineAt(LinesOf(C, q, m), lines, LinesOf(C, q, 2 * x), k + 1);
  }

  lemma {:induction false} LaterLines<Q, P, T, L, M>(C: Curve<Q, P, T, L, M>, q: Q, m: nat, k: nat, n: nat)
    requires k <= n
    ensures Prefix(LinesOf(C, q, Shifted(m + 1, k)), LinesOf(C, q, Shifted(m + 1, n)))
    decreases n
  {
    if k < n {
      LaterLines(C, q, m, k, n - 1);
      Shifts(m + 1, n - 1);
      DoubleLines(C, q, Shifted(m + 1, n - 1));
    }
  }

  lemma LineAt<L>(a: seq<L>, lines: seq<L>, b: seq<L>, i: nat)
    requires Prefix(b, a + lines) && i < |lines| && |b| == |a| + i + 1
    ensures lines[i] == b[|a| + i]
  {
    assert (a + lines)[..|b|][|a| + i] == (a + lines)[|a| + i];
  }

  /** miller_loop_lines over precomputed lines is the single-pair loop. */
  method MillerLoopLines<Q, P, T, L, M(!new)>(C: Curve<Q, P, T, L, M>, lines: seq<L>, p: P, ghost q: Q) returns (ret: M)
    requires Lawful(C) && lines == LinesOf(C, q, Z)
    ensures ret == Single(C, q, p)
  {
    Multiples();
    FirstLine(C, q);
    StartBits(C, q, p);
    AllPrefixes(C, q, 0);
    ret := C.eval(lines[0], p);
    for j := 0 to 5
      invariant ret == ByBits(C, q, p, Multiple(j)).f
    {
      NextBlock(C, q, lines, j);
      ret := PostAddNDbl(C, ret, lines[OFFSETS[j]..OFFSETS[j + 1]], p, SCHEDULE[j], q, Multiple(j));
    }
    ret := C.conj(ret);
  }

  lemma {:induction false} NextBlock<Q, P, T, L, M>(C: Curve<Q, P, T, L, M>, q: Q, lines: seq<L>, j: nat)
    requires j < 5 && lines == LinesOf(C, q, Multiple(5))
    ensures OFFSETS[j] + SCHEDULE[j] + 1 == OFFSETS[j + 1] <= |lines|
    ensures Multiple(j) > 0 && Multiple(j) % 2 == 0 && Multiple(j + 1) == Shifted(Multiple(j) + 1, SCHEDULE[j])
    ensures LinesOf(C, q, Multiple(j)) + lines[OFFSETS[j]..OFFSETS[j + 1]] == LinesOf(C, q, Multiple(j + 1))
  {
    OffsetsFit(C, q, j);
    MultipleEven(j);
    AllPrefixes(C, q, j);
    AllPrefixes(C, q, j + 1);
    assert lines[..OFFSETS[j]] + lines[OFFSETS[j]..OFFSETS[j + 1]] == lines[..OFFSETS[j + 1]];
  }

  lemma {:induction false} AllPrefixes<Q, P, T, L, M>(C: Curve<Q, P, T, L, M>, q: Q, j: nat)
    requires j <= 5
    ensures var all, a := LinesOf(C, q, Multiple(5)), LinesOf(C, q, Multiple(j));
      |all| == 68 && |a| == OFFSETS[j] <= 68 && all[..|a|] == a
    decreases 5 - j
  {
    OffsetsFit(C, q, j);
    OffsetsFit(C, q, 5);
    if j < 5 {
      AllPrefixes(C, q, j + 1);
      MultipleEven(j);
      EntryLines(C, q, Multiple(j), SCHEDULE[j]);
      var all, a, b := LinesOf(C, q, Multiple(5)), LinesOf(C, q, Multiple(j)), LinesOf(C, q, Multiple(j + 1));
      assert all[..|a|] == all[..|b|][..|a|];
    }
  }
}
