/** The pairing context, updated in place (external/blst/aggregate.c:43-488). */
module Pairing {
  import opened ByteStrings
  import opened Miller
  import opened PairingSpec
  import opened PairingMerge

  /** The flag bits of ctrl. */
  datatype Ctrl = Ctrl(minSig: bool, minPk: bool, signSet: bool, gtSet: bool, hash: bool)

  /** A union of a point of either curve: reading the other member than was written has no meaning here. */
  datatype AggregatedSignature<E1, E2> = AsE1(e1: E1) | AsE2(e2: E2)

  class Context<E1(!new), E2(!new), V(!new, ==)> {
    var ctrl: Ctrl
    var nelems: nat
    var dst: seq<byte>
    var GT: V
    var aggrSign: AggregatedSignature<E1, E2>
    const Q: array<E2>
    const P: array<E1>

    ghost predicate Valid()
      reads this
    {
      && Q.Length == P.Length == N_MAX && (Q as object) != P
      && nelems < N_MAX
      && !(ctrl.minSig && ctrl.minPk)
      && (ctrl.signSet ==> if aggrSign.AsE1? then ctrl.minSig else ctrl.minPk)
      && (!ctrl.minSig && !ctrl.minPk ==> !ctrl.gtSet && nelems == 0)
    }

    ghost function View(): (c: Ctx<E1, E2, V>)
      requires Valid()
      reads this, Q, P
    {
      ViewTo(nelems)
    }

    ghost function ViewTo(n: nat): (c: Ctx<E1, E2, V>)
      requires n <= Q.Length && n <= P.Length
      reads this, Q, P
    {
      Ctx(if ctrl.minSig then MinSig else if ctrl.minPk then MinPk else Undefined, ctrl.hash, dst,
        if ctrl.gtSet then Some(GT) else None,
        if !ctrl.signSet then NoSign else if aggrSign.AsE1? then Sign1(aggrSign.e1) else Sign2(aggrSign.e2),
        Q[..n], P[..n])
    }

    /** blst_pairing_init sets flags and count only; GT, signature and buffers hold whatever was in memory. */
    constructor (hashOrEncode: bool, dst: seq<byte>, gt0: V, sign0: AggregatedSignature<E1, E2>, q0: E2, p0: E1)
      ensures Valid() && fresh(Q) && fresh(P)
      ensures View() == Init(hashOrEncode, dst)
    {
      ctrl := Ctrl(false, false, false, false, hashOrEncode);
      nelems := 0;
      this.dst := dst;
      GT := gt0;
      aggrSign := sign0;
      var q := new E2[N_MAX](i => q0);
      Q := q;
      P := new E1[N_MAX](i => p0);
    }

    /** The Miller loop over the first n buffered pairs, multiplied into GT or setting it. */
    method FlushBuffer<T, L>(env: Env<E1, E2, T, L, V>, n: nat)
      requires Lawful(env.C) && 0 < n <= Q.Length && n <= P.Length
      modifies this`GT, this`ctrl
      ensures ViewTo(0) == Flush(env, old(ViewTo(n)))
      ensures ctrl == old(ctrl).(gtSet := true)
    {
      assert Q[..0] == [] && P[..0] == [];
      var gt := MillerLoopN(env.C, Q[..n], P[..n]);
      if ctrl.gtSet {
        GT := env.C.m.mul(GT, gt);
      } else {
        GT := gt;
        ctrl := ctrl.(gtSet := true);
      }
    }

    /** The new pair goes to slot nelems; the eighth one empties the buffer into GT. */
    method PushPair<T, L>(env: Env<E1, E2, T, L, V>, q: E2, p: E1)
      requires Lawful(env.C) && Valid() && (ctrl.minSig || ctrl.minPk)
      modifies this`GT, this`ctrl, this`nelems, Q, P
      ensures Valid() && View() == Push(env, old(View()), q, p)
    {
      var n := nelems;
      ghost var c := View();
      Q[n] := q;
      P[n] := p;
      n := n + 1;
      assert Q[..n] == c.qs + [q] && P[..n] == c.ps + [p];
      if n == N_MAX {
        FlushBuffer(env, n);
        n := 0;
      }
      nelems := n;
    }

    method AddSignE1<T, L>(env: Env<E1, E2, T, L, V>, sig: E1, scalar: Option<ScalarBits>)
      requires Valid() && ctrl.minSig
      modifies this`aggrSign, this`ctrl
      ensures Valid() && View() == AddSign1(env, old(View()), Scaled(env.mult1, scalar, sig))
      ensures ctrl == old(ctrl).(signSet := true)
    {
      var p := sig;
      if scalar.Some? && scalar.value.nbits != 0 {
        p := env.mult1(scalar.value.bytes, scalar.value.nbits, p);
      }
      if ctrl.signSet {
        aggrSign := AsE1(env.G1.add(aggrSign.e1, p));
      } else {
        ctrl := ctrl.(signSet := true);
        aggrSign := AsE1(p);
      }
    }

    method AddSignE2<T, L>(env: Env<E1, E2, T, L, V>, sig: E2, scalar: Option<ScalarBits>)
      requires Valid() && ctrl.minPk
      modifies this`aggrSign, this`ctrl
      ensures Valid() && View() == AddSign2(env, old(View()), Scaled(env.mult2, scalar, sig))
      ensures ctrl == old(ctrl).(signSet := true)
    {
      var p := sig;
      if scalar.Some? && scalar.value.nbits != 0 {
        p := env.mult2(scalar.value.bytes, scalar.value.nbits, p);
      }
      if ctrl.signSet {
        aggrSign := AsE2(env.G2.add(aggrSign.e2, p));
      } else {
        ctrl := ctrl.(signSet := true);
        aggrSign := AsE2(p);
      }
    }

    /** PAIRING_Aggregate_PK_in_G2 */
    method AggregatePkInG2<T, L>(
        env: Env<E1, E2, T, L, V>, pk: Option<E2>, pkCheck: bool, sig: Option<E1>, sigCheck: bool,
        scalar: Option<ScalarBits>, msg: seq<byte>, aug: seq<byte>)
        returns (err: Error)
      requires Sound(env) && Valid()
      modifies this, Q, P
      ensures Valid()
      ensures (err, View()) == Step(env, old(View()), PkInG2(pk, pkCheck, sig, sigCheck, scalar, msg, aug))
    {
      if ctrl.minPk {
        return AggrTypeMismatch;
      }
      ghost var op: Op<E1, E2> := PkInG2(pk, pkCheck, sig, sigCheck, scalar, msg, aug);
      var bad := TakeE1(env, sig, sigCheck, scalar, op);
      if bad {
        return PointNotInGroup;
      }
      err := AddKeyInG2(env, pk, pkCheck, scalar, msg, aug, op);
    }

    method TakeE1<T, L>(
        env: Env<E1, E2, T, L, V>, sig: Option<E1>, sigCheck: bool, scalar: Option<ScalarBits>, ghost op: Op<E1, E2>)
        returns (bad: bool)
      requires Valid() && !ctrl.minPk && op.PkInG2? && op.sig1 == sig && op.sigCheck == sigCheck && op.scalar == scalar
      modifies this`aggrSign, this`ctrl
      ensures Valid() && ctrl.minSig
      ensures (bad, View()) == SignPartG2(env, old(View()), op)
    {
      ctrl := ctrl.(minSig := true);
      if sig.Some? && !env.C.pInf(sig.value) {
        if sigCheck && !env.inG1(sig.value) {
          return true;
        }
        AddSignE1(env, sig.value, scalar);
      }
      return false;
    }

    method AddKeyInG2<T, L>(
        env: Env<E1, E2, T, L, V>, pk: Option<E2>, pkCheck: bool, scalar: Option<ScalarBits>, msg: seq<byte>,
        aug: seq<byte>, ghost op: Op<E1, E2>)
        returns (err: Error)
      requires Lawful(env.C) && Valid() && ctrl.minSig
      requires op.PkInG2? && op.pk2 == pk && op.pkCheck == pkCheck && op.scalar == scalar && op.msg == msg
      requires op.aug == aug
      modifies this`GT, this`ctrl, this`nelems, Q, P
      ensures Valid()
      ensures (err, View()) == KeyPartG2(env, old(View()), op)
    {
      if pk.None? {
        return Success;
      }
      if env.C.qInf(pk.value) {
        return PkIsInfinity;
      }
      if pkCheck && !env.inG2(pk.value) {
        return PointNotInGroup;
      }
      var h := env.hash1(ctrl.hash, Input(msg, dst, aug));
      if scalar.Some? && scalar.value.nbits != 0 {
        h := env.mult1(scalar.value.bytes, scalar.value.nbits, h);
      }
      PushPair(env, pk.value, h);
      return Success;
    }

    /** PAIRING_Aggregate_PK_in_G1; here the scalar multiplies the key, not the hash. */
    method AggregatePkInG1<T, L>(
        env: Env<E1, E2, T, L, V>, pk: Option<E1>, pkCheck: bool, sig: Option<E2>, sigCheck: bool,
        scalar: Option<ScalarBits>, msg: seq<byte>, aug: seq<byte>)
        returns (err: Error)
      requires Sound(env) && Valid()
      modifies this, Q, P
      ensures Valid()
      ensures (err, View()) == Step(env, old(View()), PkInG1(pk, pkCheck, sig, sigCheck, scalar, msg, aug))
    {
      if ctrl.minSig {
        return AggrTypeMismatch;
      }
      ghost var op: Op<E1, E2> := PkInG1(pk, pkCheck, sig, sigCheck, scalar, msg, aug);
      var bad := TakeE2(env, sig, sigCheck, scalar, op);
      if bad {
        return PointNotInGroup;
      }
      err := AddKeyInG1(env, pk, pkCheck, scalar, msg, aug, op);
    }

    method TakeE2<T, L>(
        env: Env<E1, E2, T, L, V>, sig: Option<E2>, sigCheck: bool, scalar: Option<ScalarBits>, ghost op: Op<E1, E2>)
        returns (bad: bool)
      requires Valid() && !ctrl.minSig && op.PkInG1? && op.sig2 == sig && op.sigCheck == sigCheck && op.scalar == scalar
      modifies this`aggrSign, this`ctrl
      ensures Valid() && ctrl.minPk
      ensures (bad, View()) == SignPartG1(env, old(View()), op)
    {
      ctrl := ctrl.(minPk := true);
      if sig.Some? && !env.C.qInf(sig.value) {
        if sigCheck && !env.inG2(sig.value) {
          return true;
        }
        AddSignE2(env, sig.value, scalar);
      }
      return false;
    }

    method AddKeyInG1<T, L>(
        env: Env<E1, E2, T, L, V>, pk: Option<E1>, pkCheck: bool, scalar: Option<ScalarBits>, msg: seq<byte>,
        aug: seq<byte>, ghost op: Op<E1, E2>)
        returns (err: Error)
      requires Lawful(env.C) && Valid() && ctrl.minPk
      requires op.PkInG1? && op.pk1 == pk && op.pkCheck == pkCheck && op.scalar == scalar && op.msg == msg
      requires op.aug == aug
      modifies this`GT, this`ctrl, this`nelems, Q, P
      ensures Valid()
      ensures (err, View()) == KeyPartG1(env, old(View()), op)
    {
      if pk.None? {
        return Success;
      }
      if env.C.pInf(pk.value) {
        return PkIsInfinity;
      }
      if pkCheck && !env.inG1(pk.value) {
        return PointNotInGroup;
      }
      var h := env.hash2(ctrl.hash, Input(msg, dst, aug));
      var key := pk.value;
      if scalar.Some? && scalar.value.nbits != 0 {
        key := env.mult1(scalar.value.bytes, scalar.value.nbits, key);
      }
      PushPair(env, h, key);
      return Success;
    }

    /** PAIRING_Commit */
    method CommitPairs<T, L>(env: Env<E1, E2, T, L, V>)
      requires Sound(env) && Valid()
      modifies this`GT, this`ctrl, this`nelems
      ensures Valid()
      ensures View() == Step(env, old(View()), Commit).1
    {
      var n := nelems;
      if n != 0 {
        FlushBuffer(env, n);
        nelems := 0;
      }
    }

    /** blst_pairing_merge; the other context may be this one. */
    method Merge<T, L>(env: Env<E1, E2, T, L, V>, other: Context<E1, E2, V>) returns (err: Error)
      requires Sound(env) && Valid() && other.Valid()
      modifies this, Q, P
      ensures Valid()
      ensures (err, View()) == MergeStep(env, old(View()), old(other.View()))
    {
      var defined, defined1 := ctrl.minSig || ctrl.minPk, other.ctrl.minSig || other.ctrl.minPk;
      if defined && defined1 && !(ctrl.minSig && other.ctrl.minSig) && !(ctrl.minPk && other.ctrl.minPk) {
        return AggrTypeMismatch;
      }
      if nelems != 0 || other.nelems != 0 {
        return AggrTypeMismatch;
      }
      if !defined {
        CopyFrom(other);
        return Success;
      }
      MergeSign(env, other);
      MergeGt(env, other);
      return Success;
    }

    method MergeGt<T, L>(env: Env<E1, E2, T, L, V>, other: Context<E1, E2, V>)
      requires Valid() && other.Valid() && nelems == other.nelems == 0 && (ctrl.minSig || ctrl.minPk)
      modifies this`ctrl, this`GT
      ensures Valid()
      ensures View() == old(View()).(gt := MergedGt(env.C.m, old(View()).gt, old(other.View()).gt))
    {
      if ctrl.gtSet && other.ctrl.gtSet {
        GT := env.C.m.mul(GT, other.GT);
      } else if other.ctrl.gtSet {
        ctrl := ctrl.(gtSet := true);
        GT := other.GT;
      }
    }

    /** The whole structure is copied, buffers included. */
    method CopyFrom(other: Context<E1, E2, V>)
      requires Valid() && other.Valid() && other.nelems == 0
      modifies this, Q, P
      ensures Valid() && View() == old(other.View())
    {
      var q, p := other.Q[..], other.P[..];
      forall i | 0 <= i < N_MAX {
        Q[i] := q[i];
      }
      forall i | 0 <= i < N_MAX {
        P[i] := p[i];
      }
      ctrl, nelems, dst, GT, aggrSign := other.ctrl, 0, other.dst, other.GT, other.aggrSign;
    }

    method MergeSign<T, L>(env: Env<E1, E2, T, L, V>, other: Context<E1, E2, V>)
      requires Valid() && other.Valid() && nelems == other.nelems == 0 && (ctrl.minSig || ctrl.minPk)
      requires (ctrl.minSig ==> !other.ctrl.minPk) && (ctrl.minPk ==> !other.ctrl.minSig)
      modifies this`ctrl, this`aggrSign
      ensures Valid() && ctrl == old(ctrl).(signSet := old(ctrl.signSet || other.ctrl.signSet))
      ensures View() == old(View()).(sign := MergedSign(env, old(View()).sign, old(other.View()).sign))
      ensures other.View().gt == old(other.View().gt)
    {
      if ctrl.minSig {
        if ctrl.signSet && other.ctrl.signSet {
          aggrSign := AsE1(env.G1.add(aggrSign.e1, other.aggrSign.e1));
        } else if other.ctrl.signSet {
          ctrl := ctrl.(signSet := true);
          aggrSign := other.aggrSign;
        }
      } else {
        if ctrl.signSet && other.ctrl.signSet {
          aggrSign := AsE2(env.G2.add(aggrSign.e2, other.aggrSign.e2));
        } else if other.ctrl.signSet {
          ctrl := ctrl.(signSet := true);
          aggrSign := other.aggrSign;
        }
      }
    }

    /** PAIRING_FinalVerify */
    method FinalVerify<T, L>(env: Env<E1, E2, T, L, V>, gtSig: Option<V>) returns (yes: bool)
      requires Sound(env) && Valid()
      ensures yes == Verify(env, View(), gtSig)
    {
      if !ctrl.gtSet {
        return false;
      }
      var gt: V;
      if gtSig.Some? {
        gt := gtSig.value;
      } else if ctrl.signSet {
        if ctrl.minSig {
          gt := MillerLoopN(env.C, [env.gen2], [aggrSign.e1]);
        } else {
          gt := MillerLoopN(env.C, [aggrSign.e2], [env.gen1]);
        }
      } else {
        gt := env.C.m.one;
      }
      gt := env.finalExp(env.C.m.mul(env.C.conj(gt), GT));
      return gt == env.C.m.one;
    }
  }
}
