/** Abelian groups, given by their operations, and multiples of a point. */
module Groups {
  /** The operations of a group written additively; |zero| is the point at infinity. */
  datatype Group<!T> = Group(zero: T, add: (T, T) -> T, neg: T -> T)

  /** Names the points at which the laws below are used. */
  ghost predicate At<T>(x: T, y: T, z: T) {
    true
  }

  ghost predicate Abelian<T(!new)>(G: Group<T>) {
    forall x: T, y: T, z: T {:trigger At(x, y, z)} ::
      && G.add(G.add(x, y), z) == G.add(x, G.add(y, z))
      && G.add(x, y) == G.add(y, x)
      && G.add(x, G.zero) == x
      && G.add(x, G.neg(x)) == G.zero
  }

  lemma Laws<T(!new)>(G: Group<T>, x: T, y: T, z: T)
    requires Abelian(G)
    ensures G.add(G.add(x, y), z) == G.add(x, G.add(y, z))
    ensures G.add(x, y) == G.add(y, x)
    ensures G.add(x, G.zero) == x
    ensures G.add(x, G.neg(x)) == G.zero
  {
    assert At(x, y, z);
  }

  lemma Cancel<T(!new)>(G: Group<T>, x: T, y: T, z: T)
    requires Abelian(G) && G.add(x, z) == G.add(y, z)
    ensures x == y
  {
    Laws(G, x, z, G.neg(z));
    Laws(G, y, z, G.neg(z));
    Laws(G, z, z, z);
  }

  lemma NegUnique<T(!new)>(G: Group<T>, x: T, y: T)
    requires Abelian(G) && G.add(x, y) == G.zero
    ensures y == G.neg(x)
  {
    Laws(G, x, y, y);
    Laws(G, G.neg(x), x, x);
    Laws(G, x, G.neg(x), x);
    Cancel(G, y, G.neg(x), x);
  }

  /** (a + b) + (c + d) == (a + c) + (b + d) */
  lemma Exchange<T(!new)>(G: Group<T>, a: T, b: T, c: T, d: T)
    requires Abelian(G)
    ensures G.add(G.add(a, b), G.add(c, d)) == G.add(G.add(a, c), G.add(b, d))
  {
    Laws(G, a, b, G.add(c, d));
    Laws(G, b, c, d);
    Laws(G, c, b, d);
    Laws(G, a, c, G.add(b, d));
  }

  /** k*P for a natural number k */
  function Times<T>(G: Group<T>, k: nat, P: T): T {
    if k == 0 then G.zero else G.add(Times(G, k - 1, P), P)
  }

  /** k*P */
  function Mul<T>(G: Group<T>, k: int, P: T): T {
    if k >= 0 then Times(G, k, P) else G.neg(Times(G, -k, P))
  }

  lemma {:induction false} MulSucc<T(!new)>(G: Group<T>, k: int, P: T)
    requires Abelian(G)
    ensures Mul(G, k + 1, P) == G.add(Mul(G, k, P), P)
  {
    if k < 0 {
      var y := Times(G, -k - 1, P);
      var x := G.neg(G.add(y, P));
      assert Times(G, -k, P) == G.add(y, P);
      Laws(G, y, P, x);
      Laws(G, G.add(y, P), y, y);
      Laws(G, P, x, P);
      assert G.add(y, G.add(x, P)) == G.zero;
      NegUnique(G, y, G.add(x, P));
      if k == -1 {
        Laws(G, G.neg(y), y, y);
        Laws(G, G.zero, G.neg(G.zero), G.zero);
        Laws(G, G.neg(G.zero), G.zero, G.zero);
      }
    }
  }

  lemma {:induction false} MulAdds<T(!new)>(G: Group<T>, m: int, n: int, P: T)
    requires Abelian(G)
    ensures Mul(G, m + n, P) == G.add(Mul(G, m, P), Mul(G, n, P))
    decreases if n >= 0 then n else -n
  {
    Laws(G, Mul(G, m, P), P, P);
    if n > 0 {
      MulAdds(G, m, n - 1, P);
      MulSucc(G, m + n - 1, P);
      MulSucc(G, n - 1, P);
      Laws(G, Mul(G, m, P), Mul(G, n - 1, P), P);
    } else if n < 0 {
      MulAdds(G, m, n + 1, P);
      MulSucc(G, m + n, P);
      MulSucc(G, n, P);
      Laws(G, Mul(G, m, P), Mul(G, n, P), P);
      Cancel(G, Mul(G, m + n, P), G.add(Mul(G, m, P), Mul(G, n, P)), P);
    }
  }

  lemma {:induction false} MulNegates<T(!new)>(G: Group<T>, k: int, P: T)
    requires Abelian(G)
    ensures Mul(G, -k, P) == G.neg(Mul(G, k, P))
  {
    MulAdds(G, k, -k, P);
    NegUnique(G, Mul(G, k, P), Mul(G, -k, P));
  }

  lemma {:induction false} MulOne<T(!new)>(G: Group<T>, P: T)
    requires Abelian(G)
    ensures Mul(G, 0, P) == G.zero && Mul(G, 1, P) == P
  {
    assert Times(G, 1, P) == G.add(G.zero, P);
    Laws(G, P, G.zero, P);
  }

  lemma {:induction false} MulOfSum<T(!new)>(G: Group<T>, k: int, P: T, Q: T)
    requires Abelian(G)
    ensures Mul(G, k, G.add(P, Q)) == G.add(Mul(G, k, P), Mul(G, k, Q))
    decreases if k >= 0 then k else 1 - k
  {
    if k == 0 {
      Laws(G, G.zero, P, P);
    } else if k > 0 {
      MulOfSum(G, k - 1, P, Q);
      MulSucc(G, k - 1, P);
      MulSucc(G, k - 1, Q);
      MulSucc(G, k - 1, G.add(P, Q));
      Exchange(G, Mul(G, k - 1, P), Mul(G, k - 1, Q), P, Q);
    } else {
      MulOfSum(G, -k, P, Q);
      MulNegates(G, -k, P);
      MulNegates(G, -k, Q);
      MulNegates(G, -k, G.add(P, Q));
      var a, b := Mul(G, -k, P), Mul(G, -k, Q);
      Exchange(G, a, b, G.neg(a), G.neg(b));
      Laws(G, a, b, a);
      Laws(G, b, a, b);
      Laws(G, G.zero, a, a);
      NegUnique(G, G.add(a, b), G.add(G.neg(a), G.neg(b)));
    }
  }

  lemma {:induction false} MulOfMul<T(!new)>(G: Group<T>, m: int, n: int, P: T)
    requires Abelian(G)
    ensures Mul(G, m, Mul(G, n, P)) == Mul(G, m * n, P)
    decreases if m >= 0 then m else 1 - m
  {
    var Q := Mul(G, n, P);
    if m == 0 {
    } else if m > 0 {
      MulOfMul(G, m - 1, n, P);
      MulSucc(G, m - 1, Q);
      MulAdds(G, (m - 1) * n, n, P);
      assert (m - 1) * n + n == m * n;
    } else {
      MulOfMul(G, -m, n, P);
      MulNegates(G, -m, Q);
      MulNegates(G, (-m) * n, P);
      assert -((-m) * n) == m * n;
    }
  }

  lemma {:induction false} MulOfZero<T(!new)>(G: Group<T>, k: int)
    requires Abelian(G)
    ensures Mul(G, k, G.zero) == G.zero
  {
    MulOfMul(G, k, 0, G.zero);
  }

  lemma {:induction false} MulOfNeg<T(!new)>(G: Group<T>, k: int, P: T)
    requires Abelian(G)
    ensures Mul(G, k, G.neg(P)) == Mul(G, -k, P)
  {
    MulOne(G, P);
    MulNegates(G, 1, P);
    MulOfMul(G, k, -1, P);
  }

  /** The sum of ks[i]*Ps[i]. */
  ghost function Dot<T>(G: Group<T>, ks: seq<int>, Ps: seq<T>): T
    requires |ks| == |Ps|
  {
    if ks == [] then G.zero
    else G.add(Dot(G, ks[..|ks| - 1], Ps[..|Ps| - 1]), Mul(G, ks[|ks| - 1], Ps[|Ps| - 1]))
  }

  lemma {:induction false} DotZero<T(!new)>(G: Group<T>, ks: seq<int>, Ps: seq<T>)
    requires Abelian(G) && |ks| == |Ps| && forall i :: 0 <= i < |ks| ==> ks[i] == 0
    ensures Dot(G, ks, Ps) == G.zero
  {
    if ks != [] {
      DotZero(G, ks[..|ks| - 1], Ps[..|Ps| - 1]);
      Laws(G, G.zero, G.zero, G.zero);
    }
  }

  /** Changing one coefficient by d adds d*P to the sum. */
  lemma {:induction false} DotUpdate<T(!new)>(G: Group<T>, ks: seq<int>, Ps: seq<T>, i: nat, d: int)
    requires Abelian(G) && |ks| == |Ps| && i < |ks|
    ensures Dot(G, ks[i := ks[i] + d], Ps) == G.add(Dot(G, ks, Ps), Mul(G, d, Ps[i]))
  {
    var n := |ks| - 1;
    var ks' := ks[i := ks[i] + d];
    var a, b := Dot(G, ks[..n], Ps[..n]), Mul(G, ks[n], Ps[n]);
    if i == n {
      assert ks'[..n] == ks[..n];
      MulAdds(G, ks[n], d, Ps[n]);
      Laws(G, a, b, Mul(G, d, Ps[n]));
    } else {
      assert ks'[..n] == ks[..n][i := ks[..n][i] + d];
      DotUpdate(G, ks[..n], Ps[..n], i, d);
      var c := Mul(G, d, Ps[i]);
      Laws(G, a, c, b);
      Laws(G, c, b, a);
      Laws(G, a, b, c);
    }
  }

  ghost function Doubled(ks: seq<int>): seq<int> {
    seq(|ks|, i requires 0 <= i < |ks| => 2 * ks[i])
  }

  lemma {:induction false} DotDouble<T(!new)>(G: Group<T>, ks: seq<int>, Ps: seq<T>)
    requires Abelian(G) && |ks| == |Ps|
    ensures Dot(G, Doubled(ks), Ps) == G.add(Dot(G, ks, Ps), Dot(G, ks, Ps))
  {
    if ks == [] {
      Laws(G, G.zero, G.zero, G.zero);
    } else {
      var n := |ks| - 1;
      assert Doubled(ks)[..n] == Doubled(ks[..n]);
      DotDouble(G, ks[..n], Ps[..n]);
      MulAdds(G, ks[n], ks[n], Ps[n]);
      Exchange(G, Dot(G, ks[..n], Ps[..n]), Dot(G, ks[..n], Ps[..n]), Mul(G, ks[n], Ps[n]), Mul(G, ks[n], Ps[n]));
    }
  }
}
