/** Commutative monoids, given by their operations. */
module Monoids {
  datatype Monoid<!M> = Monoid(one: M, mul: (M, M) -> M)

  /** Names the elements at which the laws below are used. */
  ghost predicate At<M>(x: M, y: M, z: M) {
    true
  }

  ghost predicate Commutative<M(!new)>(m: Monoid<M>) {
    forall x: M, y: M, z: M {:trigger At(x, y, z)} ::
      && m.mul(m.mul(x, y), z) == m.mul(x, m.mul(y, z))
      && m.mul(x, y) == m.mul(y, x)
      && m.mul(x, m.one) == x
  }

  lemma Laws<M(!new)>(m: Monoid<M>, x: M, y: M, z: M)
    requires Commutative(m)
    ensures m.mul(m.mul(x, y), z) == m.mul(x, m.mul(y, z))
    ensures m.mul(x, y) == m.mul(y, x)
    ensures m.mul(x, m.one) == x
  {
    assert At(x, y, z);
  }

  lemma Exchange<M(!new)>(m: Monoid<M>, a: M, b: M, c: M, d: M)
    requires Commutative(m)
    ensures m.mul(m.mul(a, b), m.mul(c, d)) == m.mul(m.mul(a, c), m.mul(b, d))
  {
    Laws(m, a, b, m.mul(c, d));
    Laws(m, b, c, d);
    Laws(m, c, b, d);
    Laws(m, a, c, m.mul(b, d));
  }

  ghost function Product<M>(m: Monoid<M>, s: seq<M>): M {
    if s == [] then m.one else m.mul(Product(m, s[..|s| - 1]), s[|s| - 1])
  }

  lemma {:induction false} ProductSnoc<M(!new)>(m: Monoid<M>, s: seq<M>, x: M)
    ensures Product(m, s + [x]) == m.mul(Product(m, s), x)
  {
    assert (s + [x])[..|s|] == s;
  }

  lemma {:induction false} ProductOne<M(!new)>(m: Monoid<M>, x: M)
    requires Commutative(m)
    ensures Product(m, [x]) == x
  {
    ProductSnoc(m, [], x);
    assert [] + [x] == [x];
    Laws(m, x, m.one, x);
    Laws(m, m.one, x, x);
  }

  lemma {:induction false} ProductConcat<M(!new)>(m: Monoid<M>, s: seq<M>, t: seq<M>)
    requires Commutative(m)
    ensures Product(m, s + t) == m.mul(Product(m, s), Product(m, t))
  {
    if t == [] {
      assert s + t == s;
      Laws(m, Product(m, s), m.one, m.one);
    } else {
      var k := |t| - 1;
      assert (s + t)[..|s| + k] == s + t[..k];
      ProductConcat(m, s, t[..k]);
      Laws(m, Product(m, s), Product(m, t[..k]), t[k]);
    }
  }

  /** The product of a term for each element. */
  ghost function Total<X, M>(m: Monoid<M>, f: X -> M, s: seq<X>): M {
    if s == [] then m.one else m.mul(Total(m, f, s[..|s| - 1]), f(s[|s| - 1]))
  }

  lemma {:induction false} TotalConcat<X, M(!new)>(m: Monoid<M>, f: X -> M, s: seq<X>, t: seq<X>)
    requires Commutative(m)
    ensures Total(m, f, s + t) == m.mul(Total(m, f, s), Total(m, f, t))
  {
    if t == [] {
      assert s + t == s;
      Laws(m, Total(m, f, s), m.one, m.one);
    } else {
      var k := |t| - 1;
      assert (s + t)[..|s| + k] == s + t[..k];
      TotalConcat(m, f, s, t[..k]);
      Laws(m, Total(m, f, s), Total(m, f, t[..k]), f(t[k]));
    }
  }

  lemma {:induction false} TotalOne<X, M(!new)>(m: Monoid<M>, f: X -> M, x: X)
    requires Commutative(m)
    ensures Total(m, f, [x]) == f(x)
  {
    assert [x][..0] == [];
    Laws(m, m.one, f(x), f(x));
    Laws(m, f(x), m.one, f(x));
  }

  ghost predicate Homomorphism<M(!new), N>(m: Monoid<M>, n: Monoid<N>, h: M -> N) {
    && h(m.one) == n.one
    && forall x: M, y: M {:trigger At(x, y, y)} :: h(m.mul(x, y)) == n.mul(h(x), h(y))
  }

  lemma MapsProduct<M(!new), N>(m: Monoid<M>, n: Monoid<N>, h: M -> N, x: M, y: M)
    requires Homomorphism(m, n, h)
    ensures h(m.mul(x, y)) == n.mul(h(x), h(y))
  {
    assert At(x, y, y);
  }

  /** A homomorphism that takes each term of one total to that of another takes the one to the other. */
  lemma {:induction false} TotalMapped<X, M(!new), N>(
      m: Monoid<M>, n: Monoid<N>, h: M -> N, f: X -> M, g: X -> N, s: seq<X>)
    requires Homomorphism(m, n, h)
    requires forall x :: x in s ==> h(f(x)) == g(x)
    ensures h(Total(m, f, s)) == Total(n, g, s)
  {
    if s != [] {
      var k := |s| - 1;
      TotalMapped(m, n, h, f, g, s[..k]);
      MapsProduct(m, n, h, Total(m, f, s[..k]), f(s[k]));
    }
  }

  /** The total without the element at j, times that element's term. */
  lemma {:induction false} TotalTakeOut<X, M(!new)>(m: Monoid<M>, f: X -> M, s: seq<X>, j: nat)
    requires Commutative(m) && j < |s|
    ensures Total(m, f, s) == m.mul(Total(m, f, s[..j] + s[j + 1..]), f(s[j]))
  {
    var a, b := s[..j], s[j + 1..];
    assert s == (a + [s[j]]) + b;
    TotalConcat(m, f, a + [s[j]], b);
    TotalConcat(m, f, a, [s[j]]);
    TotalConcat(m, f, a, b);
    TotalOne(m, f, s[j]);
    var x, y, z := Total(m, f, a), f(s[j]), Total(m, f, b);
    Laws(m, x, y, z);
    Laws(m, y, z, x);
    Laws(m, x, z, y);
  }

  /** The order does not matter. */
  lemma {:induction false} TotalPermuted<X, M(!new)>(m: Monoid<M>, f: X -> M, s: seq<X>, t: seq<X>)
    requires Commutative(m) && multiset(s) == multiset(t)
    ensures Total(m, f, s) == Total(m, f, t)
    decreases |s|
  {
    if s == [] {
      assert |multiset(t)| == 0;
    } else {
      var k := |s| - 1;
      assert s == s[..k] + [s[k]];
      assert s[k] in multiset(t);
      var j :| 0 <= j < |t| && t[j] == s[k];
      assert t == t[..j] + [t[j]] + t[j + 1..];
      var t' := t[..j] + t[j + 1..];
      assert multiset(s[..k]) == multiset(s) - multiset{s[k]};
      assert multiset(t') == multiset(t) - multiset{t[j]};
      TotalPermuted(m, f, s[..k], t');
      TotalTakeOut(m, f, t, j);
    }
  }
}
