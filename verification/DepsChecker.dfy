/** Transitive dependency rules of the include checker (scripts/lint/DepsChecker.py:71-123). */
module DepsChecker {
  type Name = string

  datatype Rule = Rule(src: Name, dest: Name)

  /** Targets by source, as a defaultdict of sets holds them. */
  type Graph = map<Name, set<Name>>

  datatype Result<T> = Ok(value: T) | LoopInRules

  // ---- paths ----

  /** A path along rules, of at least one rule. */
  ghost predicate IsPath(rules: seq<Rule>, p: seq<Name>) {
    |p| >= 2 && forall i :: 0 <= i < |p| - 1 ==> Linked(rules, p, i)
  }

  ghost predicate Linked(rules: seq<Rule>, p: seq<Name>, i: nat) {
    i + 1 < |p| && Rule(p[i], p[i + 1]) in rules
  }

  ghost predicate Reaches(rules: seq<Rule>, a: Name, b: Name) {
    exists p :: IsPath(rules, p) && p[0] == a && p[|p| - 1] == b
  }

  ghost predicate Cyclic(rules: seq<Rule>) {
    exists a :: Reaches(rules, a, a)
  }

  lemma ReachStep(rules: seq<Rule>, a: Name, d: Name, b: Name)
    requires Rule(a, d) in rules && (d == b || Reaches(rules, d, b))
    ensures Reaches(rules, a, b)
  {
    if d == b {
      assert Linked(rules, [a, b], 0);
      assert IsPath(rules, [a, b]);
    } else {
      var p :| IsPath(rules, p) && p[0] == d && p[|p| - 1] == b;
      var p' := [a] + p;
      forall i | 0 <= i < |p'| - 1
        ensures Linked(rules, p', i)
      {
        assert i > 0 ==> Linked(rules, p, i - 1);
      }
    }
  }

  lemma ReachFirst(rules: seq<Rule>, a: Name, b: Name) returns (d: Name)
    requires Reaches(rules, a, b)
    ensures Rule(a, d) in rules && (d == b || Reaches(rules, d, b))
  {
    var p :| IsPath(rules, p) && p[0] == a && p[|p| - 1] == b;
    d := p[1];
    assert Linked(rules, p, 0);
    if |p| > 2 {
      var q := p[1..];
      forall i | 0 <= i < |q| - 1
        ensures Linked(rules, q, i)
      {
        assert Linked(rules, p, i + 1);
      }
      assert IsPath(rules, q);
    }
  }

  // ---- the graph ----

  ghost predicate GraphOf(rules: seq<Rule>, g: Graph) {
    && (forall a :: a in g ==> exists b :: Rule(a, b) in rules)
    && (forall a, b :: Rule(a, b) in rules <==> a in g && b in g[a])
  }

  method ToGraph(rules: seq<Rule>) returns (g: Graph)
    ensures GraphOf(rules, g)
  {
    g := map[];
    for i := 0 to |rules|
      invariant GraphOf(rules[..i], g)
    {
      ghost var g0 := g;
      var r := rules[i];
      var old' := if r.src in g then g[r.src] else {};
      g := g[r.src := old' + {r.dest}];
      GraphSnoc(rules, i, g0, g);
    }
    assert rules[..|rules|] == rules;
  }

  lemma GraphSnoc(rules: seq<Rule>, i: nat, g: Graph, g': Graph)
    requires i < |rules| && GraphOf(rules[..i], g)
    requires var r := rules[i]; g' == g[r.src := (if r.src in g then g[r.src] else {}) + {r.dest}]
    ensures GraphOf(rules[..i + 1], g')
  {
    var r := rules[i];
    assert rules[..i + 1] == rules[..i] + [r];
    assert forall x :: x in rules[..i + 1] <==> x in rules[..i] || x == r;
    forall a | a in g'
      ensures exists b :: Rule(a, b) in rules[..i + 1]
    {
      if a == r.src {
        assert Rule(a, r.dest) in rules[..i + 1];
      } else {
        var b :| Rule(a, b) in rules[..i];
      }
    }
  }

  predicate IsSelfContained(rules: Graph, deps: set<Name>) {
    forall dep :: dep in deps ==> dep !in rules
  }

  function Closed(rules: Graph, name: Name): set<Name> {
    if name in rules then rules[name] else {}
  }

  /** addRule */
  function AddRule(rules: Graph, name: Name, dep: Name): Graph {
    rules[name := Closed(rules, name) + Closed(rules, dep) + {dep}]
  }

  /** addRules, in any order of the dependencies. */
  method AddRules(rules: Graph, name: Name, deps: set<Name>) returns (r: Graph)
    requires name !in rules && name !in deps && deps != {}
    ensures r.Keys == rules.Keys + {name}
    ensures forall a :: a in rules ==> r[a] == rules[a]
    ensures forall b :: b in r[name] <==> exists d :: d in deps && (b == d || b in Closed(rules, d))
  {
    r := rules;
    var todo := deps;
    while todo != {}
      invariant todo <= deps
      invariant r.Keys == rules.Keys || r.Keys == rules.Keys + {name}
      invariant todo == deps ==> r == rules
      invariant todo != deps ==> name in r
      invariant forall a :: a in rules ==> r[a] == rules[a]
      invariant forall b :: b in Closed(r, name) <==> exists d :: d in deps - todo && (b == d || b in Closed(rules, d))
      decreases todo
    {
      var dep :| dep in todo;
      ghost var before := r;
      r := AddRule(r, name, dep);
      AddedOne(rules, before, r, name, deps - todo, dep);
      assert deps - (todo - {dep}) == (deps - todo) + {dep};
      todo := todo - {dep};
    }
    assert deps - todo == deps;
    assert Closed(r, name) == r[name];
  }

  lemma AddedOne(rules: Graph, r: Graph, r': Graph, name: Name, done: set<Name>, dep: Name)
    requires name !in rules && dep != name && r' == AddRule(r, name, dep) && r.Keys <= rules.Keys + {name}
    requires rules.Keys <= r.Keys
    requires forall a :: a in rules ==> r[a] == rules[a]
    requires forall b :: b in Closed(r, name) <==> exists d :: d in done && (b == d || b in Closed(rules, d))
    ensures forall b :: b in Closed(r', name) <==> exists d :: d in done + {dep} && (b == d || b in Closed(rules, d))
  {
    assert Closed(r, dep) == Closed(rules, dep);
    forall b
      ensures b in Closed(r', name) <==> exists d :: d in done + {dep} && (b == d || b in Closed(rules, d))
    {
      if b in Closed(r, name) {
        var d :| d in done && (b == d || b in Closed(rules, d));
        assert d in done + {dep};
      } else if b == dep || b in Closed(rules, dep) {
        assert dep in done + {dep};
      }
    }
  }

  // ---- the closure ----

  /** Sources are pending or closed; a closed source has exactly what it reaches, none of it pending. */
  ghost predicate Progress(rules: seq<Rule>, g: Graph, pending: Graph, closed: Graph) {
    && GraphOf(rules, g)
    && pending.Keys !! closed.Keys && g.Keys == pending.Keys + closed.Keys
    && (forall a :: a in pending ==> pending[a] == g[a])
    && (forall a, b :: a in closed && b in closed[a] ==> b !in pending)
    && (forall a, b :: a in closed ==> (b in closed[a] <==> Reaches(rules, a, b)))
  }

  /** Reaching from a self-contained source: a dependency, or what a closed dependency reaches. */
  lemma ReachesByDep(rules: seq<Rule>, g: Graph, pending: Graph, closed: Graph, name: Name, b: Name)
    requires Progress(rules, g, pending, closed) && name in pending && IsSelfContained(pending, pending[name])
    ensures Reaches(rules, name, b) <==> exists d :: d in pending[name] && (b == d || b in Closed(closed, d))
  {
    if Reaches(rules, name, b) {
      var d := ReachFirst(rules, name, b);
      if d != b {
        var e := ReachFirst(rules, d, b);
        assert d in g;
      }
      assert d in pending[name] && (b == d || b in Closed(closed, d));
    }
    if d :| d in pending[name] && (b == d || b in Closed(closed, d)) {
      assert Rule(name, d) in rules;
      ReachStep(rules, name, d, b);
    }
  }

  lemma CloseOne(rules: seq<Rule>, g: Graph, pending: Graph, closed: Graph, name: Name, closed': Graph)
    requires Progress(rules, g, pending, closed) && name in pending && IsSelfContained(pending, pending[name])
    requires closed'.Keys == closed.Keys + {name} && forall a :: a in closed ==> closed'[a] == closed[a]
    requires forall b :: b in closed'[name] <==> exists d :: d in pending[name] && (b == d || b in Closed(closed, d))
    ensures Progress(rules, g, pending - {name}, closed')
  {
    forall b
      ensures b in closed'[name] <==> Reaches(rules, name, b)
      ensures b in closed'[name] ==> b !in pending
    {
      ReachesByDep(rules, g, pending, closed, name, b);
    }
  }

  // ---- loops ----

  /** n + 1 nodes of a walk that never leaves the pending sources. */
  lemma {:induction false} Walk(rules: seq<Rule>, g: Graph, pending: Graph, start: Name, n: nat) returns (p: seq<Name>)
    requires GraphOf(rules, g) && pending.Keys <= g.Keys && start in pending
    requires forall a :: a in pending ==> pending[a] == g[a] && !IsSelfContained(pending, pending[a])
    ensures |p| == n + 1 && (forall i :: 0 <= i < |p| ==> p[i] in pending)
    ensures forall i :: 0 <= i < |p| - 1 ==> Linked(rules, p, i)
  {
    if n == 0 {
      p := [start];
    } else {
      var q := Walk(rules, g, pending, start, n - 1);
      var last := q[|q| - 1];
      var d :| d in pending[last] && d in pending;
      p := q + [d];
      forall i | 0 <= i < |p| - 1
        ensures Linked(rules, p, i)
      {
        assert i < |q| - 1 ==> Linked(rules, q, i);
      }
    }
  }

  /** A sequence longer than the set its elements come from repeats an element. */
  lemma {:induction false} Pigeonhole(p: seq<Name>, s: set<Name>) returns (i: nat, j: nat)
    requires |p| > |s| && forall k :: 0 <= k < |p| ==> p[k] in s
    ensures i < j < |p| && p[i] == p[j]
    decreases |p|
  {
    var n := |p| - 1;
    if k :| 0 <= k < n && p[k] == p[n] {
      i, j := k, n;
    } else {
      i, j := Pigeonhole(p[..n], s - {p[n]});
    }
  }

  lemma NoneSelfContained(rules: seq<Rule>, g: Graph, pending: Graph)
    requires GraphOf(rules, g) && pending.Keys <= g.Keys && pending.Keys != {}
    requires forall a :: a in pending ==> pending[a] == g[a] && !IsSelfContained(pending, pending[a])
    ensures Cyclic(rules)
  {
    var start :| start in pending.Keys;
    var p := Walk(rules, g, pending, start, |pending.Keys|);
    var i, j := Pigeonhole(p, pending.Keys);
    CutCycle(rules, p, i, j);
  }

  lemma CutCycle(rules: seq<Rule>, p: seq<Name>, i: nat, j: nat)
    requires i < j < |p| && p[i] == p[j] && forall k :: 0 <= k < |p| - 1 ==> Linked(rules, p, k)
    ensures Reaches(rules, p[i], p[i])
  {
    var c := p[i..j + 1];
    forall k | 0 <= k < |c| - 1
      ensures Linked(rules, c, k)
    {
      assert Linked(rules, p, i + k);
    }
    assert IsPath(rules, c);
  }

  lemma AllClosed(rules: seq<Rule>, g: Graph, closed: Graph)
    requires Progress(rules, g, map[], closed) && forall a :: a in closed ==> a !in closed[a]
    ensures !Cyclic(rules)
  {
    forall a
      ensures !Reaches(rules, a, a)
    {
      if Reaches(rules, a, a) {
        var d := ReachFirst(rules, a, a);
      }
    }
  }

  /** A self-contained source among the pending ones, if any: the inner loop, items in any order. */
  method FindSelfContained(pending: Graph) returns (found: bool, name: Name)
    ensures found ==> name in pending && IsSelfContained(pending, pending[name])
    ensures !found ==> forall a :: a in pending ==> !IsSelfContained(pending, pending[a])
  {
    var items := pending.Keys;
    while items != {}
      invariant items <= pending.Keys
      invariant forall a :: a in pending && a !in items ==> !IsSelfContained(pending, pending[a])
      decreases items
    {
      name :| name in items;
      if IsSelfContained(pending, pending[name]) {
        return true, name;
      }
      items := items - {name};
    }
    return false, "";
  }

  /**
   * processRules up to the compilation of patterns: an error exactly when the rules have a cycle,
   * and otherwise every source with exactly what it reaches, whatever the order of the items.
   */
  method ProcessRules(rules: seq<Rule>) returns (r: Result<Graph>)
    ensures r.LoopInRules? <==> Cyclic(rules)
    ensures r.Ok? ==> forall a :: a in r.value <==> exists b :: Rule(a, b) in rules
    ensures r.Ok? ==> forall a, b :: a in r.value ==> (b in r.value[a] <==> Reaches(rules, a, b))
  {
    var g := ToGraph(rules);
    var pending, closed := g, map[];
    while pending.Keys != {}
      invariant Progress(rules, g, pending, closed)
      invariant forall a :: a in closed ==> a !in closed[a]
      decreases pending.Keys
    {
      var found, name := FindSelfContained(pending);
      if !found {
        NoneSelfContained(rules, g, pending);
        return LoopInRules;
      }
      HasDeps(rules, g, pending[name], name);
      var closed' := AddRules(closed, name, pending[name]);
      CloseOne(rules, g, pending, closed, name, closed');
      NotItself(rules, g, pending, closed, name, closed');
      closed := closed';
      pending := pending - {name};
    }
    assert pending == map[];
    AllClosed(rules, g, closed);
    return Ok(closed);
  }

  lemma HasDeps(rules: seq<Rule>, g: Graph, deps: set<Name>, name: Name)
    requires GraphOf(rules, g) && name in g && deps == g[name]
    ensures deps != {}
  {
    var b :| Rule(name, b) in rules;
  }

  lemma NotItself(rules: seq<Rule>, g: Graph, pending: Graph, closed: Graph, name: Name, closed': Graph)
    requires Progress(rules, g, pending, closed) && name in pending && IsSelfContained(pending, pending[name])
    requires name in closed'
    requires forall b :: b in closed'[name] <==> exists d :: d in pending[name] && (b == d || b in Closed(closed, d))
    ensures name !in closed'[name]
  {
  }

  /** The loop of lines 118-123: one compiled pair for each source and target. */
  method Flatten(closed: Graph) returns (pairs: seq<Rule>)
    ensures forall a, b :: Rule(a, b) in pairs <==> a in closed && b in closed[a]
    ensures forall i, j :: 0 <= i < j < |pairs| ==> pairs[i] != pairs[j]
  {
    pairs := [];
    var names := closed.Keys;
    while names != {}
      invariant names <= closed.Keys
      invariant forall a, b :: Rule(a, b) in pairs <==> a in closed && a !in names && b in closed[a]
      invariant forall i, j :: 0 <= i < j < |pairs| ==> pairs[i] != pairs[j]
      decreases names
    {
      var name :| name in names;
      var deps := closed[name];
      ghost var before := pairs;
      while deps != {}
        invariant deps <= closed[name]
        invariant forall a, b :: Rule(a, b) in pairs <==>
            Rule(a, b) in before || (a == name && b in closed[name] && b !in deps)
        invariant forall i, j :: 0 <= i < j < |pairs| ==> pairs[i] != pairs[j]
        decreases deps
      {
        var dep :| dep in deps;
        assert Rule(name, dep) !in pairs;
        pairs := pairs + [Rule(name, dep)];
        deps := deps - {dep};
      }
      names := names - {name};
    }
  }
}
