/** Colours, black heights and key order, and what re-balancing does to them (external/blst/rb_tree.c:78-125). */
module RbBalance {
  import opened ByteStrings
  import opened Limbs
  import opened RbShape

  ghost predicate Red(pool: Pool, t: Tree) {
    t.T? && t.id < |pool| && pool[t.id].IsRed()
  }

  /** No red node has a red child, and every downward path crosses |h| black nodes. */
  ghost predicate RB(pool: Pool, t: Tree, h: nat)
    decreases t
  {
    match t
    case Nil => h == 0
    case T(id, l, r) =>
      id < |pool| &&
      if pool[id].IsRed() then !Red(pool, l) && !Red(pool, r) && RB(pool, l, h) && RB(pool, r, h)
      else h > 0 && RB(pool, l, h - 1) && RB(pool, r, h - 1)
  }

  /** The context becomes a red-black tree when its hole is filled with a black-rooted one of height |h|. */
  ghost predicate CtxRB(pool: Pool, c: Ctx, h: nat)
    decreases c
  {
    match c
    case Top => true
    case Frame(up, dir, id, sib) =>
      id < |pool| && RB(pool, sib, h) &&
      if pool[id].IsRed() then !Red(pool, sib) && BlackTop(pool, up) && CtxRB(pool, up, h)
      else CtxRB(pool, up, h + 1)
  }

  /** The hole has a parent, and the parent is black. */
  ghost predicate BlackTop(pool: Pool, c: Ctx) {
    c.Frame? && c.id < |pool| && !pool[c.id].IsRed()
  }

  ghost predicate SameColour(p: Node, q: Node) {
    p.IsRed() == q.IsRed()
  }

  lemma {:induction false} RBFrame(pool: Pool, pool': Pool, t: Tree, h: nat)
    requires RB(pool, t, h) && |pool| <= |pool'|
    requires forall i :: i in Ids(t) && i < |pool| ==> SameColour(pool[i], pool'[i])
    ensures RB(pool', t, h) && Red(pool', t) == Red(pool, t)
    decreases t
  {
    match t
    case Nil =>
    case T(id, l, r) =>
      assert SameColour(pool[id], pool'[id]);
      var h' := if pool[id].IsRed() then h else h - 1;
      RBFrame(pool, pool', l, h');
      RBFrame(pool, pool', r, h');
  }

  lemma {:induction false} CtxRBFrame(pool: Pool, pool': Pool, c: Ctx, h: nat)
    requires CtxRB(pool, c, h) && |pool| <= |pool'|
    requires forall i :: i in CtxIds(c) && i < |pool| ==> SameColour(pool[i], pool'[i])
    ensures CtxRB(pool', c, h) && BlackTop(pool', c) == BlackTop(pool, c)
    decreases c
  {
    match c
    case Top =>
    case Frame(up, dir, id, sib) =>
      assert SameColour(pool[id], pool'[id]);
      RBFrame(pool, pool', sib, h);
      CtxRBFrame(pool, pool', up, if pool[id].IsRed() then h else h + 1);
  }

  /** Filling the hole gives a red-black tree, unless two red nodes meet there. */
  lemma {:induction false} PlugRB(pool: Pool, c: Ctx, t: Tree, h: nat) returns (hh: nat)
    requires CtxRB(pool, c, h) && RB(pool, t, h)
    requires Red(pool, t) ==> c.Top? || BlackTop(pool, c)
    ensures RB(pool, Plug(c, t), hh)
    ensures c.Frame? ==> !Red(pool, Plug(c, t))
    ensures c.Top? ==> hh == h
    decreases c
  {
    match c
    case Top => hh := h;
    case Frame(up, dir, id, sib) =>
      hh := PlugRB(pool, up, Mk(id, dir, t, sib), if pool[id].IsRed() then h else h + 1);
  }

  // ---- the three steps of the re-balancing loop, on pool values ----

  function Recolour(pool: Pool, x: nat, y: nat, s: nat): Pool
    requires x < |pool| && y < |pool| && s < |pool|
  {
    var p1 := pool[x := pool[x].PaintRed()];
    var p2 := p1[y := p1[y].PaintBlack()];
    p2[s := p2[s].PaintBlack()]
  }

  /** |z| below |y| against the direction |ydir| is lifted over |y|. */
  function Straighten(pool: Pool, y: nat, z: nat, ydir: bool): Pool
    requires y < |pool| && z < |pool|
  {
    var p1 := pool[y := pool[y].SetLeaf(!ydir, pool[z].Leaf(ydir))];
    p1[z := p1[z].SetLeaf(ydir, At(y))]
  }

  /** |y| is lifted over |x|; |x| becomes red and |y| black. */
  function Rotate(pool: Pool, x: nat, y: nat, ydir: bool): Pool
    requires x < |pool| && y < |pool|
  {
    var p1 := pool[x := pool[x].SetLeaf(ydir, pool[y].Leaf(!ydir))];
    var p2 := p1[y := p1[y].SetLeaf(!ydir, At(x))];
    var p3 := p2[x := p2[x].PaintRed()];
    p3[y := p3[y].PaintBlack()]
  }

  lemma RecolourElsewhere(pool: Pool, x: nat, y: nat, s: nat, i: nat)
    requires x < |pool| && y < |pool| && s < |pool| && i < |pool|
    requires i != x && i != y && i != s
    ensures Recolour(pool, x, y, s)[i] == pool[i]
  {
  }

  lemma {:induction false} RecolourSubtree(pool: Pool, x: nat, y: nat, s: nat, t: Tree, h: nat)
    requires x < |pool| && y < |pool| && s < |pool|
    requires RB(pool, t, h) && x !in Ids(t) && y !in Ids(t) && s !in Ids(t)
    ensures RB(Recolour(pool, x, y, s), t, h)
  {
    forall i | i in Ids(t) && i < |pool|
      ensures SameColour(pool[i], Recolour(pool, x, y, s)[i])
    {
      RecolourElsewhere(pool, x, y, s, i);
    }
    RBFrame(pool, Recolour(pool, x, y, s), t, h);
  }

  lemma MkRB(pool: Pool, id: nat, dir: bool, a: Tree, b: Tree, h: nat)
    requires id < |pool| && RB(pool, a, h) && RB(pool, b, h)
    requires pool[id].IsRed() ==> !Red(pool, a) && !Red(pool, b)
    ensures RB(pool, Mk(id, dir, a, b), if pool[id].IsRed() then h else h + 1)
  {
  }

  lemma MkGood(id: nat, dir: bool, a: Tree, b: Tree)
    ensures Good(Mk(id, dir, a, b)) <==> Good(a) && Good(b) && id !in Ids(a) && id !in Ids(b) && Ids(a) !! Ids(b)
    ensures Ids(Mk(id, dir, a, b)) == {id} + Ids(a) + Ids(b)
  {
  }

  /** Under a black grandparent, parent and uncle both red: recolouring raises the height by one. */
  lemma {:induction false} RecolourTree(
      pool: Pool, x: nat, ydir: bool, y: nat, d: bool, t: Tree, u: Tree, s: Tree, h: nat)
    requires Good(Mk(x, ydir, Mk(y, d, t, u), s))
    requires x < |pool| && y < |pool| && Red(pool, s)
    requires RB(pool, t, h) && RB(pool, u, h) && RB(pool, s, h)
    ensures RB(Recolour(pool, x, y, s.id), Mk(x, ydir, Mk(y, d, t, u), s), h + 1)
    ensures Red(Recolour(pool, x, y, s.id), Mk(x, ydir, Mk(y, d, t, u), s))
  {
    MkGood(x, ydir, Mk(y, d, t, u), s);
    MkGood(y, d, t, u);
    var pool' := Recolour(pool, x, y, s.id);
    RecolourSubtree(pool, x, y, s.id, t, h);
    RecolourSubtree(pool, x, y, s.id, u, h);
    RecolourSubtree(pool, x, y, s.id, s.l, h);
    RecolourSubtree(pool, x, y, s.id, s.r, h);
    assert s.id != x && s.id != y && x != y;
    assert pool'[x].IsRed() && !pool'[y].IsRed() && !pool'[s.id].IsRed();
    MkRB(pool', s.id, false, s.l, s.r, h);
    MkRB(pool', y, d, t, u, h);
    MkRB(pool', x, ydir, Mk(y, d, t, u), s, h + 1);
  }

  lemma StraightenShape(pool: Pool, y: nat, z: nat, ydir: bool, u: Tree, za: Tree, zb: Tree)
    requires var t := Mk(y, ydir, u, Mk(z, ydir, za, zb)); Good(t) && Shape(pool, At(y), t)
    ensures y < |pool| && z < |pool|
    ensures Shape(Straighten(pool, y, z, ydir), At(z), Mk(z, ydir, Mk(y, ydir, u, za), zb))
  {
    var pool' := Straighten(pool, y, z, ydir);
    assert forall i :: 0 <= i < |pool| && i != y && i != z ==> pool'[i] == pool[i];
    ShapeFrame(pool, pool', pool[y].Leaf(ydir), u);
    ShapeFrame(pool, pool', pool[z].Leaf(ydir), za);
    ShapeFrame(pool, pool', pool[z].Leaf(!ydir), zb);
  }

  lemma RotateShape(pool: Pool, x: nat, y: nat, ydir: bool, t: Tree, u: Tree, s: Tree)
    requires x < |pool| && y < |pool|
    requires Good(Mk(x, ydir, Mk(y, ydir, t, u), s))
    requires Shape(pool, At(y), Mk(y, ydir, t, u)) && Shape(pool, pool[x].Leaf(!ydir), s)
    ensures Shape(Rotate(pool, x, y, ydir), At(y), Mk(y, ydir, t, Mk(x, ydir, u, s)))
  {
    var pool' := Rotate(pool, x, y, ydir);
    assert forall i :: 0 <= i < |pool| && i != x && i != y ==> pool'[i] == pool[i];
    ShapeFrame(pool, pool', pool[y].Leaf(ydir), t);
    ShapeFrame(pool, pool', pool[y].Leaf(!ydir), u);
    ShapeFrame(pool, pool', pool[x].Leaf(!ydir), s);
  }

  lemma RotateRB(pool: Pool, x: nat, y: nat, ydir: bool, t: Tree, u: Tree, s: Tree, h: nat)
    requires x < |pool| && y < |pool|
    requires Good(Mk(x, ydir, Mk(y, ydir, t, u), s))
    requires RB(pool, t, h) && RB(pool, u, h) && RB(pool, s, h) && !Red(pool, u) && !Red(pool, s)
    ensures RB(Rotate(pool, x, y, ydir), Mk(y, ydir, t, Mk(x, ydir, u, s)), h + 1)
    ensures !Red(Rotate(pool, x, y, ydir), Mk(y, ydir, t, Mk(x, ydir, u, s)))
  {
    var pool' := Rotate(pool, x, y, ydir);
    assert forall i :: 0 <= i < |pool| && i != x && i != y ==> pool'[i] == pool[i];
    RBFrame(pool, pool', t, h);
    RBFrame(pool, pool', u, h);
    RBFrame(pool, pool', s, h);
  }

  /** Rotations do not change the left-to-right order of the nodes. */
  lemma RotateInorder(x: nat, y: nat, ydir: bool, t: Tree, u: Tree, s: Tree)
    ensures Inorder(Mk(y, ydir, t, Mk(x, ydir, u, s))) == Inorder(Mk(x, ydir, Mk(y, ydir, t, u), s))
  {
    if ydir {
      RegroupRight(Inorder(s), [x], Inorder(u), [y], Inorder(t));
      assert Inorder(s) + [x] + (Inorder(u) + [y] + Inorder(t)) == (Inorder(s) + [x] + Inorder(u)) + [y] + Inorder(t);
    } else {
      assert Inorder(t) + [y] + (Inorder(u) + [x] + Inorder(s)) == (Inorder(t) + [y] + Inorder(u)) + [x] + Inorder(s);
    }
  }

  // ---- how deep a red-black tree can be ----

  lemma {:induction false} SizeOfHeight(pool: Pool, t: Tree, h: nat)
    requires RB(pool, t, h) && Good(t)
    ensures |Ids(t)| >= Pow(2, h) - 1
    decreases t
  {
    match t
    case Nil =>
    case T(id, l, r) =>
      var h' := if pool[id].IsRed() then h else h - 1;
      SizeOfHeight(pool, l, h');
      SizeOfHeight(pool, r, h');
      assert Ids(l) !! Ids(r);
      assert Ids(t) == {id} + (Ids(l) + Ids(r));
      assert |Ids(t)| == 1 + |Ids(l)| + |Ids(r)|;
  }

  /** A path has at most one red node for each black one, plus one. */
  lemma {:induction false} DepthBound(pool: Pool, c: Ctx, t: Tree, h: nat) returns (hh: nat)
    requires CtxRB(pool, c, h) && RB(pool, t, h)
    requires Red(pool, t) ==> c.Top? || BlackTop(pool, c)
    ensures RB(pool, Plug(c, t), hh)
    ensures Depth(c) + 2 * h <= 2 * hh
    ensures BlackTop(pool, c) ==> Depth(c) + 2 * h + 1 <= 2 * hh
    decreases c
  {
    match c
    case Top => hh := h;
    case Frame(up, dir, id, sib) =>
      hh := DepthBound(pool, up, Mk(id, dir, t, sib), if pool[id].IsRed() then h else h + 1);
  }

  lemma {:induction false} HeightOfSize(pool: Pool, t: Tree, h: nat, m: nat)
    requires RB(pool, t, h) && Good(t) && |Ids(t)| < Pow(2, m)
    ensures h <= m
  {
    SizeOfHeight(pool, t, h);
    PowersApart(|Ids(t)|, h, m);
  }

  lemma {:induction false} PowersApart(size: nat, h: nat, m: nat)
    requires Pow(2, h) - 1 <= size < Pow(2, m)
    ensures h <= m
  {
    PowPositive(2, m);
    if m < h {
      Pow2Up(m + 1, h);
    }
  }

  /** A tree of fewer than 2^m nodes has no path longer than 2*m. */
  lemma DepthOfSize(pool: Pool, c: Ctx, t: Tree, h: nat, m: nat)
    requires CtxRB(pool, c, h) && RB(pool, t, h) && Good(Plug(c, t))
    requires Red(pool, t) ==> c.Top? || BlackTop(pool, c)
    requires |Ids(Plug(c, t))| < Pow(2, m)
    ensures Depth(c) + 2 * h <= 2 * m
    ensures BlackTop(pool, c) ==> Depth(c) + 2 * h + 1 <= 2 * m
  {
    var hh := DepthBound(pool, c, t, h);
    HeightOfSize(pool, Plug(c, t), hh, m);
  }

  // ---- key order ----

  ghost predicate InPool(pool: Pool, ids: seq<nat>) {
    forall i :: 0 <= i < |ids| ==> ids[i] < |pool| && pool[ids[i]].Ok()
  }

  ghost predicate Sorted(pool: Pool, ids: seq<nat>) {
    InPool(pool, ids) &&
    forall i, j :: 0 <= i < j < |ids| ==> Lt(pool[ids[i]].Key(), pool[ids[j]].Key())
  }

  ghost predicate SameKey(p: Node, q: Node) {
    p.data == q.data && p.Len() == q.Len()
  }

  lemma SortedFrame(pool: Pool, pool': Pool, ids: seq<nat>)
    requires Sorted(pool, ids) && |pool| <= |pool'|
    requires forall i :: i in ids && i < |pool| ==> SameKey(pool[i], pool'[i])
    ensures Sorted(pool', ids)
  {
    forall i | 0 <= i < |ids|
      ensures ids[i] < |pool'| && pool'[ids[i]].Ok() && pool'[ids[i]].Key() == pool[ids[i]].Key()
    {
      assert ids[i] in ids && SameKey(pool[ids[i]], pool'[ids[i]]);
    }
  }

  /** Every key of the sequence is on the given side of |key|. */
  ghost predicate AllBelow(pool: Pool, ids: seq<nat>, key: seq<byte>) {
    InPool(pool, ids) && forall i :: 0 <= i < |ids| ==> Lt(pool[ids[i]].Key(), key)
  }

  ghost predicate AllAbove(pool: Pool, ids: seq<nat>, key: seq<byte>) {
    InPool(pool, ids) && forall i :: 0 <= i < |ids| ==> Lt(key, pool[ids[i]].Key())
  }

  lemma SortedSplit(pool: Pool, a: seq<nat>, m: nat, b: seq<nat>, key: seq<byte>)
    requires Sorted(pool, a + [m] + b)
    ensures m < |pool| && pool[m].Ok()
    ensures Lt(pool[m].Key(), key) ==> AllBelow(pool, a + [m], key)
    ensures Lt(key, pool[m].Key()) ==> AllAbove(pool, [m] + b, key)
  {
    var s := a + [m] + b;
    assert s[|a|] == m;
    assert forall i :: 0 <= i < |a| ==> s[i] == a[i];
    forall i | 0 <= i < |b| ensures b[i] == s[|a| + 1 + i] {}
    if Lt(pool[m].Key(), key) {
      forall i | 0 <= i < |a + [m]|
        ensures (a + [m])[i] < |pool| && pool[(a + [m])[i]].Ok() && Lt(pool[(a + [m])[i]].Key(), key)
      {
        assert (a + [m])[i] == s[i];
        if i < |a| {
          LtTransitive(pool[s[i]].Key(), pool[m].Key(), key);
        }
      }
    }
    if Lt(key, pool[m].Key()) {
      forall i | 0 <= i < |[m] + b|
        ensures ([m] + b)[i] < |pool| && pool[([m] + b)[i]].Ok() && Lt(key, pool[([m] + b)[i]].Key())
      {
        assert ([m] + b)[i] == s[|a| + i];
        if i > 0 {
          LtTransitive(key, pool[m].Key(), pool[s[|a| + i]].Key());
        }
      }
    }
  }

  lemma SortedInsert(pool: Pool, a: seq<nat>, z: nat, b: seq<nat>)
    requires Sorted(pool, a + b) && z < |pool| && pool[z].Ok()
    requires AllBelow(pool, a, pool[z].Key()) && AllAbove(pool, b, pool[z].Key())
    ensures Sorted(pool, a + [z] + b)
  {
    var s, s' := a + b, a + [z] + b;
    forall i | 0 <= i < |s'|
      ensures s'[i] == if i < |a| then s[i] else if i == |a| then z else s[i - 1]
    {
    }
    forall i | 0 <= i < |b| ensures s[|a| + i] == b[i] {}
    forall i, j | 0 <= i < j < |s'|
      ensures Lt(pool[s'[i]].Key(), pool[s'[j]].Key())
    {
      if j == |a| {
        assert s'[i] == a[i];
      } else if i == |a| {
        assert s'[j] == b[j - |a| - 1];
      } else {
        var i', j' := if i < |a| then i else i - 1, if j < |a| then j else j - 1;
        assert s[i'] == s'[i] && s[j'] == s'[j];
      }
    }
  }

  lemma AllBelowApart(pool: Pool, ids: seq<nat>, key: seq<byte>)
    requires AllBelow(pool, ids, key) || AllAbove(pool, ids, key)
    ensures forall i :: i in ids ==> i < |pool| && pool[i].Ok() && pool[i].Key() != key
  {
    LtIrreflexive(key);
    forall i | i in ids
      ensures i < |pool| && pool[i].Ok() && pool[i].Key() != key
    {
      var k :| 0 <= k < |ids| && ids[k] == i;
    }
  }
}
