/** The insert-only red-black tree of external/blst/rb_tree.c, used to test messages for uniqueness. */
module RbTree {
  import opened ByteStrings
  import opened Limbs
  import opened RbShape
  import opened RbBalance

  const MAX_DEPTH := 64          // 8*sizeof(void *) on a 64-bit machine
  const SIZE_T := 0x1_0000_0000_0000_0000
  const MAX_NODES := 0x1_0000_0000

  /** What holds of a tree between two calls. */
  ghost predicate Inv(pool: Pool, n: nat, root: Ptr, tree: Tree) {
    && n <= |pool|
    && Good(tree) && Shape(pool, root, tree)
    && Ids(tree) == Below(n)
    && Sorted(pool, Inorder(tree))
    && Balanced(pool, tree)
  }

  ghost predicate Balanced(pool: Pool, tree: Tree) {
    !Red(pool, tree) && exists h: nat :: RB(pool, tree, h)
  }

  /** The byte strings held by the first |n| slots of the pool. */
  ghost function Keys(pool: Pool, n: nat): set<seq<byte>> {
    set i | 0 <= i < n && i < |pool| && pool[i].Ok() :: pool[i].Key()
  }

  /** A tree |t| in the hole of |c|, both well-formed and of matching black height. */
  ghost predicate Split(pool: Pool, root: Ptr, c: Ctx, hole: Ptr, t: Tree, h: nat) {
    && Apart(c, t)
    && CtxShape(pool, c, hole, root) && Shape(pool, hole, t)
    && CtxRB(pool, c, h) && RB(pool, t, h)
  }

  // ---- walking down ----

  /** Where the key has to be if it is in the tree. */
  ghost predicate Narrowed(pool: Pool, c: Ctx, key: seq<byte>) {
    AllBelow(pool, Before(c), key) && AllAbove(pool, After(c), key)
  }

  lemma {:induction false} DescendSplit(pool: Pool, root: Ptr, c: Ctx, hole: Ptr, t: Tree, h: nat, dir: bool)
      returns (c': Ctx, t': Tree, h': nat)
    requires Split(pool, root, c, hole, t, h) && t.T?
    requires Red(pool, t) ==> BlackTop(pool, c)
    ensures t' == if dir then t.r else t.l
    ensures c' == Frame(c, dir, t.id, if dir then t.l else t.r)
    ensures t.id < |pool| && Split(pool, root, c', pool[t.id].Leaf(dir), t', h')
    ensures Red(pool, t') ==> BlackTop(pool, c')
    ensures Plug(c', t') == Plug(c, t)
  {
    t' := if dir then t.r else t.l;
    c' := Frame(c, dir, t.id, if dir then t.l else t.r);
    h' := if pool[t.id].IsRed() then h else h - 1;
  }

  lemma Regroup<X>(a: seq<X>, l: seq<X>, m: seq<X>, r: seq<X>, b: seq<X>)
    ensures a + (l + m + r) + b == (a + l) + m + (r + b)
    ensures m + (r + b) == m + r + b
  {
  }

  lemma {:induction false} DescendNarrowed(pool: Pool, c: Ctx, t: Tree, dir: bool, key: seq<byte>)
    requires t.T? && Narrowed(pool, c, key) && Sorted(pool, Inorder(Plug(c, t)))
    requires t.id < |pool| && pool[t.id].Ok()
    requires if dir then Lt(pool[t.id].Key(), key) else Lt(key, pool[t.id].Key())
    ensures Narrowed(pool, Frame(c, dir, t.id, if dir then t.l else t.r), key)
  {
    PlugInorder(c, t);
    var a, l, r, b := Before(c), Inorder(t.l), Inorder(t.r), After(c);
    Regroup(a, l, [t.id], r, b);
    SortedSplit(pool, a + l, t.id, r + b, key);
  }

  /** The walk stays within the two stacks as long as the tree has fewer than 2^32 nodes. */
  lemma {:induction false} WalkFits(pool: Pool, root: Ptr, c: Ctx, hole: Ptr, t: Tree, h: nat, n: nat)
    requires Split(pool, root, c, hole, t, h) && t.T?
    requires Red(pool, t) ==> BlackTop(pool, c)
    requires Ids(Plug(c, t)) == Below(n) && n < MAX_NODES
    ensures Depth(c) < MAX_DEPTH
  {
    PlugGood(c, t);
    InBelow(n);
    MaxNodesIsPow2();
    DepthOfSize(pool, c, t, h, 32);
  }

  lemma MaxNodesIsPow2()
    ensures Pow(2, 32) == MAX_NODES
  {
    assert Pow(2, 8) == 256;
    PowAdds(2, 8, 8);
    PowAdds(2, 16, 16);
  }

  ghost function Below(n: nat): set<nat> {
    if n == 0 then {} else Below(n - 1) + {n - 1}
  }

  lemma {:induction false} InBelow(n: nat)
    ensures forall i: nat :: i in Below(n) <==> i < n
    ensures |Below(n)| == n
  {
    if n > 0 {
      InBelow(n - 1);
    }
  }

  // ---- changing what is in the hole ----

  /** Writing a new pointer into the hole of |c|. */
  function Graft(pool: Pool, nodes: seq<nat>, dirs: seq<bool>, k: nat, p: Ptr): Pool
    requires k <= |nodes| && k <= |dirs| && (k > 0 ==> nodes[k - 1] < |pool|)
  {
    if k > 0 then pool[nodes[k - 1] := pool[nodes[k - 1]].SetLeaf(dirs[k - 1], p)] else pool
  }

  lemma {:induction false} GraftShape(
      pool: Pool, c: Ctx, nodes: seq<nat>, dirs: seq<bool>, k: nat, hole: Ptr, root: Ptr, p: Ptr)
    requires CtxShape(pool, c, hole, root) && CtxGood(c) && Stacked(c, nodes, dirs, k)
    ensures k <= |nodes| && k <= |dirs| && (k > 0 ==> nodes[k - 1] < |pool|)
    ensures CtxShape(Graft(pool, nodes, dirs, k, p), c, p, if k > 0 then root else p)
  {
    if c.Frame? {
      var pool' := Graft(pool, nodes, dirs, k, p);
      ShapeFrame(pool, pool', pool[c.id].Leaf(!c.dir), c.sib);
      CtxShapeFrame(pool, pool', c.up, At(c.id), root);
    }
  }

  lemma {:induction false} GraftKeeps(
      pool: Pool, nodes: seq<nat>, dirs: seq<bool>, k: nat, p: Ptr, c: Ctx, t: Tree, hole: Ptr, h: nat)
    requires Stacked(c, nodes, dirs, k) && Apart(c, t)
    requires k <= |nodes| && k <= |dirs| && (k > 0 ==> nodes[k - 1] < |pool|)
    requires CtxRB(pool, c, h) && RB(pool, t, h) && Shape(pool, hole, t)
    ensures var pool' := Graft(pool, nodes, dirs, k, p);
            CtxRB(pool', c, h) && RB(pool', t, h) && Shape(pool', hole, t) && Red(pool', t) == Red(pool, t)
  {
    var pool' := Graft(pool, nodes, dirs, k, p);
    CtxRBFrame(pool, pool', c, h);
    RBFrame(pool, pool', t, h);
    ShapeFrame(pool, pool', hole, t);
  }

  // ---- re-balancing ----

  /** The middle of the loop: the tree in the hole is red and its parent may be, too. */
  ghost predicate Unsettled(pool: Pool, root: Ptr, c: Ctx, t: Tree, h: nat) {
    t.T? && Red(pool, t) && Split(pool, root, c, At(t.id), t, h)
  }

  ghost predicate SameKeys(pool: Pool, pool': Pool) {
    |pool| == |pool'| && forall i :: 0 <= i < |pool| ==> SameKey(pool[i], pool'[i])
  }

  /** Parent |y| and grandparent |x| of the hole, taken off the context. */
  lemma {:induction false} TwoUp(
      pool: Pool, root: Ptr, up: Ctx, ydir: bool, x: nat, s: Tree, d: bool, y: nat, u: Tree, t: Tree, h: nat)
    requires Unsettled(pool, root, Frame(Frame(up, ydir, x, s), d, y, u), t, h) && pool[y].IsRed()
    ensures x < |pool| && y < |pool| && !pool[x].IsRed()
    ensures RB(pool, u, h) && !Red(pool, u) && RB(pool, s, h) && CtxRB(pool, up, h + 1)
    ensures CtxShape(pool, up, At(x), root)
    ensures Shape(pool, At(y), Mk(y, d, t, u)) && Shape(pool, pool[x].Leaf(!ydir), s)
    ensures pool[x].Leaf(ydir) == At(y) && pool[y].Leaf(d) == At(t.id)
    ensures Apart(up, Mk(x, ydir, Mk(y, d, t, u), s))
    ensures !Red(pool, t.l) && !Red(pool, t.r) && RB(pool, t.l, h) && RB(pool, t.r, h)
  {
    var c1 := Frame(up, ydir, x, s);
    assert CtxRB(pool, c1, h) && CtxShape(pool, c1, At(y), root);
    PlugGood(Frame(c1, d, y, u), t);
    PlugGood(up, Mk(x, ydir, Mk(y, d, t, u), s));
  }

  lemma {:induction false} RecolourUnsettled(
      pool: Pool, root: Ptr, up: Ctx, ydir: bool, x: nat, s: Tree, d: bool, y: nat, u: Tree, t: Tree, h: nat)
    requires Unsettled(pool, root, Frame(Frame(up, ydir, x, s), d, y, u), t, h) && pool[y].IsRed() && Red(pool, s)
    ensures x < |pool| && y < |pool|
    ensures Unsettled(Recolour(pool, x, y, s.id), root, up, Mk(x, ydir, Mk(y, d, t, u), s), h + 1)
    ensures SameKeys(pool, Recolour(pool, x, y, s.id))
  {
    TwoUp(pool, root, up, ydir, x, s, d, y, u, t, h);
    var pool' := Recolour(pool, x, y, s.id);
    var t' := Mk(x, ydir, Mk(y, d, t, u), s);
    RecolourTree(pool, x, ydir, y, d, t, u, s, h);
    assert Shape(pool, At(x), t');
    RecolourLinks(pool, x, y, s.id);
    ShapeFrame(pool, pool', At(x), t');
    CtxShapeFrame(pool, pool', up, At(x), root);
    MkGood(x, ydir, Mk(y, d, t, u), s);
    MkGood(y, d, t, u);
    forall i | i in CtxIds(up) && i < |pool|
      ensures SameColour(pool[i], pool'[i])
    {
      RecolourElsewhere(pool, x, y, s.id, i);
    }
    CtxRBFrame(pool, pool', up, h + 1);
  }

  lemma RecolourLinks(pool: Pool, x: nat, y: nat, s: nat)
    requires x < |pool| && y < |pool| && s < |pool|
    ensures forall i :: 0 <= i < |pool| ==> SameLinks(pool[i], Recolour(pool, x, y, s)[i])
    ensures SameKeys(pool, Recolour(pool, x, y, s))
  {
  }

  lemma RotateKeys(pool: Pool, x: nat, y: nat, ydir: bool)
    requires x < |pool| && y < |pool|
    ensures SameKeys(pool, Rotate(pool, x, y, ydir))
    ensures forall i :: 0 <= i < |pool| && i != x && i != y ==> Rotate(pool, x, y, ydir)[i] == pool[i]
  {
  }

  lemma StraightenKeys(pool: Pool, y: nat, z: nat, ydir: bool)
    requires y < |pool| && z < |pool|
    ensures SameKeys(pool, Straighten(pool, y, z, ydir))
    ensures forall i :: 0 <= i < |pool| ==> SameColour(pool[i], Straighten(pool, y, z, ydir)[i])
    ensures forall i :: 0 <= i < |pool| && i != y && i != z ==> Straighten(pool, y, z, ydir)[i] == pool[i]
  {
  }

  /** After the rotation (and the optional step before it) a black-rooted tree fills the hole of |up|. */
  ghost predicate Rotated(pool: Pool, root: Ptr, up: Ctx, hole: Ptr, t: Tree, h: nat, p: Ptr) {
    && Apart(up, t) && !Red(pool, t) && t.T? && p == At(t.id)
    && CtxShape(pool, up, hole, root) && Shape(pool, p, t)
    && CtxRB(pool, up, h) && RB(pool, t, h)
  }

  lemma {:induction false} RotateGood(up: Ctx, ydir: bool, x: nat, y: nat, t: Tree, u: Tree, s: Tree)
    requires Apart(up, Mk(x, ydir, Mk(y, ydir, t, u), s))
    ensures Apart(up, Mk(y, ydir, t, Mk(x, ydir, u, s))) && Good(Mk(x, ydir, Mk(y, ydir, t, u), s))
    ensures x !in CtxIds(up) && y !in CtxIds(up)
    ensures x != y && x !in Ids(t) && x !in Ids(u) && x !in Ids(s) && y !in Ids(t) && y !in Ids(u) && y !in Ids(s)
  {
    MkGood(x, ydir, Mk(y, ydir, t, u), s);
    MkGood(y, ydir, t, u);
    MkGood(y, ydir, t, Mk(x, ydir, u, s));
    MkGood(x, ydir, u, s);
  }

  lemma {:induction false} RotateSettles(
      pool: Pool, root: Ptr, up: Ctx, hole: Ptr, ydir: bool, x: nat, y: nat, t: Tree, u: Tree, s: Tree, h: nat)
    requires x < |pool| && y < |pool|
    requires Apart(up, Mk(x, ydir, Mk(y, ydir, t, u), s))
    requires CtxShape(pool, up, hole, root) && CtxRB(pool, up, h + 1)
    requires Shape(pool, At(y), Mk(y, ydir, t, u)) && Shape(pool, pool[x].Leaf(!ydir), s)
    requires RB(pool, t, h) && RB(pool, u, h) && RB(pool, s, h) && !Red(pool, u) && !Red(pool, s)
    ensures Rotated(Rotate(pool, x, y, ydir), root, up, hole, Mk(y, ydir, t, Mk(x, ydir, u, s)), h + 1, At(y))
  {
    var pool' := Rotate(pool, x, y, ydir);
    RotateGood(up, ydir, x, y, t, u, s);
    RotateShape(pool, x, y, ydir, t, u, s);
    RotateRB(pool, x, y, ydir, t, u, s, h);
    RotateElsewhere(pool, root, up, hole, x, y, ydir, h + 1);
  }

  /** What lies above keeps its links and colours. */
  lemma {:induction false} RotateElsewhere(
      pool: Pool, root: Ptr, up: Ctx, hole: Ptr, x: nat, y: nat, ydir: bool, h: nat)
    requires x < |pool| && y < |pool| && x !in CtxIds(up) && y !in CtxIds(up)
    requires CtxShape(pool, up, hole, root) && CtxRB(pool, up, h)
    ensures var pool' := Rotate(pool, x, y, ydir); CtxShape(pool', up, hole, root) && CtxRB(pool', up, h)
  {
    var pool' := Rotate(pool, x, y, ydir);
    RotateKeys(pool, x, y, ydir);
    CtxShapeFrame(pool, pool', up, hole, root);
    CtxRBFrame(pool, pool', up, h);
  }

  /** The straight case: hole, parent and grandparent in line. */
  lemma {:induction false} OuterCase(
      pool: Pool, root: Ptr, up: Ctx, ydir: bool, x: nat, s: Tree, y: nat, u: Tree, t: Tree, h: nat)
      returns (t': Tree)
    requires Unsettled(pool, root, Frame(Frame(up, ydir, x, s), ydir, y, u), t, h) && pool[y].IsRed() && !Red(pool, s)
    ensures x < |pool| && y < |pool|
    ensures Rotated(Rotate(pool, x, y, ydir), root, up, At(x), t', h + 1, At(y))
    ensures Inorder(t') == Inorder(Mk(x, ydir, Mk(y, ydir, t, u), s))
  {
    TwoUp(pool, root, up, ydir, x, s, ydir, y, u, t, h);
    RotateSettles(pool, root, up, At(x), ydir, x, y, t, u, s, h);
    RotateInorder(x, y, ydir, t, u, s);
    t' := Mk(y, ydir, t, Mk(x, ydir, u, s));
  }

  /** The bent case: first |z| is lifted over |y|, then over |x|. */
  lemma {:induction false} InnerCase(
      pool: Pool, root: Ptr, up: Ctx, ydir: bool, x: nat, s: Tree, y: nat, u: Tree, t: Tree, h: nat)
      returns (t': Tree)
    requires Unsettled(pool, root, Frame(Frame(up, ydir, x, s), !ydir, y, u), t, h) && pool[y].IsRed() && !Red(pool, s)
    ensures x < |pool| && y < |pool| && t.id < |pool| && pool[y].Leaf(!ydir) == At(t.id)
    ensures Rotated(Rotate(Straighten(pool, y, t.id, ydir), x, t.id, ydir), root, up, At(x), t', h + 1, At(t.id))
    ensures Inorder(t') == Inorder(Mk(x, ydir, Mk(y, !ydir, t, u), s))
  {
    TwoUp(pool, root, up, ydir, x, s, !ydir, y, u, t, h);
    var z := t.id;
    var za, zb := if ydir then t.r else t.l, if ydir then t.l else t.r;
    assert t == Mk(z, ydir, za, zb) && Mk(y, !ydir, t, u) == Mk(y, ydir, u, t);
    InnerGood(up, x, y, z, ydir, u, za, zb, s);
    StraightenShape(pool, y, z, ydir, u, za, zb);
    StraightenKeys(pool, y, z, ydir);
    InnerFrames(pool, Straighten(pool, y, z, ydir), root, up, x, y, z, ydir, s, u, za, zb, h);
    RotateSettles(Straighten(pool, y, z, ydir), root, up, At(x), ydir, x, z, Mk(y, ydir, u, za), zb, s, h);
    t' := Mk(z, ydir, Mk(y, ydir, u, za), Mk(x, ydir, zb, s));
    InnerInorder(x, y, z, ydir, u, za, zb, s);
  }

  lemma {:induction false} InnerGood(up: Ctx, x: nat, y: nat, z: nat, ydir: bool, u: Tree, za: Tree, zb: Tree, s: Tree)
    requires Apart(up, Mk(x, ydir, Mk(y, ydir, u, Mk(z, ydir, za, zb)), s))
    ensures Apart(up, Mk(x, ydir, Mk(z, ydir, Mk(y, ydir, u, za), zb), s))
    ensures Good(Mk(y, ydir, u, Mk(z, ydir, za, zb)))
    ensures x != y && x != z && y !in CtxIds(up) && z !in CtxIds(up) && y !in Ids(s) && z !in Ids(s)
  {
    MkGood(x, ydir, Mk(y, ydir, u, Mk(z, ydir, za, zb)), s);
    MkGood(y, ydir, u, Mk(z, ydir, za, zb));
    MkGood(z, ydir, za, zb);
    MkGood(y, ydir, u, za);
    MkGood(z, ydir, Mk(y, ydir, u, za), zb);
    MkGood(x, ydir, Mk(z, ydir, Mk(y, ydir, u, za), zb), s);
  }

  lemma {:induction false} OuterFrames(
      pool: Pool, pool1: Pool, root: Ptr, up: Ctx, x: nat, y: nat, z: nat, ydir: bool, s: Tree, h: nat)
    requires x < |pool| == |pool1| && y < |pool| && z < |pool|
    requires forall i :: 0 <= i < |pool| && i != y && i != z ==> pool1[i] == pool[i]
    requires x != y && x != z && y !in CtxIds(up) && z !in CtxIds(up) && y !in Ids(s) && z !in Ids(s)
    requires CtxShape(pool, up, At(x), root) && CtxRB(pool, up, h + 1) && Shape(pool, pool[x].Leaf(!ydir), s)
    ensures CtxShape(pool1, up, At(x), root) && CtxRB(pool1, up, h + 1) && Shape(pool1, pool1[x].Leaf(!ydir), s)
  {
    CtxShapeFrame(pool, pool1, up, At(x), root);
    CtxRBFrame(pool, pool1, up, h + 1);
    ShapeFrame(pool, pool1, pool[x].Leaf(!ydir), s);
  }

  lemma {:induction false} InnerFrames(pool: Pool, pool1: Pool, root: Ptr, up: Ctx, x: nat, y: nat, z: nat, ydir: bool,
                                       s: Tree, u: Tree, za: Tree, zb: Tree, h: nat)
    requires x < |pool| == |pool1| && y < |pool| && z < |pool|
    requires forall i :: 0 <= i < |pool| ==> SameColour(pool[i], pool1[i])
    requires forall i :: 0 <= i < |pool| && i != y && i != z ==> pool1[i] == pool[i]
    requires x != y && x != z && y !in CtxIds(up) && z !in CtxIds(up) && y !in Ids(s) && z !in Ids(s)
    requires CtxShape(pool, up, At(x), root) && CtxRB(pool, up, h + 1) && Shape(pool, pool[x].Leaf(!ydir), s)
    requires RB(pool, u, h) && RB(pool, za, h) && RB(pool, zb, h) && RB(pool, s, h) && pool[y].IsRed()
    requires !Red(pool, u) && !Red(pool, za) && !Red(pool, zb) && !Red(pool, s)
    ensures CtxShape(pool1, up, At(x), root) && CtxRB(pool1, up, h + 1) && Shape(pool1, pool1[x].Leaf(!ydir), s)
    ensures RB(pool1, Mk(y, ydir, u, za), h) && RB(pool1, zb, h) && RB(pool1, s, h)
    ensures !Red(pool1, zb) && !Red(pool1, s)
  {
    OuterFrames(pool, pool1, root, up, x, y, z, ydir, s, h);
    RBFrame(pool, pool1, u, h);
    RBFrame(pool, pool1, za, h);
    RBFrame(pool, pool1, zb, h);
    RBFrame(pool, pool1, s, h);
    MkRB(pool1, y, ydir, u, za, h);
  }

  lemma {:induction false} InnerInorder(x: nat, y: nat, z: nat, ydir: bool, u: Tree, za: Tree, zb: Tree, s: Tree)
    ensures Inorder(Mk(z, ydir, Mk(y, ydir, u, za), Mk(x, ydir, zb, s)))
        == Inorder(Mk(x, ydir, Mk(y, ydir, u, Mk(z, ydir, za, zb)), s))
  {
    RotateInorder(x, z, ydir, Mk(y, ydir, u, za), zb, s);
    RotateInorder(z, y, ydir, u, za, zb);
  }

  /** Everything about a finished insertion but the colour of the root. */
  ghost predicate Settled(pool: Pool, root: Ptr, t: Tree) {
    t.T? && Good(t) && Shape(pool, root, t) && exists h: nat :: RB(pool, t, h)
  }

  lemma {:induction false} LoopSettles(pool: Pool, root: Ptr, c: Ctx, t: Tree, h: nat)
    requires Unsettled(pool, root, c, t, h)
    requires c.Top? || BlackTop(pool, c)
    ensures Settled(pool, root, Plug(c, t))
  {
    var hh := PlugRB(pool, c, t, h);
    PlugShape(pool, c, At(t.id), root, t);
    PlugGood(c, t);
    PlugIds(c, t);
  }

  lemma {:induction false} GraftSettles(
      pool: Pool, root: Ptr, up: Ctx, hole: Ptr, t: Tree, h: nat, nodes: seq<nat>, dirs: seq<bool>, k: nat)
    requires t.T? && Rotated(pool, root, up, hole, t, h, At(t.id)) && Stacked(up, nodes, dirs, k)
    ensures k <= |nodes| && k <= |dirs| && (k > 0 ==> nodes[k - 1] < |pool|)
    ensures Settled(Graft(pool, nodes, dirs, k, At(t.id)), if k > 0 then root else At(t.id), Plug(up, t))
    ensures SameKeys(pool, Graft(pool, nodes, dirs, k, At(t.id)))
  {
    GraftShape(pool, up, nodes, dirs, k, hole, root, At(t.id));
    GraftKeeps(pool, nodes, dirs, k, At(t.id), up, t, At(t.id), h);
    var pool' := Graft(pool, nodes, dirs, k, At(t.id));
    var hh := PlugRB(pool', up, t, h);
    PlugShape(pool', up, At(t.id), if k > 0 then root else At(t.id), t);
    PlugGood(up, t);
    PlugIds(up, t);
  }

  lemma {:induction false} PaintRootBlack(pool: Pool, root: Ptr, t: Tree)
    requires Settled(pool, root, t)
    ensures t.id < |pool| && root == At(t.id)
    ensures var pool' := pool[t.id := pool[t.id].PaintBlack()];
            Shape(pool', root, t) && Balanced(pool', t) && SameKeys(pool, pool')
  {
    var h: nat :| RB(pool, t, h);
    var pool' := pool[t.id := pool[t.id].PaintBlack()];
    ShapeFrame(pool, pool', root, t);
    var h' := if pool[t.id].IsRed() then h else h - 1;
    RBFrame(pool, pool', t.l, h');
    RBFrame(pool, pool', t.r, h');
    assert RB(pool', t, h' + 1);
  }

  lemma SameKeysTransitive(p: Pool, q: Pool, r: Pool)
    requires SameKeys(p, q) && SameKeys(q, r)
    ensures SameKeys(p, r)
  {
  }

  lemma {:induction false} SameInorderSameIds(t: Tree, t': Tree)
    requires Inorder(t) == Inorder(t')
    ensures Ids(t) == Ids(t')
  {
    InorderIds(t);
    InorderIds(t');
  }

  /** Two trees that fill the same hole and list the same nodes list the same nodes when plugged in. */
  lemma {:induction false} PlugSameInorder(c: Ctx, t: Tree, t': Tree)
    requires Inorder(t) == Inorder(t')
    ensures Inorder(Plug(c, t)) == Inorder(Plug(c, t'))
  {
    PlugInorder(c, t);
    PlugInorder(c, t');
  }

  /** Where the walk ends when the key is not in the tree. */
  ghost predicate WalkEnd(pool: Pool, root: Ptr, tree: Tree, c: Ctx, key: seq<byte>) {
    Plug(c, Nil) == tree && Split(pool, root, c, Null, Nil, 0) && Narrowed(pool, c, key)
  }

  /** A key on the far side of every node is not stored. */
  lemma {:induction false} WalkEndAbsent(pool: Pool, n: nat, root: Ptr, tree: Tree, c: Ctx, key: seq<byte>)
    requires Inv(pool, n, root, tree) && WalkEnd(pool, root, tree, c, key)
    ensures key !in Keys(pool, n)
  {
    PlugInorder(c, Nil);
    InorderIds(tree);
    InBelow(n);
    AllBelowApart(pool, Before(c), key);
    AllBelowApart(pool, After(c), key);
    forall i | 0 <= i < n
      ensures pool[i].Key() != key
    {
      assert i in Inorder(tree);
    }
  }

  /** The pool after slot |n| has received the new red node. */
  function Allocated(pool: Pool, n: nat, data: seq<byte>, len: nat): Pool
    requires n < |pool|
  {
    pool[n := Node(Null, Null, data, 2 * len + 1)]
  }

  lemma {:induction false} AllocateSplit(pool: Pool, n: nat, root: Ptr, c: Ctx, data: seq<byte>, len: nat)
    requires n < |pool| && Apart(c, Nil) && n !in CtxIds(c)
    requires CtxShape(pool, c, Null, root) && CtxRB(pool, c, 0)
    ensures var pool' := Allocated(pool, n, data, len);
            && CtxShape(pool', c, Null, root) && CtxRB(pool', c, 0) && Apart(c, T(n, Nil, Nil))
            && RB(pool', T(n, Nil, Nil), 0) && Shape(pool', At(n), T(n, Nil, Nil)) && Red(pool', T(n, Nil, Nil))
  {
    var pool' := Allocated(pool, n, data, len);
    CtxShapeFrame(pool, pool', c, Null, root);
    CtxRBFrame(pool, pool', c, 0);
  }

  lemma {:induction false} AllocateIds(n: nat, c: Ctx)
    requires Ids(Plug(c, Nil)) == Below(n)
    ensures n !in CtxIds(c) && Ids(Plug(c, T(n, Nil, Nil))) == Below(n + 1)
    ensures n !in Inorder(Plug(c, Nil))
  {
    PlugIds(c, Nil);
    PlugIds(c, T(n, Nil, Nil));
    InorderIds(Plug(c, Nil));
    InBelow(n);
    assert Ids(T(n, Nil, Nil)) == {n};
  }

  lemma {:induction false} AllocateInorder(n: nat, c: Ctx)
    ensures Inorder(Plug(c, Nil)) == Before(c) + After(c)
    ensures Inorder(Plug(c, T(n, Nil, Nil))) == Before(c) + [n] + After(c)
  {
    PlugInorder(c, Nil);
    PlugInorder(c, T(n, Nil, Nil));
    assert Before(c) + [] == Before(c);
    assert Inorder(T(n, Nil, Nil)) == [n];
  }

  lemma {:induction false} AllocateSorted(pool: Pool, n: nat, a: seq<nat>, b: seq<nat>, data: seq<byte>, len: nat)
    requires n < |pool| && len <= |data| && Sorted(pool, a + b) && n !in a + b
    requires AllBelow(pool, a, data[..len]) && AllAbove(pool, b, data[..len])
    ensures Sorted(Allocated(pool, n, data, len), a + [n] + b)
  {
    var pool' := Allocated(pool, n, data, len);
    SortedFrame(pool, pool', a + b);
    assert pool'[n].Key() == data[..len];
    forall i | 0 <= i < |a| ensures pool'[a[i]] == pool[a[i]] { assert (a + b)[i] == a[i]; }
    forall i | 0 <= i < |b| ensures pool'[b[i]] == pool[b[i]] { assert (a + b)[|a| + i] == b[i]; }
    SortedInsert(pool', a, n, b);
  }

  lemma {:induction false} AttachLemma(pool: Pool, n: nat, root: Ptr, tree: Tree, c: Ctx, data: seq<byte>, len: nat)
    requires Inv(pool, n, root, tree) && n < |pool| && len <= |data| && WalkEnd(pool, root, tree, c, data[..len])
    ensures var pool', t := Allocated(pool, n, data, len), T(n, Nil, Nil);
            && CtxShape(pool', c, Null, root) && CtxRB(pool', c, 0) && Apart(c, t)
            && RB(pool', t, 0) && Shape(pool', At(n), t) && Red(pool', t)
            && Sorted(pool', Inorder(Plug(c, t))) && Ids(Plug(c, t)) == Below(n + 1)
  {
    AllocateIds(n, c);
    AllocateInorder(n, c);
    AllocateSplit(pool, n, root, c, data, len);
    AllocateSorted(pool, n, Before(c), After(c), data, len);
  }

  lemma {:induction false} GraftUnsettled(
      pool: Pool, root: Ptr, c: Ctx, z: nat, nodes: seq<nat>, dirs: seq<bool>, k: nat)
    requires var t := T(z, Nil, Nil);
             && CtxShape(pool, c, Null, root) && CtxRB(pool, c, 0) && Apart(c, t)
             && RB(pool, t, 0) && Shape(pool, At(z), t) && Red(pool, t)
    requires Stacked(c, nodes, dirs, k)
    ensures k <= |nodes| && k <= |dirs| && (k > 0 ==> nodes[k - 1] < |pool|)
    ensures Unsettled(Graft(pool, nodes, dirs, k, At(z)), if k > 0 then root else At(z), c, T(z, Nil, Nil), 0)
    ensures SameKeys(pool, Graft(pool, nodes, dirs, k, At(z)))
  {
    GraftShape(pool, c, nodes, dirs, k, Null, root, At(z));
    GraftKeeps(pool, nodes, dirs, k, At(z), c, T(z, Nil, Nil), At(z), 0);
  }

  lemma {:induction false} KeysAfter(pool: Pool, n: nat, data: seq<byte>, len: nat, pool': Pool)
    requires n < |pool| && len <= |data| && SameKeys(Allocated(pool, n, data, len), pool')
    ensures Keys(pool', n + 1) == Keys(pool, n) + {data[..len]}
  {
    var pool1 := Allocated(pool, n, data, len);
    assert SameKey(pool1[n], pool'[n]) && pool'[n].Key() == data[..len];
    forall i | 0 <= i < n
      ensures pool[i].Ok() == pool'[i].Ok() && (pool[i].Ok() ==> pool[i].Key() == pool'[i].Key())
    {
      assert pool1[i] == pool[i] && SameKey(pool1[i], pool'[i]);
    }
  }

  class UniqTree {
    var root: Ptr
    var nNodes: nat
    const nodes: array<Node>
    ghost var shape: Tree

    ghost predicate Valid()
      reads this, nodes
    {
      Inv(nodes[..], nNodes, root, shape)
    }

    ghost function Contents(): set<seq<byte>>
      reads this, nodes
    {
      Keys(nodes[..], nNodes)
    }

    /** blst_uniq_sizeof and blst_uniq_init: an empty tree with room for |capacity| messages. */
    constructor (capacity: nat)
      ensures Valid() && Contents() == {} && nNodes == 0 && nodes.Length == capacity && fresh(nodes)
    {
      nodes := new Node[capacity](_ => Node(Null, Null, [], 0));
      root := Null;
      nNodes := 0;
      shape := Nil;
      new;
      assert RB(nodes[..], Nil, 0);
    }

    method RecolourNodes(x: nat, y: nat, s: nat)
      requires x < nodes.Length && y < nodes.Length && s < nodes.Length
      modifies nodes
      ensures nodes[..] == Recolour(old(nodes[..]), x, y, s)
    {
      nodes[x] := nodes[x].PaintRed();
      nodes[y] := nodes[y].PaintBlack();
      nodes[s] := nodes[s].PaintBlack();
    }

    method StraightenNodes(y: nat, z: nat, ydir: bool)
      requires y < nodes.Length && z < nodes.Length
      modifies nodes
      ensures nodes[..] == Straighten(old(nodes[..]), y, z, ydir)
    {
      nodes[y] := nodes[y].SetLeaf(!ydir, nodes[z].Leaf(ydir));
      nodes[z] := nodes[z].SetLeaf(ydir, At(y));
    }

    method RotateNodes(x: nat, y: nat, ydir: bool)
      requires x < nodes.Length && y < nodes.Length && x != y
      modifies nodes
      ensures nodes[..] == Rotate(old(nodes[..]), x, y, ydir)
    {
      nodes[x] := nodes[x].SetLeaf(ydir, nodes[y].Leaf(!ydir));
      nodes[y] := nodes[y].SetLeaf(!ydir, At(x));
      nodes[x] := nodes[x].PaintRed();
      nodes[y] := nodes[y].PaintBlack();
    }

    method GraftNode(visited: array<nat>, dirs: array<bool>, k: nat, z: nat)
      requires k <= visited.Length && k <= dirs.Length && (k > 0 ==> visited[k - 1] < nodes.Length)
      modifies nodes, this`root
      ensures nodes[..] == Graft(old(nodes[..]), visited[..], dirs[..], k, At(z))
      ensures root == if k > 0 then old(root) else At(z)
    {
      if k > 0 {
        nodes[visited[k - 1]] := nodes[visited[k - 1]].SetLeaf(dirs[k - 1], At(z));
      } else {
        root := At(z);
      }
    }

    /** A red parent and a red uncle: the red node moves up two levels. */
    method RecolourUp(x: nat, y: nat, s: nat, ghost ydir: bool, ghost d: bool,
                      ghost up: Ctx, ghost st: Tree, ghost u: Tree, ghost t: Tree, ghost h: nat)
      requires Unsettled(nodes[..], root, Frame(Frame(up, ydir, x, st), d, y, u), t, h)
      requires y < nodes.Length && nodes[y].IsRed() && x < nodes.Length && nodes[x].Leaf(!ydir) == At(s)
      requires s < nodes.Length && nodes[s].IsRed()
      modifies nodes
      ensures Unsettled(nodes[..], root, up, Mk(x, ydir, Mk(y, d, t, u), st), h + 1)
      ensures SameKeys(old(nodes[..]), nodes[..])
    {
      TwoUp(nodes[..], root, up, ydir, x, st, d, y, u, t, h);
      RecolourUnsettled(nodes[..], root, up, ydir, x, st, d, y, u, t, h);
      RecolourNodes(x, y, s);
    }

    /** Bringing parent and child into line with the grandparent, where they are not. */
    method LineUp(
        x: nat, y: nat, ydir: bool, d: bool, ghost up: Ctx, ghost st: Tree, ghost u: Tree, ghost t: Tree,
        ghost h: nat)
        returns (y': nat, ghost t': Tree)
      requires Unsettled(nodes[..], root, Frame(Frame(up, ydir, x, st), d, y, u), t, h)
      requires y < nodes.Length && nodes[y].IsRed() && !Red(nodes[..], st)
      modifies nodes
      ensures x < nodes.Length && y' < nodes.Length && x != y'
      ensures Rotated(Rotate(nodes[..], x, y', ydir), root, up, At(x), t', h + 1, At(y'))
      ensures Inorder(t') == Inorder(Mk(x, ydir, Mk(y, d, t, u), st))
      ensures SameKeys(old(nodes[..]), nodes[..])
    {
      TwoUpApart(nodes[..], root, up, ydir, x, st, d, y, u, t, h);
      y' := y;
      if d != ydir {
        t' := InnerCase(nodes[..], root, up, ydir, x, st, y, u, t, h);
        y' := nodes[y].Leaf(!ydir).idx;
        StraightenKeys(nodes[..], y, y', ydir);
        StraightenNodes(y, y', ydir);
      } else {
        t' := OuterCase(nodes[..], root, up, ydir, x, st, y, u, t, h);
      }
    }

    /** The rotation proper, and the new subtree grafted where the old one was. */
    method LiftOver(
        visited: array<nat>, dirs: array<bool>, k: nat, x: nat, y: nat, ydir: bool, ghost up: Ctx, ghost t: Tree,
        ghost h: nat)
      requires x < nodes.Length && y < nodes.Length && x != y && Stacked(up, visited[..], dirs[..], k)
      requires Rotated(Rotate(nodes[..], x, y, ydir), root, up, At(x), t, h, At(y))
      modifies nodes, this`root
      ensures Settled(nodes[..], root, Plug(up, t))
      ensures SameKeys(old(nodes[..]), nodes[..])
    {
      RotateKeys(nodes[..], x, y, ydir);
      RotateNodes(x, y, ydir);
      GraftSettles(nodes[..], root, up, At(x), t, h, visited[..], dirs[..], k);
      GraftNode(visited, dirs, k, y);
    }

    method RotateTwo(visited: array<nat>, dirs: array<bool>, k: nat, x: nat, y: nat, ydir: bool, d: bool,
                     ghost up: Ctx, ghost st: Tree, ghost u: Tree, ghost t: Tree, ghost h: nat)
        returns (ghost t': Tree)
      requires Unsettled(nodes[..], root, Frame(Frame(up, ydir, x, st), d, y, u), t, h)
      requires y < nodes.Length && nodes[y].IsRed() && !Red(nodes[..], st) && Stacked(up, visited[..], dirs[..], k)
      modifies nodes, this`root
      ensures Settled(nodes[..], root, Plug(up, t')) && Inorder(t') == Inorder(Mk(x, ydir, Mk(y, d, t, u), st))
      ensures SameKeys(old(nodes[..]), nodes[..])
    {
      var y';
      y', t' := LineUp(x, y, ydir, d, up, st, u, t, h);
      LiftOver(visited, dirs, k, x, y', ydir, up, t', h + 1);
    }

    /** A red parent and no red uncle: one or two rotations, after which nothing is left to do. */
    method RotateUp(visited: array<nat>, dirs: array<bool>, k: nat, ghost c: Ctx, ghost t: Tree, ghost h: nat)
        returns (ghost t': Tree)
      requires Unsettled(nodes[..], root, c, t, h) && Stacked(c, visited[..], dirs[..], k)
      requires 2 <= k <= visited.Length && k <= dirs.Length
      requires visited[k - 1] < nodes.Length && nodes[visited[k - 1]].IsRed()
      requires c.Frame? && c.up.Frame? && !Red(nodes[..], c.up.sib)
      modifies nodes, this`root
      ensures Settled(nodes[..], root, t') && Inorder(t') == Inorder(Plug(c, t))
      ensures SameKeys(old(nodes[..]), nodes[..])
    {
      StackedTwo(c, visited[..], dirs[..], k);
      var x, ydir := visited[k - 2], dirs[k - 2];
      t' := RotateTwo(visited, dirs, k - 2, x, visited[k - 1], ydir, dirs[k - 1], c.up.up, c.up.sib, c.sib, t, h);
      PlugSameInorder(c.up.up, t', Mk(x, ydir, Mk(c.id, c.dir, t, c.sib), c.up.sib));
      t' := Plug(c.up.up, t');
    }

    /** One turn of the re-balancing loop; |done| means that it breaks. */
    method BalanceStep(visited: array<nat>, dirs: array<bool>, k: nat, ghost c: Ctx, ghost t: Tree, ghost h: nat)
        returns (done: bool, ghost c': Ctx, ghost t': Tree)
      requires Unsettled(nodes[..], root, c, t, h) && Stacked(c, visited[..], dirs[..], k)
      requires 2 <= k <= visited.Length && k <= dirs.Length
      requires visited[k - 1] < nodes.Length && nodes[visited[k - 1]].IsRed()
      modifies nodes, this`root
      ensures done ==> Settled(nodes[..], root, t') && Inorder(t') == Inorder(Plug(c, t))
      ensures !done ==> Unsettled(nodes[..], root, c', t', h + 1) && Stacked(c', visited[..], dirs[..], k - 2)
      ensures !done ==> Plug(c', t') == Plug(c, t)
      ensures !done && k >= 4 ==> visited[k - 3] < nodes.Length
      ensures SameKeys(old(nodes[..]), nodes[..])
    {
      StackedTwo(c, visited[..], dirs[..], k);
      UncleOf(nodes[..], root, c, t, h);
      var y, x, ydir := visited[k - 1], visited[k - 2], dirs[k - 2];
      var s := nodes[x].Leaf(!ydir);
      done := !(s != Null && nodes[s.idx].IsRed());
      if !done {
        RecolourUp(x, y, s.idx, ydir, c.dir, c.up.up, c.up.sib, c.sib, t, h);
        c', t' := c.up.up, Mk(x, ydir, Mk(y, c.dir, t, c.sib), c.up.sib);
        StackedTopInPool(nodes[..], root, c', t', h + 1, visited[..], dirs[..], k - 2);
      } else {
        c' := c;
        t' := RotateUp(visited, dirs, k, c, t, h);
      }
    }

    /** The re-balancing loop. */
    method Rebalance(visited: array<nat>, dirs: array<bool>, depth: nat, ghost c0: Ctx, ghost t0: Tree)
        returns (ghost t': Tree)
      requires Unsettled(nodes[..], root, c0, t0, 0) && Stacked(c0, visited[..], dirs[..], depth)
      modifies nodes, this`root
      ensures Settled(nodes[..], root, t') && Inorder(t') == Inorder(Plug(c0, t0))
      ensures SameKeys(old(nodes[..]), nodes[..])
    {
      var k: nat := depth;
      ghost var c, t, h, pool0 := c0, t0, 0, nodes[..];
      StackedTopInPool(nodes[..], root, c, t, h, visited[..], dirs[..], k);
      while k >= 2 && nodes[visited[k - 1]].IsRed()
        invariant k >= 2 ==> k <= visited.Length && k <= dirs.Length && visited[k - 1] < nodes.Length
        invariant Unsettled(nodes[..], root, c, t, h) && Stacked(c, visited[..], dirs[..], k)
        invariant Plug(c, t) == Plug(c0, t0)
        invariant SameKeys(pool0, nodes[..])
      {
        var done;
        ghost var was := nodes[..];
        done, c, t := BalanceStep(visited, dirs, k, c, t, h);
        SameKeysTransitive(pool0, was, nodes[..]);
        if done {
          t' := t;
          return;
        }
        k, h := k - 2, h + 1;
      }
      TopOfLoop(nodes[..], root, c, t, h, visited[..], dirs[..], k);
      t' := Plug(c, t);
    }

    /** PAINT_BLACK(tree->root) */
    method PaintRoot(ghost t: Tree)
      requires Settled(nodes[..], root, t)
      modifies nodes
      ensures Shape(nodes[..], root, t) && Balanced(nodes[..], t)
      ensures SameKeys(old(nodes[..]), nodes[..])
    {
      PaintRootBlack(nodes[..], root, t);
      nodes[root.idx] := nodes[root.idx].PaintBlack();
    }

    method BalanceAndPaint(
        visited: array<nat>, dirs: array<bool>, k: nat, ghost c: Ctx, ghost t: Tree) returns (ghost t': Tree)
      requires Unsettled(nodes[..], root, c, t, 0) && Stacked(c, visited[..], dirs[..], k)
      modifies nodes, this`root
      ensures Good(t') && Shape(nodes[..], root, t') && Balanced(nodes[..], t') && Inorder(t') == Inorder(Plug(c, t))
      ensures SameKeys(old(nodes[..]), nodes[..])
    {
      t' := Rebalance(visited, dirs, k, c, t);
      PaintRoot(t');
    }

    /** rb_tree_insert, and with it blst_uniq_test. */
    method Insert(data: seq<byte>, len: nat) returns (added: int)
      requires Valid() && len <= |data| && 2 * len < SIZE_T
      requires nNodes < MAX_NODES
      requires nNodes < nodes.Length || data[..len] in Contents()
      modifies this, nodes
      ensures Valid()
      ensures Contents() == old(Contents()) + {data[..len]}
      ensures added == if data[..len] in old(Contents()) then 0 else 1
      ensures added == 0 ==> nodes[..] == old(nodes[..]) && root == old(root)
      ensures nNodes == old(nNodes) + added
    {
      var visited, dirs := new nat[MAX_DEPTH], new bool[MAX_DEPTH];
      var found, k;
      ghost var c;
      found, k, c := Walk(data, len, visited, dirs);
      ghost var pool, n, key := nodes[..], nNodes, data[..len];
      if found {
        assert Contents() == old(Contents()) + {key};
        return 0;
      }
      WalkEndAbsent(pool, n, root, shape, c, key);
      ghost var t' := Attach(data, len, visited, dirs, k, c);
      KeysAfter(pool, n, data, len, nodes[..]);
      shape := t';
      return 1;
    }

    /** The second half of rb_tree_insert: allocate, graft, re-balance, paint the root. */
    method Attach(data: seq<byte>, len: nat, visited: array<nat>, dirs: array<bool>, k: nat, ghost c: Ctx)
        returns (ghost t': Tree)
      requires Valid() && len <= |data| && 2 * len < SIZE_T && nNodes < nodes.Length
      requires WalkEnd(nodes[..], root, shape, c, data[..len]) && Stacked(c, visited[..], dirs[..], k)
      modifies this`root, this`nNodes, nodes
      ensures nNodes == old(nNodes) + 1 && Inv(nodes[..], nNodes, root, t')
      ensures SameKeys(Allocated(old(nodes[..]), old(nNodes), data, len), nodes[..])
    {
      ghost var n, pool1 := nNodes, Allocated(nodes[..], nNodes, data, len);
      Place(data, len, visited, dirs, k, c, pool1);
      t' := Finish(visited, dirs, k, c, n, pool1);
    }

    method Finish(
        visited: array<nat>, dirs: array<bool>, k: nat, ghost c: Ctx, ghost n: nat, ghost pool1: Pool)
        returns (ghost t': Tree)
      requires Placed(pool1, nodes[..], root, c, n) && Stacked(c, visited[..], dirs[..], k)
      modifies nodes, this`root
      ensures Inv(nodes[..], n + 1, root, t') && SameKeys(pool1, nodes[..])
    {
      ghost var pool2 := nodes[..];
      t' := BalanceAndPaint(visited, dirs, k, c, T(n, Nil, Nil));
      InsertDone(pool1, pool2, nodes[..], n, root, c, t');
    }

    /** The next node of the pool, red and without children. */
    method Allocate(data: seq<byte>, len: nat) returns (z: nat)
      requires len <= |data| && 2 * len < SIZE_T && nNodes < nodes.Length
      modifies this`nNodes, nodes
      ensures z == old(nNodes) && nNodes == z + 1
      ensures nodes[..] == Allocated(old(nodes[..]), z, data, len)
    {
      z := nNodes;
      nNodes := nNodes + 1;
      nodes[z] := Node(Null, Null, data, 2 * len % SIZE_T);
      nodes[z] := nodes[z].PaintRed();
    }

    /** A new red leaf where the walk ended. */
    method Place(
        data: seq<byte>, len: nat, visited: array<nat>, dirs: array<bool>, k: nat, ghost c: Ctx, ghost pool1: Pool)
      requires Inv(nodes[..], nNodes, root, shape) && len <= |data| && 2 * len < SIZE_T && nNodes < nodes.Length
      requires WalkEnd(nodes[..], root, shape, c, data[..len]) && Stacked(c, visited[..], dirs[..], k)
      requires pool1 == Allocated(nodes[..], nNodes, data, len)
      modifies this`root, this`nNodes, nodes
      ensures nNodes == old(nNodes) + 1
      ensures Placed(pool1, nodes[..], root, c, old(nNodes)) && Stacked(c, visited[..], dirs[..], k)
    {
      AttachLemma(nodes[..], nNodes, root, shape, c, data, len);
      var z := Allocate(data, len);
      GraftUnsettled(pool1, root, c, z, visited[..], dirs[..], k);
      GraftNode(visited, dirs, k, z);
    }

    /** The walk from the root towards the place of the key, recorded in |visited| and |dirs|. */
    method Walk(data: seq<byte>, len: nat, visited: array<nat>, dirs: array<bool>)
        returns (found: bool, k: nat, ghost c: Ctx)
      requires Valid() && nNodes < MAX_NODES && len <= |data|
      requires visited.Length == dirs.Length == MAX_DEPTH
      modifies visited, dirs
      ensures found ==> data[..len] in Contents()
      ensures !found ==> WalkEnd(nodes[..], root, shape, c, data[..len])
      ensures !found ==> k <= MAX_DEPTH && Stacked(c, visited[..], dirs[..], k)
    {
      ghost var pool, key, n := nodes[..], data[..len], nNodes;
      ghost var t, h: nat := shape, 0;
      h :| RB(pool, shape, h);
      c, k, found := Top, 0, false;
      var p := root;
      while p != Null
        invariant nodes[..] == pool
        invariant Walking(pool, n, root, shape, c, p, t, h, key)
        invariant k <= MAX_DEPTH && Stacked(c, visited[..], dirs[..], k)
        decreases t
      {
        WalkNode(pool, n, root, shape, c, p, t, h, key);
        var cmp := BytesCompare(data, len, nodes[p.idx].data, nodes[p.idx].Len());
        if cmp == 0 {
          found := true;
          return;
        }
        StackedDepth(c, visited[..], dirs[..], k);
        RecordStep(visited, dirs, k, p.idx, cmp > 0, c, if cmp > 0 then t.l else t.r);
        p := nodes[p.idx].Leaf(dirs[k]);
        c, t, h := WalkStep(pool, n, root, shape, c, t, h, key, cmp > 0);
        k := k + 1;
      }
    }
  }

  /** Lines 59-60. */
  method RecordStep(visited: array<nat>, dirs: array<bool>, k: nat, id: nat, dir: bool, ghost c: Ctx, ghost sib: Tree)
    requires k < visited.Length && k < dirs.Length && Stacked(c, visited[..], dirs[..], k)
    modifies visited, dirs
    ensures Stacked(Frame(c, dir, id, sib), visited[..], dirs[..], k + 1) && dirs[k] == dir
  {
    StackedPush(c, visited[..], dirs[..], k, id, dir, sib);
    visited[k] := id;
    dirs[k] := dir;
  }

  /** Node n, a red leaf, fills the hole of c; colours may still be wrong. pool1 has the keys. */
  ghost predicate Placed(pool1: Pool, pool: Pool, root: Ptr, c: Ctx, n: nat) {
    && n < |pool1| && SameKeys(pool1, pool) && Unsettled(pool, root, c, T(n, Nil, Nil), 0)
    && Sorted(pool1, Inorder(Plug(c, T(n, Nil, Nil)))) && Ids(Plug(c, T(n, Nil, Nil))) == Below(n + 1)
  }

  lemma {:induction false} InsertDone(pool1: Pool, pool2: Pool, pool': Pool, n: nat, root: Ptr, c: Ctx, t': Tree)
    requires Sorted(pool1, Inorder(Plug(c, T(n, Nil, Nil)))) && SameKeys(pool1, pool2) && SameKeys(pool2, pool')
    requires n < |pool1|
    requires Inorder(t') == Inorder(Plug(c, T(n, Nil, Nil)))
    requires Ids(Plug(c, T(n, Nil, Nil))) == Below(n + 1)
    requires Good(t') && Shape(pool', root, t') && Balanced(pool', t')
    ensures Inv(pool', n + 1, root, t') && SameKeys(pool1, pool')
  {
    SameKeysTransitive(pool1, pool2, pool');
    SameInorderSameIds(t', Plug(c, T(n, Nil, Nil)));
    SortedFrame(pool1, pool', Inorder(t'));
  }

  /** With two entries on the stacks, the context has two frames. */
  lemma {:induction false} StackedTwo(c: Ctx, nodes: seq<nat>, dirs: seq<bool>, k: nat)
    requires Stacked(c, nodes, dirs, k) && k >= 2
    ensures k <= |nodes| && k <= |dirs| && c.Frame? && c.up.Frame?
    ensures c.id == nodes[k - 1] && c.dir == dirs[k - 1]
    ensures c.up.id == nodes[k - 2] && c.up.dir == dirs[k - 2]
    ensures Stacked(c.up.up, nodes, dirs, k - 2)
    ensures c == Frame(Frame(c.up.up, dirs[k - 2], nodes[k - 2], c.up.sib), dirs[k - 1], nodes[k - 1], c.sib)
  {
    assert Stacked(c.up, nodes, dirs, k - 1);
  }

  lemma {:induction false} TopOfLoop(
      pool: Pool, root: Ptr, c: Ctx, t: Tree, h: nat, nodes: seq<nat>, dirs: seq<bool>, k: nat)
    requires Unsettled(pool, root, c, t, h) && Stacked(c, nodes, dirs, k)
    requires k < 2 || (k <= |nodes| && nodes[k - 1] < |pool| && !pool[nodes[k - 1]].IsRed())
    ensures Settled(pool, root, Plug(c, t))
  {
    LoopSettles(pool, root, c, t, h);
  }

  lemma {:induction false} StackedTopInPool(
      pool: Pool, root: Ptr, c: Ctx, t: Tree, h: nat, nodes: seq<nat>, dirs: seq<bool>, k: nat)
    requires Unsettled(pool, root, c, t, h) && Stacked(c, nodes, dirs, k)
    ensures k > 0 ==> k <= |nodes| && k <= |dirs| && nodes[k - 1] < |pool|
  {
  }

  lemma {:induction false} UncleOf(pool: Pool, root: Ptr, c: Ctx, t: Tree, h: nat)
    requires Unsettled(pool, root, c, t, h) && c.Frame? && c.up.Frame? && c.id < |pool| && pool[c.id].IsRed()
    ensures c.up.id < |pool|
    ensures var s := pool[c.up.id].Leaf(!c.up.dir);
            && (s == Null <==> c.up.sib == Nil)
            && (s != Null ==> c.up.sib.T? && s == At(c.up.sib.id) && s.idx < |pool|)
  {
    TwoUp(pool, root, c.up.up, c.up.dir, c.up.id, c.up.sib, c.dir, c.id, c.sib, t, h);
  }

  lemma {:induction false} TwoUpApart(
      pool: Pool, root: Ptr, up: Ctx, ydir: bool, x: nat, s: Tree, d: bool, y: nat, u: Tree, t: Tree, h: nat)
    requires Unsettled(pool, root, Frame(Frame(up, ydir, x, s), d, y, u), t, h)
    ensures x != y && x != t.id && y != t.id
  {
  }

  /** The walk's loop invariant: the key can only be in |t|, below the pointer |p|. */
  ghost predicate Walking(pool: Pool, n: nat, root: Ptr, tree: Tree, c: Ctx, p: Ptr, t: Tree, h: nat, key: seq<byte>) {
    && Ids(tree) == Below(n) && n < MAX_NODES && Sorted(pool, Inorder(tree))
    && Split(pool, root, c, p, t, h) && (Red(pool, t) ==> BlackTop(pool, c))
    && Plug(c, t) == tree && Narrowed(pool, c, key)
  }

  lemma {:induction false} WalkNode(
      pool: Pool, n: nat, root: Ptr, tree: Tree, c: Ctx, p: Ptr, t: Tree, h: nat, key: seq<byte>)
    requires Walking(pool, n, root, tree, c, p, t, h, key) && p != Null
    ensures t.T? && p == At(t.id) && t.id < |pool| && pool[t.id].Ok()
    ensures pool[t.id].Key() in Keys(pool, n)
    ensures Depth(c) < MAX_DEPTH
  {
    WalkNodeOk(pool, c, t);
    WalkFound(pool, c, t, n);
    WalkFits(pool, root, c, p, t, h, n);
  }

  lemma {:induction false} WalkStep(
      pool: Pool, n: nat, root: Ptr, tree: Tree, c: Ctx, t: Tree, h: nat, key: seq<byte>, dir: bool)
      returns (c': Ctx, t': Tree, h': nat)
    requires t.T? && t.id < |pool| && pool[t.id].Ok()
    requires Walking(pool, n, root, tree, c, At(t.id), t, h, key)
    requires if dir then Lt(pool[t.id].Key(), key) else Lt(key, pool[t.id].Key())
    ensures Walking(pool, n, root, tree, c', pool[t.id].Leaf(dir), t', h', key)
    ensures t' == if dir then t.r else t.l
    ensures c' == Frame(c, dir, t.id, if dir then t.l else t.r)
  {
    DescendNarrowed(pool, c, t, dir, key);
    c', t', h' := DescendSplit(pool, root, c, At(t.id), t, h, dir);
  }

  lemma {:induction false} StackedPush(c: Ctx, nodes: seq<nat>, dirs: seq<bool>, k: nat, id: nat, dir: bool, sib: Tree)
    requires Stacked(c, nodes, dirs, k) && k < |nodes| && k < |dirs|
    ensures Stacked(Frame(c, dir, id, sib), nodes[k := id], dirs[k := dir], k + 1)
  {
    StackedFrame(c, nodes, dirs, nodes[k := id], dirs[k := dir], k);
  }

  lemma {:induction false} WalkNodeOk(pool: Pool, c: Ctx, t: Tree)
    requires t.T? && Sorted(pool, Inorder(Plug(c, t)))
    ensures t.id < |pool| && pool[t.id].Ok()
  {
    PlugIds(c, t);
    InorderIds(Plug(c, t));
    assert t.id in Inorder(Plug(c, t));
  }

  lemma {:induction false} WalkFound(pool: Pool, c: Ctx, t: Tree, n: nat)
    requires t.T? && Ids(Plug(c, t)) == Below(n) && t.id < |pool| && pool[t.id].Ok()
    ensures pool[t.id].Key() in Keys(pool, n)
  {
    PlugIds(c, t);
    InBelow(n);
    assert t.id < n;
  }

  ghost function Distinct(messages: seq<seq<byte>>): set<seq<byte>> {
    set m | m in messages
  }

  lemma {:induction false} SubsetSize<X>(a: set<X>, b: set<X>)
    requires a <= b
    ensures |a| <= |b|
  {
    if a != {} {
      var x :| x in a;
      SubsetSize(a - {x}, b - {x});
    }
  }

  lemma EarlierFewer(messages: seq<seq<byte>>, j: nat)
    requires j < |messages|
    ensures |Distinct(messages[..j])| <= |Distinct(messages[..|messages| - 1])|
  {
    SubsetSize(Distinct(messages[..j]), Distinct(messages[..|messages| - 1]));
  }

  lemma OneMore(messages: seq<seq<byte>>, j: nat)
    requires j < |messages|
    ensures Distinct(messages[..j + 1]) == Distinct(messages[..j]) + {messages[j]}
    ensures |Distinct(messages[..j + 1])| == |Distinct(messages[..j])| + if messages[j] in messages[..j] then 0 else 1
  {
    assert messages[..j + 1] == messages[..j] + [messages[j]];
  }

  /** 0 for a message that occurred before, 1 for the first of its kind. */
  ghost function Answer(messages: seq<seq<byte>>, i: nat): int
    requires i < |messages|
  {
    if messages[i] in messages[..i] then 0 else 1
  }

  /** The tree holds exactly the first j messages. */
  ghost predicate HoldsFirst(tree: UniqTree, messages: seq<seq<byte>>, j: nat)
    reads tree, tree.nodes
  {
    && j <= |messages| && tree.Valid() && tree.nodes.Length == |messages|
    && tree.Contents() == Distinct(messages[..j]) && tree.nNodes == |Distinct(messages[..j])| <= j
  }

  /** blst_uniq_test for message j. */
  method TestOne(tree: UniqTree, messages: seq<seq<byte>>, j: nat) returns (answer: int)
    requires j < |messages| && HoldsFirst(tree, messages, j) && 2 * |messages[j]| < SIZE_T
    requires |Distinct(messages[..|messages| - 1])| < MAX_NODES
    modifies tree, tree.nodes
    ensures HoldsFirst(tree, messages, j + 1)
    ensures answer == Answer(messages, j)
  {
    var m := messages[j];
    assert m[..|m|] == m;
    EarlierFewer(messages, j);
    OneMore(messages, j);
    answer := tree.Insert(m, |m|);
  }

  /**
   * blst_uniq_init followed by one blst_uniq_test per message: the answer is 1 exactly for the
   * messages that did not occur before, while fewer than 2^32 distinct ones are stored.
   */
  method UniqRun(messages: seq<seq<byte>>) returns (answers: seq<int>)
    requires messages == [] || |Distinct(messages[..|messages| - 1])| < MAX_NODES
    requires forall i :: 0 <= i < |messages| ==> 2 * |messages[i]| < SIZE_T
    ensures |answers| == |messages|
    ensures forall i :: 0 <= i < |messages| ==> answers[i] == Answer(messages, i)
  {
    var tree := new UniqTree(|messages|);
    StartsEmpty(tree, messages);
    answers := TestAll(tree, messages);
  }

  lemma StartsEmpty(tree: UniqTree, messages: seq<seq<byte>>)
    requires tree.Valid() && tree.Contents() == {} && tree.nNodes == 0 && tree.nodes.Length == |messages|
    ensures HoldsFirst(tree, messages, 0)
  {
    assert Distinct(messages[..0]) == {};
  }

  method TestAll(tree: UniqTree, messages: seq<seq<byte>>) returns (answers: seq<int>)
    requires messages == [] || |Distinct(messages[..|messages| - 1])| < MAX_NODES
    requires forall i :: 0 <= i < |messages| ==> 2 * |messages[i]| < SIZE_T
    requires HoldsFirst(tree, messages, 0)
    modifies tree, tree.nodes
    ensures |answers| == |messages|
    ensures forall i :: 0 <= i < |messages| ==> answers[i] == Answer(messages, i)
  {
    answers := [];
    for j := 0 to |messages|
      invariant HoldsFirst(tree, messages, j) && |answers| == j
      invariant forall i :: 0 <= i < j ==> answers[i] == Answer(messages, i)
    {
      var answer := TestOne(tree, messages, j);
      answers := answers + [answer];
    }
  }
}
