/**
 * The heap shape of external/blst/rb_tree.c: a pool of nodes linked by pool indices,
 * the tree a pool spells out, and the "context" that remains when a subtree is cut
 * out of it. The context is what the stacks |nodes| and |dirs| of rb_tree_insert record.
 */
module RbShape {
  import opened ByteStrings

  datatype Ptr = Null | At(idx: nat)

  /** struct node; |lenNColour| packs len<<1 | colour. */
  datatype Node = Node(left: Ptr, right: Ptr, data: seq<byte>, lenNColour: nat) {
    function Leaf(dir: bool): Ptr {
      if dir then right else left
    }
    function SetLeaf(dir: bool, p: Ptr): (n: Node)
      ensures n.Leaf(dir) == p && n.Leaf(!dir) == Leaf(!dir)
      ensures n.data == data && n.lenNColour == lenNColour
    {
      if dir then this.(right := p) else this.(left := p)
    }
    predicate IsRed() {
      lenNColour % 2 == 1
    }
    function Len(): nat {
      lenNColour / 2
    }
    function PaintRed(): (n: Node)
      ensures n.IsRed() && n.Len() == Len()
      ensures n.left == left && n.right == right && n.data == data
    {
      this.(lenNColour := lenNColour / 2 * 2 + 1)
    }
    function PaintBlack(): (n: Node)
      ensures !n.IsRed() && n.Len() == Len()
      ensures n.left == left && n.right == right && n.data == data
    {
      this.(lenNColour := lenNColour / 2 * 2)
    }
    ghost predicate Ok() {
      Len() <= |data|
    }
    ghost function Key(): seq<byte>
      requires Ok()
    {
      data[..Len()]
    }
  }

  type Pool = seq<Node>

  datatype Tree = Nil | T(id: nat, l: Tree, r: Tree)

  /** The node |id| with |a| below it in direction |dir| and |b| in the other one. */
  function Mk(id: nat, dir: bool, a: Tree, b: Tree): Tree {
    if dir then T(id, b, a) else T(id, a, b)
  }

  ghost function Ids(t: Tree): set<nat> {
    match t
    case Nil => {}
    case T(id, l, r) => {id} + Ids(l) + Ids(r)
  }

  /** No pool slot is used twice. */
  ghost predicate Good(t: Tree) {
    match t
    case Nil => true
    case T(id, l, r) => Good(l) && Good(r) && id !in Ids(l) && id !in Ids(r) && Ids(l) !! Ids(r)
  }

  ghost function Inorder(t: Tree): seq<nat> {
    match t
    case Nil => []
    case T(id, l, r) => Inorder(l) + [id] + Inorder(r)
  }

  /** Starting at |p|, the pool spells out |t|. */
  ghost predicate Shape(pool: Pool, p: Ptr, t: Tree)
    decreases t
  {
    match t
    case Nil => p == Null
    case T(id, l, r) => p == At(id) && id < |pool| && Shape(pool, pool[id].left, l) && Shape(pool, pool[id].right, r)
  }

  /** A tree with a hole; the innermost frame comes first. */
  datatype Ctx = Top | Frame(up: Ctx, dir: bool, id: nat, sib: Tree)

  ghost function Plug(c: Ctx, t: Tree): Tree {
    match c
    case Top => t
    case Frame(up, dir, id, sib) => Plug(up, Mk(id, dir, t, sib))
  }

  ghost function CtxIds(c: Ctx): set<nat> {
    match c
    case Top => {}
    case Frame(up, dir, id, sib) => {id} + Ids(sib) + CtxIds(up)
  }

  ghost predicate CtxGood(c: Ctx) {
    match c
    case Top => true
    case Frame(up, dir, id, sib) =>
      CtxGood(up) && Good(sib) && id !in Ids(sib) && id !in CtxIds(up) && Ids(sib) !! CtxIds(up)
  }

  /** The context |c| and the tree |t| that fills its hole use different slots. */
  ghost predicate Apart(c: Ctx, t: Tree) {
    CtxGood(c) && Good(t) && CtxIds(c) !! Ids(t)
  }

  /** The pool spells out |c|, from |root| down to the pointer |hole| in its hole. */
  ghost predicate CtxShape(pool: Pool, c: Ctx, hole: Ptr, root: Ptr) {
    match c
    case Top => hole == root
    case Frame(up, dir, id, sib) =>
      && id < |pool|
      && pool[id].Leaf(dir) == hole
      && Shape(pool, pool[id].Leaf(!dir), sib)
      && CtxShape(pool, up, At(id), root)
  }

  ghost function Before(c: Ctx): seq<nat> {
    match c
    case Top => []
    case Frame(up, dir, id, sib) => if dir then Before(up) + Inorder(sib) + [id] else Before(up)
  }

  ghost function After(c: Ctx): seq<nat> {
    match c
    case Top => []
    case Frame(up, dir, id, sib) => if dir then After(up) else [id] + Inorder(sib) + After(up)
  }

  ghost function Depth(c: Ctx): nat {
    match c
    case Top => 0
    case Frame(up, dir, id, sib) => Depth(up) + 1
  }

  lemma {:induction false} PlugIds(c: Ctx, t: Tree)
    ensures Ids(Plug(c, t)) == CtxIds(c) + Ids(t)
  {
    match c
    case Top =>
    case Frame(up, dir, id, sib) => PlugIds(up, Mk(id, dir, t, sib));
  }

  lemma {:induction false} PlugGood(c: Ctx, t: Tree)
    ensures Good(Plug(c, t)) <==> Apart(c, t)
  {
    match c
    case Top =>
    case Frame(up, dir, id, sib) =>
      PlugGood(up, Mk(id, dir, t, sib));
  }

  lemma {:induction false} PlugInorder(c: Ctx, t: Tree)
    ensures Inorder(Plug(c, t)) == Before(c) + Inorder(t) + After(c)
  {
    match c
    case Top =>
    case Frame(up, dir, id, sib) =>
      PlugInorder(up, Mk(id, dir, t, sib));
      if dir {
        RegroupLeft(Before(up), Inorder(sib), [id], Inorder(t), After(up));
      } else {
        RegroupRight(Before(up), Inorder(t), [id], Inorder(sib), After(up));
      }
  }

  lemma RegroupLeft<X>(a: seq<X>, s: seq<X>, m: seq<X>, i: seq<X>, b: seq<X>)
    ensures a + (s + m + i) + b == (a + s + m) + i + b
  {
  }

  lemma RegroupRight<X>(a: seq<X>, i: seq<X>, m: seq<X>, s: seq<X>, b: seq<X>)
    ensures a + (i + m + s) + b == a + i + (m + s + b)
  {
  }

  lemma {:induction false} PlugShape(pool: Pool, c: Ctx, hole: Ptr, root: Ptr, t: Tree)
    requires CtxShape(pool, c, hole, root) && Shape(pool, hole, t)
    ensures Shape(pool, root, Plug(c, t))
  {
    match c
    case Top =>
    case Frame(up, dir, id, sib) =>
      PlugShape(pool, up, At(id), root, Mk(id, dir, t, sib));
  }

  /** Same links in both pools: all that Shape looks at. */
  ghost predicate SameLinks(p: Node, q: Node) {
    p.left == q.left && p.right == q.right
  }

  lemma {:induction false} ShapeFrame(pool: Pool, pool': Pool, p: Ptr, t: Tree)
    requires Shape(pool, p, t) && |pool| <= |pool'|
    requires forall i :: i in Ids(t) && i < |pool| ==> SameLinks(pool[i], pool'[i])
    ensures Shape(pool', p, t)
    decreases t
  {
    match t
    case Nil =>
    case T(id, l, r) =>
      assert SameLinks(pool[id], pool'[id]);
      ShapeFrame(pool, pool', pool[id].left, l);
      ShapeFrame(pool, pool', pool[id].right, r);
  }

  lemma {:induction false} CtxShapeFrame(pool: Pool, pool': Pool, c: Ctx, hole: Ptr, root: Ptr)
    requires CtxShape(pool, c, hole, root) && |pool| <= |pool'|
    requires forall i :: i in CtxIds(c) && i < |pool| ==> SameLinks(pool[i], pool'[i])
    ensures CtxShape(pool', c, hole, root)
  {
    match c
    case Top =>
    case Frame(up, dir, id, sib) =>
      assert SameLinks(pool[id], pool'[id]);
      ShapeFrame(pool, pool', pool[id].Leaf(!dir), sib);
      CtxShapeFrame(pool, pool', up, At(id), root);
  }

  lemma {:induction false} InorderIds(t: Tree)
    ensures forall i :: i in Inorder(t) <==> i in Ids(t)
  {
    match t
    case Nil =>
    case T(id, l, r) =>
      InorderIds(l);
      InorderIds(r);
  }

  /** The stacks |nodes| and |dirs| of length |k| record the frames of |c|. */
  ghost predicate Stacked(c: Ctx, nodes: seq<nat>, dirs: seq<bool>, k: nat) {
    match c
    case Top => k == 0
    case Frame(up, dir, id, sib) =>
      0 < k <= |nodes| && k <= |dirs| && nodes[k - 1] == id && dirs[k - 1] == dir && Stacked(up, nodes, dirs, k - 1)
  }

  lemma {:induction false} StackedFrame(
      c: Ctx, nodes: seq<nat>, dirs: seq<bool>, nodes': seq<nat>, dirs': seq<bool>, k: nat)
    requires Stacked(c, nodes, dirs, k)
    requires k <= |nodes'| && k <= |dirs'|
    requires forall i :: 0 <= i < k && i < |nodes| ==> nodes'[i] == nodes[i]
    requires forall i :: 0 <= i < k && i < |dirs| ==> dirs'[i] == dirs[i]
    ensures Stacked(c, nodes', dirs', k)
  {
    match c
    case Top =>
    case Frame(up, dir, id, sib) => StackedFrame(up, nodes, dirs, nodes', dirs', k - 1);
  }

  lemma {:induction false} StackedDepth(c: Ctx, nodes: seq<nat>, dirs: seq<bool>, k: nat)
    requires Stacked(c, nodes, dirs, k)
    ensures k == Depth(c)
  {
    match c
    case Top =>
    case Frame(up, dir, id, sib) => StackedDepth(up, nodes, dirs, k - 1);
  }
}
