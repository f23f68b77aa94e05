/** Nodes of the red-black tree, and the ghost values that describe a heap of them. */
module RbHeap {

  datatype Color = Red | Black

  /** One tree node.  The key and the data of a node are written once, when it is made. */
  class Node {
    const key: int
    const data: int
    var left: Node?
    var right: Node?
    var parent: Node?
    var color: Color

    constructor (key: int, data: int)
      ensures this.key == key && this.data == data
    {
      this.key, this.data := key, data;
      left, right, parent, color := null, null, null, Red;
    }
  }

  /** What the mutable fields of one node hold. */
  datatype Fields = Fields(left: Node?, right: Node?, parent: Node?, color: Color)

  /** A picture of the heap: the fields of a set of nodes. */
  type Heap = map<Node, Fields>

  ghost function Snap(S: set<Node>): (h: Heap)
    reads S
  {
    map x | x in S :: Fields(x.left, x.right, x.parent, x.color)
  }

  /** The shape of a (sub)tree: which node stands where, and how it is coloured. */
  datatype Tree = Leaf | T(l: Tree, n: Node, c: Color, r: Tree)

  /** A tree with a hole, innermost frame first: in `L` the hole is the left child of `n`, in `R` the right one. */
  datatype Ctx =
    | Top
    | L(up: Ctx, n: Node, c: Color, r: Tree)
    | R(up: Ctx, l: Tree, n: Node, c: Color)

  ghost function Ref(t: Tree): Node? {
    if t.Leaf? then null else t.n
  }

  /** The node whose child fills the hole. */
  ghost function CRef(ctx: Ctx): Node? {
    if ctx.Top? then null else ctx.n
  }

  ghost function Nodes(t: Tree): set<Node> {
    match t
    case Leaf => {}
    case T(l, n, _, r) => Nodes(l) + {n} + Nodes(r)
  }

  ghost function CNodes(ctx: Ctx): set<Node> {
    match ctx
    case Top => {}
    case L(up, n, _, r) => CNodes(up) + {n} + Nodes(r)
    case R(up, l, n, _) => CNodes(up) + {n} + Nodes(l)
  }

  /** The heap `h` holds the tree `t`, hanging below `p`. */
  ghost predicate TreeIn(h: Heap, t: Tree, p: Node?)
  {
    match t
    case Leaf => true
    case T(l, n, c, r) =>
      && n in h && h[n] == Fields(Ref(l), Ref(r), p, c)
      && n !in Nodes(l) && n !in Nodes(r) && Nodes(l) !! Nodes(r)
      && TreeIn(h, l, n) && TreeIn(h, r, n)
  }

  /** The heap `h` holds the context `ctx`, with `hole` in its hole and `root` on top. */
  ghost predicate CtxIn(h: Heap, ctx: Ctx, hole: Node?, root: Node?)
  {
    match ctx
    case Top => root == hole
    case L(up, n, c, r) =>
      && n in h && h[n] == Fields(hole, Ref(r), CRef(up), c)
      && n !in CNodes(up) && n !in Nodes(r) && CNodes(up) !! Nodes(r)
      && TreeIn(h, r, n) && CtxIn(h, up, n, root)
    case R(up, l, n, c) =>
      && n in h && h[n] == Fields(Ref(l), hole, CRef(up), c)
      && n !in CNodes(up) && n !in Nodes(l) && CNodes(up) !! Nodes(l)
      && TreeIn(h, l, n) && CtxIn(h, up, n, root)
  }

  /** The heap holds, under `root`, the tree `t` in the context `ctx`. */
  ghost predicate At(h: Heap, ctx: Ctx, t: Tree, root: Node?)
  {
    && TreeIn(h, t, CRef(ctx))
    && CtxIn(h, ctx, Ref(t), root)
    && Nodes(t) !! CNodes(ctx)
  }

  /** What `h` says of the nodes in `S`, `h'` says too. */
  ghost predicate Agree(h: Heap, h': Heap, S: set<Node>) {
    forall x :: x in S && x in h ==> x in h' && h'[x] == h[x]
  }

  lemma {:induction false} TreeSame(h: Heap, h': Heap, t: Tree, p: Node?)
    requires TreeIn(h, t, p) && Agree(h, h', Nodes(t))
    ensures TreeIn(h', t, p)
  {
    if t.T? {
      TreeSame(h, h', t.l, t.n);
      TreeSame(h, h', t.r, t.n);
    }
  }

  lemma {:induction false} CtxSame(h: Heap, h': Heap, ctx: Ctx, hole: Node?, root: Node?)
    requires CtxIn(h, ctx, hole, root) && Agree(h, h', CNodes(ctx))
    ensures CtxIn(h', ctx, hole, root)
  {
    match ctx
    case Top =>
    case L(up, n, _, r) =>
      TreeSame(h, h', r, n);
      CtxSame(h, h', up, n, root);
    case R(up, l, n, _) =>
      TreeSame(h, h', l, n);
      CtxSame(h, h', up, n, root);
  }


  /** A tree hung below another parent. */
  lemma Reparented(h: Heap, h': Heap, t: Tree, p: Node?, p': Node?)
    requires TreeIn(h, t, p)
    requires t.T? ==> t.n in h' && h'[t.n] == h[t.n].(parent := p') && Agree(h, h', Nodes(t.l) + Nodes(t.r))
    ensures TreeIn(h', t, p')
  {
  }

  /** Another node put in the hole. */
  lemma Rehole(h: Heap, h': Heap, ctx: Ctx, hole: Node?, hole': Node?, root: Node?)
    requires CtxIn(h, ctx, hole, root)
    requires !ctx.Top? ==> ctx.n in h' && h'[ctx.n] == if ctx.L? then h[ctx.n].(left := hole')
              else h[ctx.n].(right := hole')
    requires Agree(h, h', CNodes(ctx) - if ctx.Top? then {} else {ctx.n})
    ensures CtxIn(h', ctx, hole', if ctx.Top? then hole' else root)
  {
    match ctx
    case Top =>
    case L(up, n, _, r) =>
      TreeSame(h, h', r, n);
      CtxSame(h, h', up, n, root);
    case R(up, l, n, _) =>
      TreeSame(h, h', l, n);
      CtxSame(h, h', up, n, root);
  }

  // ---------- rotations ----------

  ghost function RotL(t: Tree): Tree
    requires t.T? && t.r.T?
  {
    T(T(t.l, t.n, t.c, t.r.l), t.r.n, t.r.c, t.r.r)
  }

  ghost function RotR(t: Tree): Tree
    requires t.T? && t.l.T?
  {
    T(t.l.l, t.l.n, t.l.c, T(t.l.r, t.n, t.c, t.r))
  }

  /** The nodes a left rotation at `node` writes to are all in the heap and all different. */
  ghost predicate CanTurnLeft(h: Heap, node: Node) {
    && node in h && h[node].right != null && h[node].right in h && h[node].right != node
    && var right := h[node].right; var b, p := h[right].left, h[node].parent;
    && (b != null ==> b in h && b != node && b != right && b != p)
    && (p != null ==> p in h && p != node && p != right)
  }

  /** What a left rotation at `node` writes. */
  ghost predicate LeftTurn(h: Heap, h': Heap, node: Node)
    requires CanTurnLeft(h, node)
  {
    var right, p := h[node].right, h[node].parent;
    var b := h[right].left;
    && h'.Keys == h.Keys
    && h'[node] == Fields(h[node].left, b, right, h[node].color)
    && h'[right] == Fields(node, h[right].right, p, h[right].color)
    && (b != null ==> h'[b] == h[b].(parent := node))
    && (p != null ==> h'[p] == if h[p].right == node then h[p].(right := right) else h[p].(left := right))
    && forall x :: x in h && x != node && x != right && x != b && x != p ==> h'[x] == h[x]
  }

  lemma TurnableLeft(h: Heap, ctx: Ctx, t: Tree, root: Node?)
    requires At(h, ctx, t, root) && t.T? && t.r.T?
    ensures CanTurnLeft(h, t.n) && h[t.n].right == t.r.n && h[t.n].parent == CRef(ctx)
  {
    assert TreeIn(h, t.r, t.n);
    assert TreeIn(h, t.r.l, t.r.n);
  }

  lemma TurnedLeftBelow(h: Heap, h': Heap, t: Tree, p: Node?)
    requires TreeIn(h, t, p) && (p != null ==> p !in Nodes(t)) && t.T? && t.r.T?
    requires CanTurnLeft(h, t.n) && LeftTurn(h, h', t.n)
    ensures TreeIn(h', RotL(t), p) && Nodes(RotL(t)) == Nodes(t)
  {
    var a, b, y, node, right := t.l, t.r.l, t.r.r, t.n, t.r.n;
    assert TreeIn(h, a, node) && TreeIn(h, t.r, node);
    assert TreeIn(h, b, right) && TreeIn(h, y, right);
    assert Nodes(t.r) == Nodes(b) + {right} + Nodes(y);
    TreeSame(h, h', a, node);
    TreeSame(h, h', y, right);
    Reparented(h, h', b, right, node);
  }

  lemma TurnedLeft(h: Heap, h': Heap, ctx: Ctx, t: Tree, root: Node?)
    requires At(h, ctx, t, root) && t.T? && t.r.T?
    requires CanTurnLeft(h, t.n) && LeftTurn(h, h', t.n)
    ensures At(h', ctx, RotL(t), if ctx.Top? then t.r.n else root)
  {
    TurnedLeftBelow(h, h', t, CRef(ctx));
    assert t.r.n in Nodes(t) && (t.r.l.T? ==> t.r.l.n in Nodes(t));
    Rehole(h, h', ctx, t.n, t.r.n, root);
  }

  // The mirror image.

  ghost predicate CanTurnRight(h: Heap, node: Node) {
    && node in h && h[node].left != null && h[node].left in h && h[node].left != node
    && var left := h[node].left; var b, p := h[left].right, h[node].parent;
    && (b != null ==> b in h && b != node && b != left && b != p)
    && (p != null ==> p in h && p != node && p != left)
  }

  ghost predicate RightTurn(h: Heap, h': Heap, node: Node)
    requires CanTurnRight(h, node)
  {
    var left, p := h[node].left, h[node].parent;
    var b := h[left].right;
    && h'.Keys == h.Keys
    && h'[node] == Fields(b, h[node].right, left, h[node].color)
    && h'[left] == Fields(h[left].left, node, p, h[left].color)
    && (b != null ==> h'[b] == h[b].(parent := node))
    && (p != null ==> h'[p] == if h[p].right == node then h[p].(right := left) else h[p].(left := left))
    && forall x :: x in h && x != node && x != left && x != b && x != p ==> h'[x] == h[x]
  }

  lemma TurnableRight(h: Heap, ctx: Ctx, t: Tree, root: Node?)
    requires At(h, ctx, t, root) && t.T? && t.l.T?
    ensures CanTurnRight(h, t.n) && h[t.n].left == t.l.n && h[t.n].parent == CRef(ctx)
  {
    assert TreeIn(h, t.l, t.n);
    assert TreeIn(h, t.l.r, t.l.n);
  }

  lemma TurnedRightBelow(h: Heap, h': Heap, t: Tree, p: Node?)
    requires TreeIn(h, t, p) && (p != null ==> p !in Nodes(t)) && t.T? && t.l.T?
    requires CanTurnRight(h, t.n) && RightTurn(h, h', t.n)
    ensures TreeIn(h', RotR(t), p) && Nodes(RotR(t)) == Nodes(t)
  {
    var a, b, y, node, left := t.l.l, t.l.r, t.r, t.n, t.l.n;
    assert TreeIn(h, y, node) && TreeIn(h, t.l, node);
    assert TreeIn(h, b, left) && TreeIn(h, a, left);
    assert Nodes(t.l) == Nodes(a) + {left} + Nodes(b);
    TreeSame(h, h', a, left);
    TreeSame(h, h', y, node);
    Reparented(h, h', b, left, node);
  }

  lemma TurnedRight(h: Heap, h': Heap, ctx: Ctx, t: Tree, root: Node?)
    requires At(h, ctx, t, root) && t.T? && t.l.T?
    requires CanTurnRight(h, t.n) && RightTurn(h, h', t.n)
    ensures At(h', ctx, RotR(t), if ctx.Top? then t.l.n else root)
  {
    TurnedRightBelow(h, h', t, CRef(ctx));
    assert t.l.n in Nodes(t) && (t.l.r.T? ==> t.l.r.n in Nodes(t));
    Rehole(h, h', ctx, t.n, t.l.n, root);
  }

  // ---------- moving the focus ----------

  /** The tree in the hole is the left child of the innermost frame, or its right child. */
  ghost function Up(ctx: Ctx, t: Tree): Tree
    requires !ctx.Top?
  {
    if ctx.L? then T(t, ctx.n, ctx.c, ctx.r) else T(ctx.l, ctx.n, ctx.c, t)
  }

  lemma MoveUp(h: Heap, ctx: Ctx, t: Tree, root: Node?)
    requires At(h, ctx, t, root) && !ctx.Top?
    ensures At(h, ctx.up, Up(ctx, t), root)
  {
  }

  lemma MoveDown(h: Heap, ctx: Ctx, t: Tree, root: Node?)
    requires At(h, ctx, t, root) && t.T?
    ensures At(h, L(ctx, t.n, t.c, t.r), t.l, root)
    ensures At(h, R(ctx, t.l, t.n, t.c), t.r, root)
  {
  }

  lemma Painted(h: Heap, h': Heap, ctx: Ctx, t: Tree, root: Node?, c: Color)
    requires At(h, ctx, t, root) && t.T?
    requires t.n in h' && h'[t.n] == h[t.n].(color := c)
    requires forall x :: x in h && x != t.n ==> x in h' && h'[x] == h[x]
    ensures At(h', ctx, t.(c := c), root)
  {
    TreeSame(h, h', t.l, t.n);
    TreeSame(h, h', t.r, t.n);
    CtxSame(h, h', ctx, t.n, root);
  }

  lemma TreeKeys(h: Heap, t: Tree, p: Node?)
    requires TreeIn(h, t, p)
    ensures Nodes(t) <= h.Keys
  {
  }

  lemma {:induction false} CtxKeys(h: Heap, ctx: Ctx, hole: Node?, root: Node?)
    requires CtxIn(h, ctx, hole, root)
    ensures CNodes(ctx) <= h.Keys
  {
    match ctx
    case Top =>
    case L(up, n, _, r) =>
      TreeKeys(h, r, n);
      CtxKeys(h, up, n, root);
    case R(up, l, n, _) =>
      TreeKeys(h, l, n);
      CtxKeys(h, up, n, root);
  }

  // ---------- nodes leaving and changing places ----------

  /** A node with at most one child `ch` is unlinked. */
  lemma Unlinked(h: Heap, h': Heap, ctx: Ctx, t: Tree, ch: Tree, root: Node?)
    requires At(h, ctx, t, root) && t.T? && ((t.l.Leaf? && ch == t.r) || (t.r.Leaf? && ch == t.l))
    requires h'.Keys == h.Keys
    requires ch.T? ==> ch.n in h && h'[ch.n] == h[ch.n].(parent := CRef(ctx))
    requires !ctx.Top? ==> ctx.n in h && h'[ctx.n] == if ctx.L? then h[ctx.n].(left := Ref(ch))
              else h[ctx.n].(right := Ref(ch))
    requires forall x :: x in h && x != Ref(ch) && x != CRef(ctx) ==> h'[x] == h[x]
    ensures At(h', ctx, ch, if ctx.Top? then Ref(ch) else root)
    ensures t.n !in Nodes(ch) && t.n !in CNodes(ctx)
  {
    assert TreeIn(h, ch, t.n);
    assert ch.T? ==> ch.n in Nodes(ch) && ch.n !in Nodes(ch.l) && ch.n !in Nodes(ch.r);
    Reparented(h, h', ch, t.n, CRef(ctx));
    Rehole(h, h', ctx, t.n, Ref(ch), root);
  }

  /** The node `s`, which is not in the tree, takes the place of the root of `t`. */
  lemma Substituted(h: Heap, h': Heap, ctx: Ctx, t: Tree, s: Node, root: Node?)
    requires At(h, ctx, t, root) && t.T? && s in h && s !in Nodes(t) && s !in CNodes(ctx)
    requires h'.Keys == h.Keys
    requires h'[s] == Fields(Ref(t.l), Ref(t.r), CRef(ctx), t.c)
    requires t.l.T? ==> t.l.n in h && h'[t.l.n] == h[t.l.n].(parent := s)
    requires t.r.T? ==> t.r.n in h && h'[t.r.n] == h[t.r.n].(parent := s)
    requires !ctx.Top? ==> ctx.n in h && h'[ctx.n] == if ctx.L? then h[ctx.n].(left := s) else h[ctx.n].(right := s)
    requires forall x :: x in h && x != s && x != Ref(t.l) && x != Ref(t.r) && x != CRef(ctx) ==> h'[x] == h[x]
    ensures At(h', ctx, T(t.l, s, t.c, t.r), if ctx.Top? then s else root)
  {
    assert TreeIn(h, t.l, t.n) && TreeIn(h, t.r, t.n);
    SubtreeMoved(h, h', t.l, t.n, s);
    SubtreeMoved(h, h', t.r, t.n, s);
    assert t.l.T? ==> t.l.n in Nodes(t);
    assert t.r.T? ==> t.r.n in Nodes(t);
    Rehole(h, h', ctx, t.n, s, root);
  }

  lemma SubtreeMoved(h: Heap, h': Heap, t: Tree, p: Node, s: Node)
    requires TreeIn(h, t, p)
    requires t.T? ==> t.n in h && t.n in h' && h'[t.n] == h[t.n].(parent := s)
    requires forall x :: x in Nodes(t) && x != Ref(t) && x in h ==> x in h' && h'[x] == h[x]
    ensures TreeIn(h', t, s)
  {
  }
}
