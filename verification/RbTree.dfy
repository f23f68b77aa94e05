/** The two rotations on the heap, and the loop that rebalances after an insertion. */
module RbTree {
  import opened RbHeap
  import opened RbShape

  method RotateLeft(node: Node, root: Node?, ghost S: set<Node>, ghost ctx: Ctx, ghost t: Tree) returns (root': Node?)
    requires At(Snap(S), ctx, t, root) && t.T? && t.r.T? && t.n == node
    modifies S
    ensures At(Snap(S), ctx, RotL(t), root')
  {
    ghost var h := Snap(S);
    TurnableLeft(h, ctx, t, root);
    root' := root;
    var right := node.right;
    node.right := right.left;
    if node.right != null {
      right.left.parent := node;
    }
    right.left := node;
    right.parent := node.parent;
    if right.parent != null {
      if node == node.parent.right {
        node.parent.right := right;
      } else {
        node.parent.left := right;
      }
    } else {
      root' := right;
    }
    node.parent := right;
    TurnedLeft(h, Snap(S), ctx, t, root);
  }

  method RotateRight(node: Node, root: Node?, ghost S: set<Node>, ghost ctx: Ctx, ghost t: Tree) returns (root': Node?)
    requires At(Snap(S), ctx, t, root) && t.T? && t.l.T? && t.n == node
    modifies S
    ensures At(Snap(S), ctx, RotR(t), root')
  {
    ghost var h := Snap(S);
    TurnableRight(h, ctx, t, root);
    root' := root;
    var left := node.left;
    node.left := left.right;
    if node.left != null {
      left.right.parent := node;
    }
    left.right := node;
    left.parent := node.parent;
    if left.parent != null {
      if node == node.parent.right {
        node.parent.right := left;
      } else {
        node.parent.left := left;
      }
    } else {
      root' := left;
    }
    node.parent := left;
    TurnedRight(h, Snap(S), ctx, t, root);
  }

  method SetColor(x: Node, c: Color, root: Node?, ghost S: set<Node>, ghost ctx: Ctx, ghost t: Tree)
    requires At(Snap(S), ctx, t, root) && t.T? && t.n == x
    modifies S
    ensures At(Snap(S), ctx, t.(c := c), root)
  {
    ghost var h := Snap(S);
    assert x in h;
    x.color := c;
    Painted(h, Snap(S), ctx, t, root, c);
  }

  // ---------- insertion ----------

  method Flip(uncle: Node, parent: Node, gparent: Node, root: Node?, ghost S: set<Node>, ghost ctx: Ctx, ghost t: Tree)
    requires At(Snap(S), ctx, t, root) && t.T? && t.l.T? && t.r.T?
    requires t.n == gparent && ((t.l.n == parent && t.r.n == uncle) || (t.l.n == uncle && t.r.n == parent))
    modifies S
    ensures At(Snap(S), ctx, Flipped(t), root)
  {
    ghost var h := Snap(S);
    assert At(h, L(ctx, t.n, t.c, t.r), t.l, root) && At(h, R(ctx, t.l, t.n, t.c), t.r, root) by {
      MoveDown(h, ctx, t, root);
    }
    assert uncle in S && parent in S && gparent in S;
    uncle.color := Black;
    parent.color := Black;
    gparent.color := Red;
    TreeFlipped(h, Snap(S), t, CRef(ctx));
    CtxSame(h, Snap(S), ctx, t.n, root);
  }

  method Push(child: Node, top: Node, root: Node?, ghost S: set<Node>, ghost ctx: Ctx, ghost t: Tree, ghost left: bool)
    requires At(Snap(S), ctx, t, root) && t.T? && (if left then t.l.T? && t.l.n == child else t.r.T? && t.r.n == child)
    requires t.n == top
    modifies S
    ensures At(Snap(S), ctx, Pushed(t, left), root)
  {
    ghost var h := Snap(S);
    assert At(h, L(ctx, t.n, t.c, t.r), t.l, root) && At(h, R(ctx, t.l, t.n, t.c), t.r, root) by {
      MoveDown(h, ctx, t, root);
    }
    assert child in S && top in S;
    child.color := Black;
    top.color := Red;
    TreePushed(h, Snap(S), t, CRef(ctx), left);
    CtxSame(h, Snap(S), ctx, t.n, root);
  }

  lemma TreeFlipped(h: Heap, h': Heap, t: Tree, p: Node?)
    requires TreeIn(h, t, p) && t.T? && t.l.T? && t.r.T?
    requires t.n in h && t.l.n in h && t.r.n in h && h'.Keys == h.Keys
    requires h'[t.n] == h[t.n].(color := Red)
    requires h'[t.l.n] == h[t.l.n].(color := Black) && h'[t.r.n] == h[t.r.n].(color := Black)
    requires forall x :: x in h && x != t.n && x != t.l.n && x != t.r.n ==> h'[x] == h[x]
    ensures TreeIn(h', Flipped(t), p) && Nodes(Flipped(t)) == Nodes(t)
  {
    var A, B := t.l, t.r;
    assert TreeIn(h, A, t.n) && TreeIn(h, B, t.n);
    TreeSame(h, h', A.l, A.n);
    TreeSame(h, h', A.r, A.n);
    TreeSame(h, h', B.l, B.n);
    TreeSame(h, h', B.r, B.n);
  }

  lemma TreePushed(h: Heap, h': Heap, t: Tree, p: Node?, left: bool)
    requires TreeIn(h, t, p) && t.T? && (if left then t.l.T? else t.r.T?)
    requires h'.Keys == h.Keys
    requires var x := if left then t.l.n else t.r.n;
      && t.n in h && x in h && h'[t.n] == h[t.n].(color := Red) && h'[x] == h[x].(color := Black)
      && forall y :: y in h && y != t.n && y != x ==> h'[y] == h[y]
    ensures TreeIn(h', Pushed(t, left), p) && Nodes(Pushed(t, left)) == Nodes(t)
  {
    var A, B := if left then t.l else t.r, if left then t.r else t.l;
    assert TreeIn(h, A, t.n) && TreeIn(h, B, t.n);
    TreeSame(h, h', A.l, A.n);
    TreeSame(h, h', A.r, A.n);
    TreeSame(h, h', B, t.n);
  }

  /** What a node on the spine sees: its parent, its sibling and its sibling's colour. */
  lemma Look(h: Heap, ctx: Ctx, t: Tree, root: Node?)
    requires At(h, ctx, t, root) && !ctx.Top?
    ensures ctx.n in h && h[ctx.n].color == ctx.c && h[ctx.n].parent == CRef(ctx.up)
    ensures if ctx.L? then h[ctx.n].left == Ref(t) && h[ctx.n].right == Ref(ctx.r)
            else h[ctx.n].right == Ref(t) && h[ctx.n].left == Ref(ctx.l)
    ensures t.T? ==> t.n in h && h[t.n].parent == ctx.n && Ref(Sibling(ctx)) != t.n
    ensures Sibling(ctx).T? ==> Sibling(ctx).n in h && h[Sibling(ctx).n].color == Sibling(ctx).c
  {
  }

  method InsertTurnLeft(node: Node, parent: Node, gparent: Node, root: Node?, ghost S: set<Node>, ghost ctx: Ctx,
      ghost t: Tree)
    returns (node': Node, root': Node?, ghost ctx': Ctx, ghost t': Tree)
    requires At(Snap(S), ctx, t, root) && t.T? && t.n == node && Inserting(ctx, t)
    requires RedAbove(ctx) && ctx.n == parent && ctx.up.L? && ctx.up.n == gparent && !IsRed(ctx.up.r)
    modifies S
    ensures At(Snap(S), ctx', t', root') && t'.T? && t'.n == node' && Inserting(ctx', t')
    ensures Whole(ctx', t') == Whole(ctx, t) && !RedAbove(ctx')
  {
    node', root' := node, root;
    ghost var P, up := Up(ctx, t), ctx.up;
    Look(Snap(S), ctx, t, root);
    MoveUp(Snap(S), ctx, t, root);
    assert Balanced(P.l) && Balanced(P.r);
    var parent' := parent;
    ghost var A, B := t, P.r;
    if parent.right == node {
      root' := RotateLeft(parent, root', S, up, P);
      node', parent' := parent, node;
      A, B := T(P.l, parent, Red, t.l), t.r;
      TurnOrder(P);
    }
    assert At(Snap(S), up, T(A, parent', Red, B), root');
    MoveUp(Snap(S), up, T(A, parent', Red, B), root');
    Push(parent', gparent, root', S, up.up, T(T(A, parent', Red, B), gparent, Black, up.r), true);
    root' := RotateRight(gparent, root', S, up.up, T(T(A, parent', Black, B), gparent, Red, up.r));
    MoveDown(Snap(S), up.up, T(A, parent', Black, T(B, gparent, Red, up.r)), root');
    ctx', t' := L(up.up, parent', Black, T(B, gparent, Red, up.r)), A;
    InsertTurnedLeft(ctx, t, A, parent', B);
  }

  method InsertTurnRight(node: Node, parent: Node, gparent: Node, root: Node?, ghost S: set<Node>, ghost ctx: Ctx,
      ghost t: Tree)
    returns (node': Node, root': Node?, ghost ctx': Ctx, ghost t': Tree)
    requires At(Snap(S), ctx, t, root) && t.T? && t.n == node && Inserting(ctx, t)
    requires RedAbove(ctx) && ctx.n == parent && ctx.up.R? && ctx.up.n == gparent && !IsRed(ctx.up.l)
    modifies S
    ensures At(Snap(S), ctx', t', root') && t'.T? && t'.n == node' && Inserting(ctx', t')
    ensures Whole(ctx', t') == Whole(ctx, t) && !RedAbove(ctx')
  {
    node', root' := node, root;
    ghost var P, up := Up(ctx, t), ctx.up;
    Look(Snap(S), ctx, t, root);
    MoveUp(Snap(S), ctx, t, root);
    assert Balanced(P.l) && Balanced(P.r);
    var parent' := parent;
    ghost var A, B := t, P.l;
    if parent.left == node {
      root' := RotateRight(parent, root', S, up, P);
      node', parent' := parent, node;
      A, B := T(t.r, parent, Red, P.r), t.l;
      TurnOrder(P);
    }
    assert At(Snap(S), up, T(B, parent', Red, A), root');
    MoveUp(Snap(S), up, T(B, parent', Red, A), root');
    Push(parent', gparent, root', S, up.up, T(up.l, gparent, Black, T(B, parent', Red, A)), false);
    root' := RotateLeft(gparent, root', S, up.up, T(up.l, gparent, Red, T(B, parent', Black, A)));
    MoveDown(Snap(S), up.up, T(T(up.l, gparent, Red, B), parent', Black, A), root');
    ctx', t' := R(up.up, T(up.l, gparent, Red, B), parent', Black), A;
    InsertTurnedRight(ctx, t, A, parent', B);
  }

  /** One round of the insertion loop, the parent being the left child of its own parent. */
  method InsertRoundLeft(node: Node, parent: Node, gparent: Node, root: Node?, ghost S: set<Node>, ghost ctx: Ctx,
      ghost t: Tree)
    returns (node': Node, root': Node?, ghost ctx': Ctx, ghost t': Tree)
    requires At(Snap(S), ctx, t, root) && t.T? && t.n == node && Inserting(ctx, t)
    requires RedAbove(ctx) && ctx.n == parent && ctx.up.L? && ctx.up.n == gparent
    modifies S
    ensures At(Snap(S), ctx', t', root') && t'.T? && t'.n == node' && Inserting(ctx', t')
    ensures Whole(ctx', t') == Whole(ctx, t) && (ctx' == ctx.up.up || !RedAbove(ctx'))
  {
    root' := root;
    ghost var P := Up(ctx, t);
    assert P.n == parent;
    assert At(Snap(S), ctx.up, P, root) by { MoveUp(Snap(S), ctx, t, root); }
    Look(Snap(S), ctx.up, P, root);
    var uncle := gparent.right;
    if uncle != null && uncle.color == Red {
      MoveUp(Snap(S), ctx.up, P, root);
      InsertFlipped(ctx, t);
      Flip(uncle, parent, gparent, root, S, ctx.up.up, Up(ctx.up, P));
      node', ctx', t' := gparent, ctx.up.up, Flipped(Up(ctx.up, P));
    } else {
      node', root', ctx', t' := InsertTurnLeft(node, parent, gparent, root, S, ctx, t);
    }
  }

  /** One round of the insertion loop, the parent being the right child of its own parent. */
  method InsertRoundRight(node: Node, parent: Node, gparent: Node, root: Node?, ghost S: set<Node>, ghost ctx: Ctx,
      ghost t: Tree)
    returns (node': Node, root': Node?, ghost ctx': Ctx, ghost t': Tree)
    requires At(Snap(S), ctx, t, root) && t.T? && t.n == node && Inserting(ctx, t)
    requires RedAbove(ctx) && ctx.n == parent && ctx.up.R? && ctx.up.n == gparent
    modifies S
    ensures At(Snap(S), ctx', t', root') && t'.T? && t'.n == node' && Inserting(ctx', t')
    ensures Whole(ctx', t') == Whole(ctx, t) && (ctx' == ctx.up.up || !RedAbove(ctx'))
  {
    root' := root;
    ghost var P := Up(ctx, t);
    assert P.n == parent;
    assert At(Snap(S), ctx.up, P, root) by { MoveUp(Snap(S), ctx, t, root); }
    Look(Snap(S), ctx.up, P, root);
    var uncle := gparent.left;
    if uncle != null && uncle.color == Red {
      MoveUp(Snap(S), ctx.up, P, root);
      InsertFlipped(ctx, t);
      Flip(uncle, parent, gparent, root, S, ctx.up.up, Up(ctx.up, P));
      node', ctx', t' := gparent, ctx.up.up, Flipped(Up(ctx.up, P));
    } else {
      node', root', ctx', t' := InsertTurnRight(node, parent, gparent, root, S, ctx, t);
    }
  }

  method InsertRebalance(node: Node, root: Node?, ghost S: set<Node>, ghost ctx: Ctx, ghost t: Tree)
    returns (root': Node, ghost t': Tree)
    requires At(Snap(S), ctx, t, root) && t.T? && t.n == node && Inserting(ctx, t)
    modifies S
    ensures At(Snap(S), Top, t', root') && Balanced(t') && !IsRed(t')
    ensures InOrder(t') == Whole(ctx, t)
  {
    var x, r := node, root;
    ghost var c, u := ctx, t;
    var parent := x.parent;
    assert parent == CRef(c);
    while parent != null && parent.color == Red
      invariant At(Snap(S), c, u, r) && u.T? && u.n == x && Inserting(c, u)
      invariant Whole(c, u) == Whole(ctx, t)
      invariant parent == CRef(c)
      decreases RedAbove(c), c
    {
      Look(Snap(S), c, u, r);
      var gparent := parent.parent;
      ghost var c0 := c;
      assert At(Snap(S), c.up, Up(c, u), r) by { MoveUp(Snap(S), c, u, r); }
      Look(Snap(S), c.up, Up(c, u), r);
      if parent == gparent.left {
        x, r, c, u := InsertRoundLeft(x, parent, gparent, r, S, c, u);
      } else {
        x, r, c, u := InsertRoundRight(x, parent, gparent, r, S, c, u);
      }
      parent := x.parent;
    }
    assert !RedAbove(c) by {
      if !c.Top? { Look(Snap(S), c, u, r); }
    }
    PlugInserting(c, u);
    PlugAt(Snap(S), c, u, r);
    root' := r;
    SetColor(root', Black, r, S, Top, Plug(c, u));
    t' := Plug(c, u).(c := Black);
  }
}
