/** The loop that rebalances after an erasure, on a tree that lacks one black at one place. */
module RbErase {
  import opened RbHeap
  import opened RbShape
  import opened RbTree

  /** What a node sees of its children. */
  lemma LookDown(h: Heap, t: Tree, p: Node?)
    requires TreeIn(h, t, p) && t.T?
    ensures t.n in h && h[t.n].left == Ref(t.l) && h[t.n].right == Ref(t.r) && h[t.n].color == t.c && h[t.n].parent == p
    ensures t.l.T? ==> t.l.n in h && h[t.l.n].color == t.l.c && t.l.n != t.n
    ensures t.r.T? ==> t.r.n in h && h[t.r.n].color == t.r.c && t.r.n != t.n
    ensures t.l.T? && t.r.T? ==> t.l.n != t.r.n
  {
  }

  /** Whether the sibling's children are both black. */
  method BlackChildren(other: Node, ghost S: set<Node>, ghost s: Tree, ghost p: Node) returns (both: bool)
    requires TreeIn(Snap(S), s, p) && s.T? && s.n == other
    ensures both <==> !IsRed(s.l) && !IsRed(s.r)
  {
    LookDown(Snap(S), s, p);
    both := (other.left == null || other.left.color == Black) && (other.right == null || other.right.color == Black);
  }

  /** A valid tree is one that lacks nothing at its root. */
  lemma Finished(h: Heap, t: Tree, root: Node?)
    requires At(h, Top, t, root) && Balanced(t) && !IsRed(t)
    ensures Ref(t) == root && Erasing(Top, t) && Whole(Top, t) == InOrder(t)
  {
  }

  // ---------- the short side is the left one ----------

  method EraseRedSiblingLeft(parent: Node, other: Node, root: Node?, ghost S: set<Node>, ghost ctx: Ctx, ghost t: Tree)
    returns (root': Node?, ghost ctx': Ctx)
    requires At(Snap(S), ctx, t, root) && Erasing(ctx, t)
    requires ctx.L? && ctx.n == parent && IsRed(ctx.r) && ctx.r.n == other
    modifies S
    ensures At(Snap(S), ctx', t, root') && Erasing(ctx', t) && Whole(ctx', t) == Whole(ctx, t)
    ensures ctx'.L? && ctx'.n == parent && ctx'.c.Red? && !IsRed(ctx'.r)
  {
    RedSiblingOnRight(ctx, t);
    MoveUp(Snap(S), ctx, t, root);
    ghost var P := T(t, ctx.n, ctx.c, ctx.r);
    Push(other, parent, root, S, ctx.up, P, false);
    root' := RotateLeft(parent, root, S, ctx.up, Pushed(P, false));
    assert At(Snap(S), ctx.up, T(T(t, ctx.n, Red, ctx.r.l), ctx.r.n, Black, ctx.r.r), root');
    MoveDown(Snap(S), ctx.up, T(T(t, ctx.n, Red, ctx.r.l), ctx.r.n, Black, ctx.r.r), root');
    MoveDown(Snap(S), L(ctx.up, ctx.r.n, Black, ctx.r.r), T(t, ctx.n, Red, ctx.r.l), root');
    ctx' := L(L(ctx.up, ctx.r.n, Black, ctx.r.r), ctx.n, Red, ctx.r.l);
  }

  method EraseBlackSiblingLeft(parent: Node, other: Node, root: Node?, ghost S: set<Node>, ghost ctx: Ctx,
      ghost t: Tree)
    returns (parent': Node?, ghost t': Tree)
    requires At(Snap(S), ctx, t, root) && Erasing(ctx, t) && !IsRed(t)
    requires ctx.L? && ctx.n == parent && !IsRed(ctx.r) && ctx.r.T? && ctx.r.n == other
    requires !IsRed(ctx.r.l) && !IsRed(ctx.r.r)
    modifies S
    ensures At(Snap(S), ctx.up, t', root) && Erasing(ctx.up, t') && Whole(ctx.up, t') == Whole(ctx, t)
    ensures t'.T? && t'.n == parent && t'.c == ctx.c && parent' == CRef(ctx.up)
  {
    BlackSiblingOnRight(ctx, t);
    ghost var side := R(ctx.up, t, ctx.n, ctx.c);
    assert At(Snap(S), side, ctx.r, root) by {
      MoveUp(Snap(S), ctx, t, root);
      MoveDown(Snap(S), ctx.up, T(t, ctx.n, ctx.c, ctx.r), root);
    }
    SetColor(other, Red, root, S, side, ctx.r);
    MoveUp(Snap(S), side, ctx.r.(c := Red), root);
    t' := T(t, ctx.n, ctx.c, ctx.r.(c := Red));
    parent' := parent.parent;
  }

  method EraseInnerLeft(parent: Node, other: Node, root: Node?, ghost S: set<Node>, ghost ctx: Ctx, ghost t: Tree)
    returns (root': Node?, ghost ctx': Ctx)
    requires At(Snap(S), ctx, t, root) && Erasing(ctx, t)
    requires ctx.L? && ctx.n == parent && ctx.r.T? && ctx.r.n == other
    requires !IsRed(ctx.r) && IsRed(ctx.r.l) && !IsRed(ctx.r.r)
    modifies S
    ensures At(Snap(S), ctx', t, root') && Erasing(ctx', t) && Whole(ctx', t) == Whole(ctx, t)
    ensures ctx'.L? && ctx'.n == parent && !IsRed(ctx'.r) && ctx'.r.T? && IsRed(ctx'.r.r)
  {
    InnerRedOnRight(ctx, t);
    ghost var side := R(ctx.up, t, ctx.n, ctx.c);
    assert At(Snap(S), side, ctx.r, root) by {
      MoveUp(Snap(S), ctx, t, root);
      MoveDown(Snap(S), ctx.up, T(t, ctx.n, ctx.c, ctx.r), root);
    }
    LookDown(Snap(S), ctx.r, parent);
    var oLeft := other.left;
    Push(oLeft, other, root, S, side, ctx.r, true);
    root' := RotateRight(other, root, S, side, Pushed(ctx.r, true));
    ghost var o := RotR(Pushed(ctx.r, true));
    MoveUp(Snap(S), side, o, root');
    MoveDown(Snap(S), ctx.up, Up(side, o), root');
    ctx' := L(ctx.up, ctx.n, ctx.c, o);
  }

  ghost function OuterPaintedLeft(s: Tree, c: Color): Tree
    requires s.T? && s.r.T?
  {
    T(s.l, s.n, c, s.r.(c := Black))
  }

  lemma SiblingPaintedLeft(h: Heap, h': Heap, s: Tree, p: Node, c: Color)
    requires TreeIn(h, s, p) && s.T? && s.r.T? && p !in Nodes(s) && p in h
    requires s.n in h && s.r.n in h && h'.Keys == h.Keys
    requires h'[s.n] == h[s.n].(color := c) && h'[s.r.n] == h[s.r.n].(color := Black)
    requires forall y :: y in h && y != p && y != s.n && y != s.r.n ==> h'[y] == h[y]
    ensures TreeIn(h', OuterPaintedLeft(s, c), p) && Nodes(OuterPaintedLeft(s, c)) == Nodes(s)
  {
    var x := s.r;
    assert TreeIn(h, x, s.n) && TreeIn(h, s.l, s.n);
    assert Nodes(x) == Nodes(x.l) + {x.n} + Nodes(x.r);
    TreeSame(h, h', s.l, s.n);
    TreeSame(h, h', x.l, x.n);
    TreeSame(h, h', x.r, x.n);
    assert TreeIn(h', x.(c := Black), s.n);
  }

  lemma ErasePaintedLeft(h: Heap, h': Heap, ctx: Ctx, t: Tree, root: Node?)
    requires At(h, ctx, t, root) && ctx.L? && ctx.r.T? && ctx.r.r.T?
    requires var p, o, x := ctx.n, ctx.r.n, ctx.r.r.n;
      && p in h && o in h && x in h && h'.Keys == h.Keys
      && h'[p] == h[p].(color := Black) && h'[o] == h[o].(color := ctx.c) && h'[x] == h[x].(color := Black)
      && forall y :: y in h && y != p && y != o && y != x ==> h'[y] == h[y]
    ensures At(h', ctx.up, T(t, ctx.n, Black, OuterPaintedLeft(ctx.r, ctx.c)), root)
  {
    var s := ctx.r;
    assert s.n in Nodes(s) && s.r.n in Nodes(s);
    SiblingPaintedLeft(h, h', s, ctx.n, ctx.c);
    TreeSame(h, h', t, ctx.n);
    CtxSame(h, h', ctx.up, ctx.n, root);
  }

  method EraseOuterLeft(parent: Node, other: Node, root: Node?, ghost S: set<Node>, ghost ctx: Ctx, ghost t: Tree)
    returns (root': Node?)
    requires At(Snap(S), ctx, t, root) && Erasing(ctx, t)
    requires ctx.L? && ctx.n == parent && ctx.r.T? && ctx.r.n == other
    requires !IsRed(ctx.r) && IsRed(ctx.r.r)
    modifies S
    ensures At(Snap(S), ctx.up, EraseTurnedLeft(ctx, t), root')
  {
    ghost var h := Snap(S);
    assert parent in h by { Look(h, ctx, t, root); }
    LookDown(h, ctx.r, parent);
    other.color := parent.color;
    parent.color := Black;
    if other.right != null {
      other.right.color := Black;
    }
    ErasePaintedLeft(h, Snap(S), ctx, t, root);
    root' := RotateLeft(parent, root, S, ctx.up, T(t, ctx.n, Black, OuterPaintedLeft(ctx.r, ctx.c)));
  }

  /** The sibling has a red child: the loop ends with the whole tree in order. */
  method EraseFinishLeft(parent: Node, other: Node, root: Node?, ghost S: set<Node>, ghost ctx: Ctx, ghost t: Tree)
    returns (root': Node?, ghost t': Tree)
    requires At(Snap(S), ctx, t, root) && Erasing(ctx, t) && !IsRed(t)
    requires ctx.L? && ctx.n == parent && !IsRed(ctx.r) && ctx.r.T? && ctx.r.n == other
    requires IsRed(ctx.r.l) || IsRed(ctx.r.r)
    modifies S
    ensures At(Snap(S), Top, t', root') && Balanced(t') && !IsRed(t') && InOrder(t') == Whole(ctx, t)
  {
    root' := root;
    ghost var c := ctx;
    var other' := other;
    assert TreeIn(Snap(S), c.r, parent);
    LookDown(Snap(S), c.r, parent);
    if other.right == null || other.right.color == Black {
      root', c := EraseInnerLeft(parent, other, root', S, c, t);
      Look(Snap(S), c, t, root');
      other' := parent.right;
    }
    OuterRedOnRight(c, t);
    root' := EraseOuterLeft(parent, other', root', S, c, t);
    t' := Plug(c.up, EraseTurnedLeft(c, t));
    PlugAt(Snap(S), c.up, EraseTurnedLeft(c, t), root');
  }

  /** The sibling of the hole, made black first if it is red. */
  method EraseSiblingLeft(parent: Node, root: Node?, ghost S: set<Node>, ghost ctx: Ctx, ghost t: Tree)
    returns (other: Node, root': Node?, ghost ctx': Ctx)
    requires At(Snap(S), ctx, t, root) && Erasing(ctx, t) && !IsRed(t)
    requires ctx.L? && ctx.n == parent
    modifies S
    ensures At(Snap(S), ctx', t, root') && Erasing(ctx', t) && Whole(ctx', t) == Whole(ctx, t)
    ensures ctx'.L? && ctx'.n == parent && !IsRed(ctx'.r) && ctx'.r.T? && ctx'.r.n == other
    ensures ctx'.up == ctx.up || ctx'.c.Red?
  {
    root', ctx' := root, ctx;
    Look(Snap(S), ctx, t, root);
    assert ctx.r.T?;
    other := parent.right;
    if other.color == Red {
      root', ctx' := EraseRedSiblingLeft(parent, other, root, S, ctx, t);
      BlackSiblingOnRight(ctx', t);
      Look(Snap(S), ctx', t, root');
      other := parent.right;
    }
  }

  /** What is done with the black sibling; `done` is the `break`. */
  method EraseDecideLeft(parent: Node, other: Node, root: Node?, ghost S: set<Node>, ghost c: Ctx, ghost t: Tree)
    returns (node': Node?, parent': Node?, root': Node?, done: bool, ghost ctx': Ctx, ghost t': Tree)
    requires At(Snap(S), c, t, root) && Erasing(c, t) && !IsRed(t)
    requires c.L? && c.n == parent && !IsRed(c.r) && c.r.T? && c.r.n == other
    modifies S
    ensures At(Snap(S), ctx', t', root') && Erasing(ctx', t') && Ref(t') == node'
    ensures Whole(ctx', t') == Whole(c, t)
    ensures if done then ctx' == Top else parent' == CRef(ctx') && ctx' == c.up && t'.T? && t'.c == c.c
  {
    var both := BlackChildren(other, S, c.r, parent);
    if both {
      parent', t' := EraseBlackSiblingLeft(parent, other, root, S, c, t);
      node', ctx', root', done := parent, c.up, root, false;
    } else {
      root', t' := EraseFinishLeft(parent, other, root, S, c, t);
      Finished(Snap(S), t', root');
      node', parent', done, ctx' := root', null, true, Top;
    }
  }

  /** One round of the erasing loop. */
  method EraseRoundLeft(node: Node?, parent: Node, root: Node?, ghost S: set<Node>, ghost ctx: Ctx, ghost t: Tree)
    returns (node': Node?, parent': Node?, root': Node?, done: bool, ghost ctx': Ctx, ghost t': Tree)
    requires At(Snap(S), ctx, t, root) && Erasing(ctx, t) && !IsRed(t) && Ref(t) == node
    requires ctx.L? && ctx.n == parent
    modifies S
    ensures At(Snap(S), ctx', t', root') && Erasing(ctx', t') && Ref(t') == node'
    ensures Whole(ctx', t') == Whole(ctx, t)
    ensures if done then ctx' == Top else parent' == CRef(ctx') && (IsRed(t') || ctx' == ctx.up)
  {
    ghost var c;
    var other;
    other, root', c := EraseSiblingLeft(parent, root, S, ctx, t);
    node', parent', root', done, ctx', t' := EraseDecideLeft(parent, other, root', S, c, t);
  }

  // ---------- the short side is the right one ----------

  method EraseRedSiblingRight(parent: Node, other: Node, root: Node?, ghost S: set<Node>, ghost ctx: Ctx, ghost t: Tree)
    returns (root': Node?, ghost ctx': Ctx)
    requires At(Snap(S), ctx, t, root) && Erasing(ctx, t)
    requires ctx.R? && ctx.n == parent && IsRed(ctx.l) && ctx.l.n == other
    modifies S
    ensures At(Snap(S), ctx', t, root') && Erasing(ctx', t) && Whole(ctx', t) == Whole(ctx, t)
    ensures ctx'.R? && ctx'.n == parent && ctx'.c.Red? && !IsRed(ctx'.l)
  {
    RedSiblingOnLeft(ctx, t);
    MoveUp(Snap(S), ctx, t, root);
    ghost var P := T(ctx.l, ctx.n, ctx.c, t);
    Push(other, parent, root, S, ctx.up, P, true);
    root' := RotateRight(parent, root, S, ctx.up, Pushed(P, true));
    assert At(Snap(S), ctx.up, T(ctx.l.l, ctx.l.n, Black, T(ctx.l.r, ctx.n, Red, t)), root');
    MoveDown(Snap(S), ctx.up, T(ctx.l.l, ctx.l.n, Black, T(ctx.l.r, ctx.n, Red, t)), root');
    MoveDown(Snap(S), R(ctx.up, ctx.l.l, ctx.l.n, Black), T(ctx.l.r, ctx.n, Red, t), root');
    ctx' := R(R(ctx.up, ctx.l.l, ctx.l.n, Black), ctx.l.r, ctx.n, Red);
  }

  method EraseBlackSiblingRight(parent: Node, other: Node, root: Node?, ghost S: set<Node>, ghost ctx: Ctx,
      ghost t: Tree)
    returns (parent': Node?, ghost t': Tree)
    requires At(Snap(S), ctx, t, root) && Erasing(ctx, t) && !IsRed(t)
    requires ctx.R? && ctx.n == parent && !IsRed(ctx.l) && ctx.l.T? && ctx.l.n == other
    requires !IsRed(ctx.l.l) && !IsRed(ctx.l.r)
    modifies S
    ensures At(Snap(S), ctx.up, t', root) && Erasing(ctx.up, t') && Whole(ctx.up, t') == Whole(ctx, t)
    ensures t'.T? && t'.n == parent && t'.c == ctx.c && parent' == CRef(ctx.up)
  {
    BlackSiblingOnLeft(ctx, t);
    ghost var side := L(ctx.up, ctx.n, ctx.c, t);
    assert At(Snap(S), side, ctx.l, root) by {
      MoveUp(Snap(S), ctx, t, root);
      MoveDown(Snap(S), ctx.up, T(ctx.l, ctx.n, ctx.c, t), root);
    }
    SetColor(other, Red, root, S, side, ctx.l);
    MoveUp(Snap(S), side, ctx.l.(c := Red), root);
    t' := T(ctx.l.(c := Red), ctx.n, ctx.c, t);
    parent' := parent.parent;
  }

  method EraseInnerRight(parent: Node, other: Node, root: Node?, ghost S: set<Node>, ghost ctx: Ctx, ghost t: Tree)
    returns (root': Node?, ghost ctx': Ctx)
    requires At(Snap(S), ctx, t, root) && Erasing(ctx, t)
    requires ctx.R? && ctx.n == parent && ctx.l.T? && ctx.l.n == other
    requires !IsRed(ctx.l) && IsRed(ctx.l.r) && !IsRed(ctx.l.l)
    modifies S
    ensures At(Snap(S), ctx', t, root') && Erasing(ctx', t) && Whole(ctx', t) == Whole(ctx, t)
    ensures ctx'.R? && ctx'.n == parent && !IsRed(ctx'.l) && ctx'.l.T? && IsRed(ctx'.l.l)
  {
    InnerRedOnLeft(ctx, t);
    ghost var side := L(ctx.up, ctx.n, ctx.c, t);
    assert At(Snap(S), side, ctx.l, root) by {
      MoveUp(Snap(S), ctx, t, root);
      MoveDown(Snap(S), ctx.up, T(ctx.l, ctx.n, ctx.c, t), root);
    }
    LookDown(Snap(S), ctx.l, parent);
    var oRight := other.right;
    Push(oRight, other, root, S, side, ctx.l, false);
    root' := RotateLeft(other, root, S, side, Pushed(ctx.l, false));
    ghost var o := RotL(Pushed(ctx.l, false));
    MoveUp(Snap(S), side, o, root');
    MoveDown(Snap(S), ctx.up, Up(side, o), root');
    ctx' := R(ctx.up, o, ctx.n, ctx.c);
  }

  ghost function OuterPaintedRight(s: Tree, c: Color): Tree
    requires s.T? && s.l.T?
  {
    T(s.l.(c := Black), s.n, c, s.r)
  }

  lemma SiblingPaintedRight(h: Heap, h': Heap, s: Tree, p: Node, c: Color)
    requires TreeIn(h, s, p) && s.T? && s.l.T? && p !in Nodes(s) && p in h
    requires s.n in h && s.l.n in h && h'.Keys == h.Keys
    requires h'[s.n] == h[s.n].(color := c) && h'[s.l.n] == h[s.l.n].(color := Black)
    requires forall y :: y in h && y != p && y != s.n && y != s.l.n ==> h'[y] == h[y]
    ensures TreeIn(h', OuterPaintedRight(s, c), p) && Nodes(OuterPaintedRight(s, c)) == Nodes(s)
  {
    var x := s.l;
    assert TreeIn(h, x, s.n) && TreeIn(h, s.r, s.n);
    assert Nodes(x) == Nodes(x.l) + {x.n} + Nodes(x.r);
    TreeSame(h, h', s.r, s.n);
    TreeSame(h, h', x.l, x.n);
    TreeSame(h, h', x.r, x.n);
    assert TreeIn(h', x.(c := Black), s.n);
  }

  lemma ErasePaintedRight(h: Heap, h': Heap, ctx: Ctx, t: Tree, root: Node?)
    requires At(h, ctx, t, root) && ctx.R? && ctx.l.T? && ctx.l.l.T?
    requires var p, o, x := ctx.n, ctx.l.n, ctx.l.l.n;
      && p in h && o in h && x in h && h'.Keys == h.Keys
      && h'[p] == h[p].(color := Black) && h'[o] == h[o].(color := ctx.c) && h'[x] == h[x].(color := Black)
      && forall y :: y in h && y != p && y != o && y != x ==> h'[y] == h[y]
    ensures At(h', ctx.up, T(OuterPaintedRight(ctx.l, ctx.c), ctx.n, Black, t), root)
  {
    var s := ctx.l;
    assert s.n in Nodes(s) && s.l.n in Nodes(s);
    SiblingPaintedRight(h, h', s, ctx.n, ctx.c);
    TreeSame(h, h', t, ctx.n);
    CtxSame(h, h', ctx.up, ctx.n, root);
  }

  method EraseOuterRight(parent: Node, other: Node, root: Node?, ghost S: set<Node>, ghost ctx: Ctx, ghost t: Tree)
    returns (root': Node?)
    requires At(Snap(S), ctx, t, root) && Erasing(ctx, t)
    requires ctx.R? && ctx.n == parent && ctx.l.T? && ctx.l.n == other
    requires !IsRed(ctx.l) && IsRed(ctx.l.l)
    modifies S
    ensures At(Snap(S), ctx.up, EraseTurnedRight(ctx, t), root')
  {
    ghost var h := Snap(S);
    assert parent in h by { Look(h, ctx, t, root); }
    LookDown(h, ctx.l, parent);
    other.color := parent.color;
    parent.color := Black;
    if other.left != null {
      other.left.color := Black;
    }
    ErasePaintedRight(h, Snap(S), ctx, t, root);
    root' := RotateRight(parent, root, S, ctx.up, T(OuterPaintedRight(ctx.l, ctx.c), ctx.n, Black, t));
  }

  /** The sibling has a red child: the loop ends with the whole tree in order. */
  method EraseFinishRight(parent: Node, other: Node, root: Node?, ghost S: set<Node>, ghost ctx: Ctx, ghost t: Tree)
    returns (root': Node?, ghost t': Tree)
    requires At(Snap(S), ctx, t, root) && Erasing(ctx, t) && !IsRed(t)
    requires ctx.R? && ctx.n == parent && !IsRed(ctx.l) && ctx.l.T? && ctx.l.n == other
    requires IsRed(ctx.l.l) || IsRed(ctx.l.r)
    modifies S
    ensures At(Snap(S), Top, t', root') && Balanced(t') && !IsRed(t') && InOrder(t') == Whole(ctx, t)
  {
    root' := root;
    ghost var c := ctx;
    var other' := other;
    assert TreeIn(Snap(S), c.l, parent);
    LookDown(Snap(S), c.l, parent);
    if other.left == null || other.left.color == Black {
      root', c := EraseInnerRight(parent, other, root', S, c, t);
      Look(Snap(S), c, t, root');
      other' := parent.left;
    }
    OuterRedOnLeft(c, t);
    root' := EraseOuterRight(parent, other', root', S, c, t);
    t' := Plug(c.up, EraseTurnedRight(c, t));
    PlugAt(Snap(S), c.up, EraseTurnedRight(c, t), root');
  }

  /** The sibling of the hole, made black first if it is red. */
  method EraseSiblingRight(parent: Node, root: Node?, ghost S: set<Node>, ghost ctx: Ctx, ghost t: Tree)
    returns (other: Node, root': Node?, ghost ctx': Ctx)
    requires At(Snap(S), ctx, t, root) && Erasing(ctx, t) && !IsRed(t)
    requires ctx.R? && ctx.n == parent
    modifies S
    ensures At(Snap(S), ctx', t, root') && Erasing(ctx', t) && Whole(ctx', t) == Whole(ctx, t)
    ensures ctx'.R? && ctx'.n == parent && !IsRed(ctx'.l) && ctx'.l.T? && ctx'.l.n == other
    ensures ctx'.up == ctx.up || ctx'.c.Red?
  {
    root', ctx' := root, ctx;
    Look(Snap(S), ctx, t, root);
    assert ctx.l.T?;
    other := parent.left;
    if other.color == Red {
      root', ctx' := EraseRedSiblingRight(parent, other, root, S, ctx, t);
      BlackSiblingOnLeft(ctx', t);
      Look(Snap(S), ctx', t, root');
      other := parent.left;
    }
  }

  /** What is done with the black sibling; `done` is the `break`. */
  method EraseDecideRight(parent: Node, other: Node, root: Node?, ghost S: set<Node>, ghost c: Ctx, ghost t: Tree)
    returns (node': Node?, parent': Node?, root': Node?, done: bool, ghost ctx': Ctx, ghost t': Tree)
    requires At(Snap(S), c, t, root) && Erasing(c, t) && !IsRed(t)
    requires c.R? && c.n == parent && !IsRed(c.l) && c.l.T? && c.l.n == other
    modifies S
    ensures At(Snap(S), ctx', t', root') && Erasing(ctx', t') && Ref(t') == node'
    ensures Whole(ctx', t') == Whole(c, t)
    ensures if done then ctx' == Top else parent' == CRef(ctx') && ctx' == c.up && t'.T? && t'.c == c.c
  {
    var both := BlackChildren(other, S, c.l, parent);
    if both {
      parent', t' := EraseBlackSiblingRight(parent, other, root, S, c, t);
      node', ctx', root', done := parent, c.up, root, false;
    } else {
      root', t' := EraseFinishRight(parent, other, root, S, c, t);
      Finished(Snap(S), t', root');
      node', parent', done, ctx' := root', null, true, Top;
    }
  }

  /** One round of the erasing loop. */
  method EraseRoundRight(node: Node?, parent: Node, root: Node?, ghost S: set<Node>, ghost ctx: Ctx, ghost t: Tree)
    returns (node': Node?, parent': Node?, root': Node?, done: bool, ghost ctx': Ctx, ghost t': Tree)
    requires At(Snap(S), ctx, t, root) && Erasing(ctx, t) && !IsRed(t) && Ref(t) == node
    requires ctx.R? && ctx.n == parent
    modifies S
    ensures At(Snap(S), ctx', t', root') && Erasing(ctx', t') && Ref(t') == node'
    ensures Whole(ctx', t') == Whole(ctx, t)
    ensures if done then ctx' == Top else parent' == CRef(ctx') && (IsRed(t') || ctx' == ctx.up)
  {
    ghost var c;
    var other;
    other, root', c := EraseSiblingRight(parent, root, S, ctx, t);
    node', parent', root', done, ctx', t' := EraseDecideRight(parent, other, root', S, c, t);
  }

  // ---------- the loop ----------

  method EraseRebalance(node: Node?, parent: Node?, root: Node?, ghost S: set<Node>, ghost ctx: Ctx, ghost t: Tree)
    returns (root': Node?, ghost t': Tree)
    requires At(Snap(S), ctx, t, root) && Erasing(ctx, t) && node == Ref(t) && parent == CRef(ctx)
    modifies S
    ensures At(Snap(S), Top, t', root') && Balanced(t') && !IsRed(t') && InOrder(t') == Whole(ctx, t)
  {
    root' := root;
    var x, p := node, parent;
    ghost var c, u := ctx, t;
    SeeFocus(Snap(S), c, u, root');
    while (x == null || x.color == Black) && x != root'
      invariant At(Snap(S), c, u, root') && Erasing(c, u) && x == Ref(u)
      invariant x != null ==> x in S && x.color == u.c
      invariant c.Top? <==> x == root'
      invariant !c.Top? ==> p == c.n
      invariant Whole(c, u) == Whole(ctx, t)
      decreases if IsRed(u) then 0 else 1, c
    {
      var done;
      Look(Snap(S), c, u, root');
      if p.left == x {
        x, p, root', done, c, u := EraseRoundLeft(x, p, root', S, c, u);
      } else {
        x, p, root', done, c, u := EraseRoundRight(x, p, root', S, c, u);
      }
      SeeFocus(Snap(S), c, u, root');
      if done {
        break;
      }
    }
    t' := EraseLast(x, root', S, c, u);
  }

  /** The last statement: what the loop stopped at becomes black. */
  method EraseLast(x: Node?, root: Node?, ghost S: set<Node>, ghost c: Ctx, ghost u: Tree) returns (ghost t': Tree)
    requires At(Snap(S), c, u, root) && Erasing(c, u) && x == Ref(u) && (IsRed(u) || c.Top?)
    modifies S
    ensures At(Snap(S), Top, t', root) && Balanced(t') && !IsRed(t') && InOrder(t') == Whole(c, u)
  {
    if x != null {
      SetColor(x, Black, root, S, c, u);
    }
    EraseEnd(c, u);
    t' := Plug(c, if u.T? then u.(c := Black) else u);
    PlugAt(Snap(S), c, if u.T? then u.(c := Black) else u, root);
  }

  lemma SeeFocus(h: Heap, ctx: Ctx, t: Tree, root: Node?)
    requires At(h, ctx, t, root)
    ensures ctx.Top? <==> Ref(t) == root
    ensures t.T? ==> t.n in h && h[t.n].color == t.c
  {
    RootInCtx(h, ctx, Ref(t), root);
  }

  lemma {:induction false} RootInCtx(h: Heap, ctx: Ctx, hole: Node?, root: Node?)
    requires CtxIn(h, ctx, hole, root)
    ensures if ctx.Top? then root == hole else root != null && root in CNodes(ctx)
  {
    if !ctx.Top? {
      RootInCtx(h, ctx.up, ctx.n, root);
    }
  }

  /** A red root, or the root of the whole tree, painted black ends the erasure. */
  lemma EraseEnd(ctx: Ctx, t: Tree)
    requires Erasing(ctx, t) && (IsRed(t) || ctx.Top?)
    ensures var t' := if t.T? then t.(c := Black) else t;
      Balanced(Plug(ctx, t')) && !IsRed(Plug(ctx, t')) && InOrder(Plug(ctx, t')) == Whole(ctx, t)
  {
    var t' := if t.T? then t.(c := Black) else t;
    if t.T? {
      Blacken(t);
    }
    PlugWhole(ctx, t');
    PlugBalanced(ctx, t');
  }
}
