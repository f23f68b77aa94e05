/** Search, insertion and erasure on the heap of a tree, whole. */
module RbDictionary {
  import opened KeyOrder
  import opened Numbers
  import opened RbHeap
  import opened RbShape
  import opened RbTree
  import opened RbErase

  /** `root` is a red-black tree made of exactly the nodes `S`, standing as `t` says. */
  ghost predicate IsTree(S: set<Node>, t: Tree, root: Node?)
    reads S
  {
    && S == Nodes(t) && At(Snap(S), Top, t, root)
    && Balanced(t) && !IsRed(t) && Ordered(InOrder(t))
  }

  /** No difference overflows that the search takes on the way to `key` in the order of the keys. */
  ghost predicate PathFits(t: Tree, key: int) {
    t.T? && t.n.key != key ==>
      IsInt32(t.n.key - key) && PathFits(if key < t.n.key then t.l else t.r, key)
  }

  /** Where the search ends in `t`, with differences that wrap. */
  ghost function SearchWrapped(t: Tree, key: int): Tree {
    if t.Leaf? then t
    else
      var ret := Int32(t.n.key - key);
      if 0 < ret then SearchWrapped(t.l, key) else if 0 > ret then SearchWrapped(t.r, key) else t
  }

  /**
   * The search, for any keys; `*save` is the node under which a missing key would go.
   * If no difference on the way overflows, it ends where the key is or belongs.
   */
  method SearchAuxiliary(key: int, root: Node?, ghost S: set<Node>, ghost t: Tree)
    returns (found: Node?, save: Node?, ghost ctx: Ctx, ghost u: Tree, ghost steps: nat)
    requires At(Snap(S), Top, t, root) && Ordered(InOrder(t))
    ensures At(Snap(S), ctx, u, root) && Plug(ctx, u) == t && found == Ref(u)
    ensures found == Ref(SearchWrapped(t, key))
    ensures PathFits(t, key) ==> Brackets(ctx, key) && (found != null ==> found.key == key)
    ensures found == null ==> save == CRef(ctx)
    ensures steps <= Height(t)
  {
    var node, parent := root, null;
    ctx, u, steps := Top, t, 0;
    assert Whole(ctx, u) == InOrder(t);
    while node != null
      invariant At(Snap(S), ctx, u, root) && Plug(ctx, u) == t && node == Ref(u)
      invariant Whole(ctx, u) == InOrder(t) && SearchWrapped(u, key) == SearchWrapped(t, key)
      invariant PathFits(t, key) ==> Brackets(ctx, key) && PathFits(u, key)
      invariant parent == CRef(ctx) && steps == Depth(ctx)
      decreases u
    {
      parent, steps := node, steps + 1;
      var ret := Int32(node.key - key);
      if PathFits(t, key) {
        Turned(ctx, u, key, ret);
      }
      MoveDown(Snap(S), ctx, u, root);
      if 0 < ret {
        node := node.left;
        ctx, u := L(ctx, u.n, u.c, u.r), u.l;
      } else if 0 > ret {
        node := node.right;
        ctx, u := R(ctx, u.l, u.n, u.c), u.r;
      } else {
        found, save := node, null;
        DepthHeight(ctx, u);
        return;
      }
      UpWhole(ctx, u);
    }
    found, save := null, parent;
    DepthHeight(ctx, u);
  }

  lemma TurnedLeft(ctx: Ctx, u: Tree, key: int)
    requires u.T? && Ordered(Whole(ctx, u)) && Brackets(ctx, key) && PathFits(u, key) && key < u.n.key
    ensures Brackets(L(ctx, u.n, u.c, u.r), key) && PathFits(u.l, key)
  {
    BracketsDown(ctx, u, key);
  }

  lemma TurnedRight(ctx: Ctx, u: Tree, key: int)
    requires u.T? && Ordered(Whole(ctx, u)) && Brackets(ctx, key) && PathFits(u, key) && u.n.key < key
    ensures Brackets(R(ctx, u.l, u.n, u.c), key) && PathFits(u.r, key)
  {
    BracketsDown(ctx, u, key);
  }

  lemma Difference(u: Tree, key: int)
    requires u.T? && PathFits(u, key)
    ensures Int32(u.n.key - key) == u.n.key - key
  {
    Int32Fits(u.n.key - key);
  }

  /** One turn of the search goes the right way if the difference does not overflow. */
  lemma Turned(ctx: Ctx, u: Tree, key: int, ret: int)
    requires u.T? && Ordered(Whole(ctx, u)) && Brackets(ctx, key) && PathFits(u, key) && ret == Int32(u.n.key - key)
    ensures ret == 0 ==> u.n.key == key
    ensures ret > 0 ==> Brackets(L(ctx, u.n, u.c, u.r), key) && PathFits(u.l, key)
    ensures ret < 0 ==> Brackets(R(ctx, u.l, u.n, u.c), key) && PathFits(u.r, key)
  {
    Difference(u, key);
    if ret > 0 {
      TurnedLeft(ctx, u, key);
    } else if ret < 0 {
      TurnedRight(ctx, u, key);
    }
  }

  ghost predicate HasKey(s: seq<Node>, key: int) {
    exists x :: x in s && x.key == key
  }

  lemma OrderedAround(a: seq<Node>, x: Node, b: seq<Node>, key: int)
    requires Ordered(a + [x] + b)
    ensures HasKey(a, key) ==> key < x.key
    ensures HasKey(b, key) ==> x.key < key
    ensures HasKey(a + [x] + b, key) <==> x.key == key || HasKey(a, key) || HasKey(b, key)
  {
    OrderedRemove(a, x, b);
    var s := a + [x] + b;
    assert x in s;
  }

  lemma OrderedParts(a: seq<Node>, b: seq<Node>)
    requires Ordered(a + b)
    ensures Ordered(a) && Ordered(b)
  {
    var s := a + b;
    assert s[..|a|] == a && s[|a|..] == b;
  }

  ghost predicate SearchExact(t: Tree, key: int) {
    var u := SearchWrapped(t, key);
    (u.T? <==> HasKey(InOrder(t), key) && PathFits(t, key)) && (u.T? ==> u.n.key == key)
  }

  lemma SearchExactStep(t: Tree, key: int)
    requires t.T? && Ordered(InOrder(t)) && IsInt32(key) && IsInt32(t.n.key)
    requires SearchExact(t.l, key) && SearchExact(t.r, key)
    ensures SearchExact(t, key)
  {
    OrderedAround(InOrder(t.l), t.n, InOrder(t.r), key);
    TurnsAsOrderedExactly(t.n.key, key);
  }

  /** With 32-bit keys the search finds a key exactly if it is there and no difference on the way to it overflows. */
  lemma {:induction false} SearchExactly(t: Tree, key: int)
    requires Ordered(InOrder(t)) && IsInt32(key) && forall x :: x in InOrder(t) ==> IsInt32(x.key)
    ensures SearchExact(t, key)
  {
    if t.T? {
      var l, r := InOrder(t.l), InOrder(t.r);
      assert InOrder(t) == l + [t.n] + r && t.n in InOrder(t);
      OrderedParts(l + [t.n], r);
      OrderedParts(l, [t.n]);
      SearchExactly(t.l, key);
      SearchExactly(t.r, key);
      SearchExactStep(t, key);
    }
  }

  /** It is enough that the keys lie close together. */
  lemma {:induction false} CloseKeysFit(t: Tree, key: int)
    requires forall x :: x in Nodes(t) ==> IsInt32(x.key - key)
    ensures PathFits(t, key)
  {
    if t.T? {
      CloseKeysFit(t.l, key);
      CloseKeysFit(t.r, key);
    }
  }

  /** A valid tree of two keys in which the wrapped search misses the second one. */
  lemma WrappedMisses(a: Node, b: Node)
    requires a.key == -TWO31 && b.key == TWO31 - 1
    ensures var t := T(Leaf, a, Black, T(Leaf, b, Red, Leaf));
      Balanced(t) && !IsRed(t) && Ordered(InOrder(t)) && b in Nodes(t) && SearchWrapped(t, b.key) == Leaf
  {
    var t := T(Leaf, a, Black, T(Leaf, b, Red, Leaf));
    assert InOrder(t.r) == InOrder(Leaf) + [b] + InOrder(Leaf) == [b];
    assert InOrder(t) == InOrder(Leaf) + [a] + InOrder(t.r) == [a] + [b];
    assert Int32(a.key - b.key) == 1;
    assert SearchWrapped(t, b.key) == SearchWrapped(t.l, b.key);
  }

  /** The new node in its place below `parent`: red, and the only thing out of order is its colour. */
  method Attach(key: int, data: int, parent: Node?, root: Node?, ghost S: set<Node>, ghost ctx: Ctx)
    returns (node: Node, root': Node?)
    requires At(Snap(S), ctx, Leaf, root) && parent == CRef(ctx)
    requires Brackets(ctx, key)
    modifies S
    ensures fresh(node) && node.key == key && node.data == data
    ensures At(Snap(S + {node}), ctx, T(Leaf, node, Red, Leaf), root')
  {
    ghost var h := Snap(S);
    CtxKeys(h, ctx, null, root);
    root' := root;
    node := new Node(key, data);
    node.parent := parent;
    node.left, node.right := null, null;
    node.color := Red;
    if parent != null {
      assert ctx.L? ==> ctx.n in After(ctx);
      assert ctx.R? ==> ctx.n in Before(ctx);
      if parent.key > key {
        parent.left := node;
      } else {
        parent.right := node;
      }
    } else {
      root' := node;
    }
    ghost var h' := Snap(S + {node});
    Rehole(h, h', ctx, null, node, root);
  }

  method Insert(key: int, data: int, root: Node?, ghost S: set<Node>, ghost t: Tree)
    returns (root': Node?, ghost S': set<Node>, ghost t': Tree, ghost a: seq<Node>, ghost b: seq<Node>)
    requires IsTree(S, t, root) && PathFits(t, key)
    modifies S
    ensures IsTree(S', t', root') && fresh(S' - S)
    ensures if exists x :: x in S && x.key == key
            then root' == root && S' == S && t' == t && Snap(S) == old(Snap(S))
            else InOrder(t) == a + b
                 && exists x :: x in S' - S && S' == S + {x} && x.key == key && x.data == data
                                && InOrder(t') == a + [x] + b
  {
    var found, parent;
    ghost var ctx, u, steps;
    found, parent, ctx, u, steps := SearchAuxiliary(key, root, S, t);
    a, b := Before(ctx), After(ctx);
    if found != null {
      Found(ctx, u);
      return root, S, t, a, b;
    }
    Missing(ctx, key);
    var node;
    node, root' := Attach(key, data, parent, root, S, ctx);
    InsertingLeaf(ctx, node);
    S' := S + {node};
    root', t' := InsertRebalance(node, root', S', ctx, T(Leaf, node, Red, Leaf));
    Inserted(ctx, node, Red, t');
  }

  // ---------- erasing ----------

  /** The node `node` with at most one child gives its place to that child. */
  method Unlink(node: Node, child: Node?, parent: Node?, root: Node?, ghost S: set<Node>, ghost ctx: Ctx,
      ghost t: Tree, ghost ch: Tree)
    returns (root': Node?)
    requires At(Snap(S), ctx, t, root) && t.T? && t.n == node && ((t.l.Leaf? && ch == t.r) || (t.r.Leaf? && ch == t.l))
    requires child == Ref(ch) && parent == CRef(ctx)
    modifies S
    ensures At(Snap(S), ctx, ch, root')
    ensures node !in Nodes(ch) && node !in CNodes(ctx)
    ensures node in S && node.parent == parent
  {
    ghost var h := Snap(S);
    root' := root;
    assert TreeIn(h, ch, node);
    assert ch.T? ==> ch.n in Nodes(t);
    assert ctx.L? || ctx.R? ==> node != Ref(Sibling(ctx));
    if child != null {
      child.parent := parent;
    }
    if parent != null {
      if parent.left == node {
        parent.left := child;
      } else {
        parent.right := child;
      }
    } else {
      root' := child;
    }
    Unlinked(h, Snap(S), ctx, t, ch, root);
  }

  /** The leftmost node of the right subtree of `gone`. */
  method Successor(gone: Node, root: Node?, ghost S: set<Node>, ghost ctx: Ctx, ghost t: Tree)
    returns (node: Node, ghost chain: Ctx, ghost w: Tree)
    requires At(Snap(S), ctx, t, root) && t.T? && t.n == gone && t.r.T?
    ensures At(Snap(S), Append(chain, R(ctx, t.l, gone, t.c)), w, root)
    ensures w.T? && w.n == node && w.l.Leaf? && Lefts(chain) && Plug(chain, w) == t.r
  {
    ghost var base := R(ctx, t.l, gone, t.c);
    MoveDown(Snap(S), ctx, t, root);
    node := gone.right;
    chain, w := Top, t.r;
    LookDown(Snap(S), w, CRef(Append(chain, base)));
    var left := node.left;
    while left != null
      invariant At(Snap(S), Append(chain, base), w, root)
      invariant w.T? && w.n == node && left == Ref(w.l) && Lefts(chain) && Plug(chain, w) == t.r
      decreases w
    {
      node := left;
      MoveDown(Snap(S), Append(chain, base), w, root);
      chain, w := L(chain, w.n, w.c, w.r), w.l;
      LookDown(Snap(S), w, CRef(Append(chain, base)));
      left := node.left;
    }
  }

  /** The unlinked `node` takes over the links and the colour of `gone`. */
  method TakePlace(gone: Node, node: Node, root: Node?, ghost S: set<Node>, ghost ctx: Ctx, ghost t: Tree)
    returns (root': Node?)
    requires At(Snap(S), ctx, t, root) && t.T? && t.n == gone && t.l.T?
    requires node in S && node !in Nodes(t) && node !in CNodes(ctx)
    modifies S
    ensures At(Snap(S), ctx, T(t.l, node, t.c, t.r), root')
  {
    ghost var h := Snap(S);
    LookDown(h, t, CRef(ctx));
    assert t.l.n in Nodes(t) && (t.r.T? ==> t.r.n in Nodes(t));
    assert ctx.L? || ctx.R? ==> gone != Ref(Sibling(ctx)) && CRef(ctx) in CNodes(ctx);
    root' := root;
    node.parent := gone.parent;
    node.color := gone.color;
    node.right := gone.right;
    node.left := gone.left;
    if gone.parent != null {
      if gone.parent.left == gone {
        gone.parent.left := node;
      } else {
        gone.parent.right := node;
      }
    } else {
      root' := node;
    }
    gone.left.parent := node;
    if gone.right != null {
      gone.right.parent := node;
    }
    Substituted(h, Snap(S), ctx, t, node, root);
  }

  method TakeOutOne(node: Node, root: Node?, ghost S: set<Node>, ghost ctx: Ctx, ghost t: Tree)
    returns (child: Node?, parent: Node?, color: Color, root': Node?, ghost a: seq<Node>, ghost b: seq<Node>)
    requires At(Snap(S), ctx, t, root) && t.T? && t.n == node && (t.l.Leaf? || t.r.Leaf?)
    requires Balanced(Plug(ctx, t)) && !IsRed(Plug(ctx, t))
    modifies S
    ensures At(Snap(S), ctx, OnlyChild(t), root') && child == Ref(OnlyChild(t)) && parent == CRef(ctx)
    ensures TakenOut(ctx, OnlyChild(t), color)
    ensures Whole(ctx, t) == a + [node] + b && Whole(ctx, OnlyChild(t)) == a + b
  {
    LookDown(Snap(S), t, CRef(ctx));
    a, b := OneOut(ctx, t);
    if node.left == null {
      child := node.right;
    } else {
      child := node.left;
    }
    parent := node.parent;
    color := node.color;
    root' := Unlink(node, child, parent, root, S, ctx, t, OnlyChild(t));
  }

  method TakeOutTwo(gone: Node, root: Node?, ghost S: set<Node>, ghost ctx: Ctx, ghost t: Tree)
    returns (child: Node?, parent: Node?, color: Color, root': Node?,
             ghost ctx': Ctx, ghost t': Tree, ghost a: seq<Node>, ghost b: seq<Node>)
    requires At(Snap(S), ctx, t, root) && t.T? && t.n == gone && t.l.T? && t.r.T?
    requires Balanced(Plug(ctx, t)) && !IsRed(Plug(ctx, t))
    modifies S
    ensures At(Snap(S), ctx', t', root') && child == Ref(t') && parent == CRef(ctx')
    ensures TakenOut(ctx', t', color)
    ensures Whole(ctx, t) == a + [gone] + b && Whole(ctx', t') == a + b
  {
    var node;
    ghost var chain, w;
    node, chain, w := Successor(gone, root, S, ctx, t);
    TwoOut(ctx, t, chain, w);
    SuccessorWhole(ctx, t, chain, w);
    a, b := Before(ctx) + InOrder(t.l), [w.n] + Whole(chain, w.r) + After(ctx);
    ghost var k := Append(chain, R(ctx, t.l, gone, t.c));
    LookDown(Snap(S), w, CRef(k));
    child := node.right;
    parent := node.parent;
    color := node.color;
    root' := Unlink(node, child, parent, root, S, k, w, w.r);
    if node.parent == gone {
      parent := node;
    }
    ghost var u := T(t.l, gone, t.c, Plug(chain, w.r));
    ChainHead(Snap(S), chain, R(ctx, t.l, gone, t.c), Ref(w.r), root');
    Refocus(Snap(S), chain, ctx, u, w.r, node, root');
    root' := TakePlace(gone, node, root', S, ctx, u);
    ctx', t' := Append(chain, R(ctx, t.l, node, t.c)), w.r;
    RefocusBack(Snap(S), chain, ctx, T(t.l, node, t.c, u.r), t', root');
  }

  lemma Refocus(h: Heap, chain: Ctx, ctx: Ctx, u: Tree, t: Tree, node: Node, root: Node?)
    requires u.T? && u.r == Plug(chain, t) && At(h, Append(chain, R(ctx, u.l, u.n, u.c)), t, root)
    requires node !in Nodes(t) && node !in CNodes(Append(chain, R(ctx, u.l, u.n, u.c)))
    ensures At(h, ctx, u, root) && node !in Nodes(u) && node !in CNodes(ctx)
  {
    var base := R(ctx, u.l, u.n, u.c);
    AppendAt(h, chain, base, t, root);
    MoveUp(h, base, u.r, root);
    AppendNodes(chain, base, t);
    assert node !in CNodes(base) + Nodes(u.r);
    assert node != u.n && node !in Nodes(u.l) && node !in CNodes(ctx);
  }

  lemma ChainHead(h: Heap, chain: Ctx, base: Ctx, hole: Node?, root: Node?)
    requires CtxIn(h, Append(chain, base), hole, root) && !base.Top?
    ensures CRef(Append(chain, base)) == base.n <==> chain.Top?
  {
    if !chain.Top? {
      BaseNode(chain.up, base);
    }
  }

  lemma {:induction false} BaseNode(chain: Ctx, base: Ctx)
    requires !base.Top?
    ensures base.n in CNodes(Append(chain, base))
  {
    if !chain.Top? {
      BaseNode(chain.up, base);
    }
  }

  lemma RefocusBack(h: Heap, chain: Ctx, ctx: Ctx, u: Tree, t: Tree, root: Node?)
    requires u.T? && u.r == Plug(chain, t) && At(h, ctx, u, root)
    ensures At(h, Append(chain, R(ctx, u.l, u.n, u.c)), t, root)
  {
    MoveDown(h, ctx, u, root);
    AppendAt(h, chain, R(ctx, u.l, u.n, u.c), t, root);
  }

  method Erase(key: int, root: Node?, ghost S: set<Node>, ghost t: Tree)
    returns (root': Node?, ghost S': set<Node>, ghost t': Tree, ghost a: seq<Node>, ghost b: seq<Node>)
    requires IsTree(S, t, root) && PathFits(t, key)
    modifies S
    ensures IsTree(S', t', root')
    ensures if forall x :: x in S ==> x.key != key
            then root' == root && S' == S && t' == t && Snap(S) == old(Snap(S))
            else
              exists x ::
                && x in S && x.key == key && S' == S - {x}
                && InOrder(t) == a + [x] + b && InOrder(t') == a + b
  {
    var node, save;
    ghost var ctx, u, steps;
    node, save, ctx, u, steps := SearchAuxiliary(key, root, S, t);
    if node == null {
      Missing(ctx, key);
      return root, S, t, [], [];
    }
    Found(ctx, u);
    PlugWhole(ctx, u);
    LookDown(Snap(S), u, CRef(ctx));
    var child, parent, color;
    ghost var ctx', u';
    if node.left != null && node.right != null {
      child, parent, color, root', ctx', u', a, b := TakeOutTwo(node, root, S, ctx, u);
    } else {
      child, parent, color, root', a, b := TakeOutOne(node, root, S, ctx, u);
      ctx', u' := ctx, OnlyChild(u);
    }
    if color == Black {
      root', t' := EraseRebalance(child, parent, root', S, ctx', u');
    } else {
      t' := Plug(ctx', u');
      PlugAt(Snap(S), ctx', u', root');
      PlugWhole(ctx', u');
    }
    Erased(t, t', a, node, b);
    S' := S - {node};
    Forget(Snap(S), Snap(S'), t', root');
  }

  /** The node that is gone need not be remembered. */
  lemma Forget(h: Heap, h': Heap, t: Tree, root: Node?)
    requires At(h, Top, t, root) && Agree(h, h', Nodes(t))
    ensures At(h', Top, t, root)
  {
    TreeSame(h, h', t, null);
  }
}
