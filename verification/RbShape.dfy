/** What a red-black tree promises, said of ghost trees and contexts: order, colours and black heights. */
module RbShape {
  import opened RbHeap

  // ---------- order ----------

  /** The nodes from left to right. */
  ghost function InOrder(t: Tree): seq<Node> {
    match t
    case Leaf => []
    case T(l, n, _, r) => InOrder(l) + [n] + InOrder(r)
  }

  /** The nodes to the left of the hole, and those to the right of it. */
  ghost function Before(ctx: Ctx): seq<Node> {
    match ctx
    case Top => []
    case L(up, _, _, _) => Before(up)
    case R(up, l, n, _) => Before(up) + InOrder(l) + [n]
  }

  ghost function After(ctx: Ctx): seq<Node> {
    match ctx
    case Top => []
    case L(up, n, _, r) => [n] + InOrder(r) + After(up)
    case R(up, _, _, _) => After(up)
  }

  ghost function Whole(ctx: Ctx, t: Tree): seq<Node> {
    Before(ctx) + InOrder(t) + After(ctx)
  }

  /** The context filled with `t`. */
  ghost function Plug(ctx: Ctx, t: Tree): Tree
    decreases ctx
  {
    if ctx.Top? then t else Plug(ctx.up, Up(ctx, t))
  }

  lemma UpWhole(ctx: Ctx, t: Tree)
    requires !ctx.Top?
    ensures Whole(ctx.up, Up(ctx, t)) == Whole(ctx, t)
  {
  }

  lemma {:induction false} PlugWhole(ctx: Ctx, t: Tree)
    ensures InOrder(Plug(ctx, t)) == Whole(ctx, t)
    decreases ctx
  {
    if ctx.Top? {
      assert Whole(ctx, t) == InOrder(t);
    } else {
      UpWhole(ctx, t);
      PlugWhole(ctx.up, Up(ctx, t));
    }
  }

  lemma {:induction false} PlugAt(h: Heap, ctx: Ctx, t: Tree, root: Node?)
    requires At(h, ctx, t, root)
    ensures At(h, Top, Plug(ctx, t), root)
    decreases ctx
  {
    if !ctx.Top? {
      MoveUp(h, ctx, t, root);
      PlugAt(h, ctx.up, Up(ctx, t), root);
    }
  }

  lemma {:induction false} InOrderNodes(t: Tree)
    ensures (set x | x in InOrder(t)) == Nodes(t)
  {
    if t.T? {
      InOrderNodes(t.l);
      InOrderNodes(t.r);
      forall x ensures x in InOrder(t) <==> x in Nodes(t) {
        assert x in InOrder(t) <==> x in InOrder(t.l) || x == t.n || x in InOrder(t.r);
        assert x in Nodes(t.l) <==> x in (set y | y in InOrder(t.l));
        assert x in Nodes(t.r) <==> x in (set y | y in InOrder(t.r));
      }
    }
  }

  // ---------- colours ----------

  ghost predicate IsRed(t: Tree) {
    t.T? && t.c.Red?
  }

  ghost function BlackHeight(t: Tree): nat {
    if t.Leaf? then 0 else BlackHeight(t.l) + if t.c.Black? then 1 else 0
  }

  /** No red node has a red child, and every way down meets the same number of black nodes. */
  ghost predicate Balanced(t: Tree) {
    t.T? ==>
      && Balanced(t.l) && Balanced(t.r)
      && BlackHeight(t.l) == BlackHeight(t.r)
      && (t.c.Red? ==> !IsRed(t.l) && !IsRed(t.r))
  }

  ghost function Sibling(ctx: Ctx): Tree
    requires !ctx.Top?
  {
    if ctx.L? then ctx.r else ctx.l
  }

  /**
   * Filled with a black-rooted balanced tree of black height `k`, this context is a balanced tree with a black
   * root.
   */
  ghost predicate Fits(ctx: Ctx, k: nat) {
    !ctx.Top? ==>
      && Balanced(Sibling(ctx)) && BlackHeight(Sibling(ctx)) == k
      && (ctx.c.Red? ==> !IsRed(Sibling(ctx)) && !ctx.up.Top? && ctx.up.c.Black?)
      && Fits(ctx.up, k + if ctx.c.Black? then 1 else 0)
  }

  lemma {:induction false} PlugBalanced(ctx: Ctx, t: Tree)
    requires Balanced(t) && Fits(ctx, BlackHeight(t))
    requires IsRed(t) ==> ctx.Top? || ctx.c.Black?
    ensures Balanced(Plug(ctx, t))
    ensures IsRed(Plug(ctx, t)) ==> ctx.Top? && IsRed(t)
    decreases ctx
  {
    if !ctx.Top? {
      PlugBalanced(ctx.up, Up(ctx, t));
    }
  }

  // ---------- turning and recolouring ----------

  lemma Reassociate(a: seq<Node>, x: Node, b: seq<Node>, y: Node, c: seq<Node>)
    ensures (a + [x] + b) + [y] + c == a + [x] + (b + [y] + c)
  {
  }

  lemma TurnOrder(t: Tree)
    requires t.T?
    ensures t.r.T? ==> InOrder(RotL(t)) == InOrder(t)
    ensures t.l.T? ==> InOrder(RotR(t)) == InOrder(t)
  {
    if t.r.T? {
      Reassociate(InOrder(t.l), t.n, InOrder(t.r.l), t.r.n, InOrder(t.r.r));
    }
    if t.l.T? {
      Reassociate(InOrder(t.l.l), t.l.n, InOrder(t.l.r), t.n, InOrder(t.r));
    }
  }

  lemma Blacken(t: Tree)
    requires t.T? && Balanced(t.l) && Balanced(t.r) && BlackHeight(t.l) == BlackHeight(t.r)
    ensures Balanced(t.(c := Black)) && InOrder(t.(c := Black)) == InOrder(t)
    ensures BlackHeight(t.(c := Black)) == BlackHeight(t) + if IsRed(t) then 1 else 0
  {
  }

  /** A black node with two red children: the colours change places. */
  ghost function Flipped(t: Tree): Tree
    requires t.T? && t.l.T? && t.r.T?
  {
    T(t.l.(c := Black), t.n, Red, t.r.(c := Black))
  }

  /** The root turned red and its left, or right, child black. */
  ghost function Pushed(t: Tree, left: bool): Tree
    requires t.T? && (if left then t.l.T? else t.r.T?)
  {
    if left then T(t.l.(c := Black), t.n, Red, t.r) else T(t.l, t.n, Red, t.r.(c := Black))
  }

  // ---------- insertion ----------

  /** The state of the insertion loop: all is well but for the red root of `t`, whose parent may be red too. */
  ghost predicate Inserting(ctx: Ctx, t: Tree) {
    Balanced(t) && IsRed(t) && Fits(ctx, BlackHeight(t))
  }

  ghost predicate RedAbove(ctx: Ctx) {
    !ctx.Top? && ctx.c.Red?
  }

  lemma InsertFlipped(ctx: Ctx, t: Tree)
    requires Inserting(ctx, t) && RedAbove(ctx) && IsRed(Sibling(ctx.up))
    ensures var G := Up(ctx.up, Up(ctx, t));
      G.l.T? && G.r.T? && Inserting(ctx.up.up, Flipped(G)) && Whole(ctx.up.up, Flipped(G)) == Whole(ctx, t)
  {
    UpWhole(ctx, t);
    UpWhole(ctx.up, Up(ctx, t));
    assert Fits(ctx.up, BlackHeight(t));
    Blacken(Up(ctx, t));
    Blacken(Sibling(ctx.up));
  }

  /** What stands around a red violation. */
  lemma FitsAbove(ctx: Ctx, k: nat)
    requires RedAbove(ctx) && Fits(ctx, k)
    ensures !ctx.up.Top? && Balanced(Sibling(ctx.up)) && BlackHeight(Sibling(ctx.up)) == k
    ensures Fits(ctx.up.up, k + 1)
  {
    assert Fits(ctx.up, k);
  }

  lemma RedJoin(l: Tree, n: Node, r: Tree)
    requires Balanced(l) && Balanced(r) && BlackHeight(l) == BlackHeight(r) && !IsRed(l) && !IsRed(r)
    ensures Balanced(T(l, n, Red, r)) && BlackHeight(T(l, n, Red, r)) == BlackHeight(l)
  {
  }

  lemma FitsBlack(up: Ctx, n: Node, s: Tree, k: nat)
    requires Balanced(s) && BlackHeight(s) == k && Fits(up, k + 1)
    ensures Fits(L(up, n, Black, s), k) && Fits(R(up, s, n, Black), k)
  {
  }

  /** The end of the insertion loop below a left child: turn, recolour, turn. */
  lemma InsertTurnedLeft(ctx: Ctx, t: Tree, A: Tree, m: Node, B: Tree)
    requires Inserting(ctx, t) && RedAbove(ctx) && ctx.up.L? && !IsRed(ctx.up.r)
    requires InOrder(T(A, m, Red, B)) == InOrder(Up(ctx, t))
    requires IsRed(A) && Balanced(A) && Balanced(B) && BlackHeight(A) == BlackHeight(t) == BlackHeight(B) && !IsRed(B)
    ensures var ctx' := L(ctx.up.up, m, Black, T(B, ctx.up.n, Red, ctx.up.r));
      Inserting(ctx', A) && Whole(ctx', A) == Whole(ctx, t)
  {
    ColoursTurnedRight(ctx, BlackHeight(t), A, m, B);
    WholeTurnedRight(ctx, t, A, m, B);
  }

  lemma ColoursTurnedRight(ctx: Ctx, k: nat, A: Tree, m: Node, B: Tree)
    requires RedAbove(ctx) && Fits(ctx, k) && ctx.up.L? && !IsRed(ctx.up.r)
    requires IsRed(A) && Balanced(A) && BlackHeight(A) == k && Balanced(B) && BlackHeight(B) == k && !IsRed(B)
    ensures Inserting(L(ctx.up.up, m, Black, T(B, ctx.up.n, Red, ctx.up.r)), A)
  {
    FitsAbove(ctx, k);
    RedJoin(B, ctx.up.n, ctx.up.r);
    FitsBlack(ctx.up.up, m, T(B, ctx.up.n, Red, ctx.up.r), k);
  }

  lemma WholeTurnedRight(ctx: Ctx, t: Tree, A: Tree, m: Node, B: Tree)
    requires !ctx.Top? && ctx.up.L? && InOrder(T(A, m, Red, B)) == InOrder(Up(ctx, t))
    ensures Whole(L(ctx.up.up, m, Black, T(B, ctx.up.n, Red, ctx.up.r)), A) == Whole(ctx, t)
  {
    UpWhole(ctx, t);
    UpWhole(ctx.up, Up(ctx, t));
    UpWhole(L(ctx.up.up, m, Black, T(B, ctx.up.n, Red, ctx.up.r)), A);
    SameTurnedRight(Up(ctx.up, Up(ctx, t)), A, m, B);
  }

  lemma SameTurnedRight(G: Tree, A: Tree, m: Node, B: Tree)
    requires G.T? && InOrder(T(A, m, Red, B)) == InOrder(G.l)
    ensures InOrder(T(A, m, Black, T(B, G.n, Red, G.r))) == InOrder(G)
  {
  }

  /** The same below a right child. */
  lemma InsertTurnedRight(ctx: Ctx, t: Tree, A: Tree, m: Node, B: Tree)
    requires Inserting(ctx, t) && RedAbove(ctx) && ctx.up.R? && !IsRed(ctx.up.l)
    requires InOrder(T(B, m, Red, A)) == InOrder(Up(ctx, t))
    requires IsRed(A) && Balanced(A) && Balanced(B) && BlackHeight(A) == BlackHeight(t) == BlackHeight(B) && !IsRed(B)
    ensures var ctx' := R(ctx.up.up, T(ctx.up.l, ctx.up.n, Red, B), m, Black);
      Inserting(ctx', A) && Whole(ctx', A) == Whole(ctx, t)
  {
    ColoursTurnedLeft(ctx, BlackHeight(t), A, m, B);
    WholeTurnedLeft(ctx, t, A, m, B);
  }

  lemma ColoursTurnedLeft(ctx: Ctx, k: nat, A: Tree, m: Node, B: Tree)
    requires RedAbove(ctx) && Fits(ctx, k) && ctx.up.R? && !IsRed(ctx.up.l)
    requires IsRed(A) && Balanced(A) && BlackHeight(A) == k && Balanced(B) && BlackHeight(B) == k && !IsRed(B)
    ensures Inserting(R(ctx.up.up, T(ctx.up.l, ctx.up.n, Red, B), m, Black), A)
  {
    FitsAbove(ctx, k);
    RedJoin(ctx.up.l, ctx.up.n, B);
    FitsBlack(ctx.up.up, m, T(ctx.up.l, ctx.up.n, Red, B), k);
  }

  lemma WholeTurnedLeft(ctx: Ctx, t: Tree, A: Tree, m: Node, B: Tree)
    requires !ctx.Top? && ctx.up.R? && InOrder(T(B, m, Red, A)) == InOrder(Up(ctx, t))
    ensures Whole(R(ctx.up.up, T(ctx.up.l, ctx.up.n, Red, B), m, Black), A) == Whole(ctx, t)
  {
    UpWhole(ctx, t);
    UpWhole(ctx.up, Up(ctx, t));
    UpWhole(R(ctx.up.up, T(ctx.up.l, ctx.up.n, Red, B), m, Black), A);
    SameTurnedLeft(Up(ctx.up, Up(ctx, t)), A, m, B);
  }

  lemma SameTurnedLeft(G: Tree, A: Tree, m: Node, B: Tree)
    requires G.T? && InOrder(T(B, m, Red, A)) == InOrder(G.r)
    ensures InOrder(T(T(G.l, G.n, Red, B), m, Black, A)) == InOrder(G)
  {
  }

  lemma PlugInserting(ctx: Ctx, t: Tree)
    requires Inserting(ctx, t) && !RedAbove(ctx)
    ensures Plug(ctx, t).T? && Balanced(Plug(ctx, t)) && Balanced(Plug(ctx, t).(c := Black))
    ensures InOrder(Plug(ctx, t).(c := Black)) == Whole(ctx, t)
  {
    PlugBalanced(ctx, t);
    PlugWhole(ctx, t);
    PlugTop(ctx, t);
    Blacken(Plug(ctx, t));
  }

  lemma {:induction false} PlugTop(ctx: Ctx, t: Tree)
    requires t.T? || !ctx.Top?
    ensures Plug(ctx, t).T?
    decreases ctx
  {
    if !ctx.Top? {
      PlugTop(ctx.up, Up(ctx, t));
    }
  }

  // ---------- erasure ----------

  /**
   * The state of the erasing loop: every way through the hole is one black node short,
   * and the root of `t` may be red, under a red parent or over red children.
   */
  ghost predicate Erasing(ctx: Ctx, t: Tree) {
    && (t.T? ==> Balanced(t.l) && Balanced(t.r) && BlackHeight(t.l) == BlackHeight(t.r))
    && Fits(ctx, BlackHeight(t) + 1)
  }

  /** A black node short on the left of `p`, whose other child `o` is red: turned so that `o` stands above `p`. */
  lemma RedSiblingOnRight(ctx: Ctx, t: Tree)
    requires Erasing(ctx, t) && ctx.L? && IsRed(ctx.r)
    ensures var ctx' := L(L(ctx.up, ctx.r.n, Black, ctx.r.r), ctx.n, Red, ctx.r.l);
      Erasing(ctx', t) && Whole(ctx', t) == Whole(ctx, t) && !IsRed(ctx'.r) && ctx.c.Black?
  {
    var ctx1 := L(ctx.up, ctx.r.n, Black, ctx.r.r);
    var ctx' := L(ctx1, ctx.n, Red, ctx.r.l);
    UpWhole(ctx, t);
    UpWhole(ctx', t);
    UpWhole(ctx1, Up(ctx', t));
    Reassociate(InOrder(t), ctx.n, InOrder(ctx.r.l), ctx.r.n, InOrder(ctx.r.r));
    assert Balanced(ctx.r.l) && Balanced(ctx.r.r);
  }

  /** The sibling and its children are black: it is painted red, and the whole subtree is short. */
  lemma BlackSiblingOnRight(ctx: Ctx, t: Tree)
    requires Erasing(ctx, t) && !IsRed(t) && ctx.L? && !IsRed(ctx.r)
    ensures ctx.r.T?
    ensures !IsRed(ctx.r.l) && !IsRed(ctx.r.r) ==>
      var t' := T(t, ctx.n, ctx.c, ctx.r.(c := Red));
      Erasing(ctx.up, t') && Whole(ctx.up, t') == Whole(ctx, t)
  {
    UpWhole(ctx, t);
    assert Balanced(ctx.r);
    if !IsRed(ctx.r.l) && !IsRed(ctx.r.r) {
      var o := ctx.r.(c := Red);
      assert Balanced(o) && InOrder(o) == InOrder(ctx.r);
      assert BlackHeight(T(t, ctx.n, ctx.c, o)) + 1 == BlackHeight(t) + 1 + if ctx.c.Black? then 1 else 0;
    }
  }

  /** The inner child of the sibling is red and the outer one is not: the sibling is turned outwards. */
  lemma InnerRedOnRight(ctx: Ctx, t: Tree)
    requires Erasing(ctx, t) && ctx.L? && ctx.r.T? && !IsRed(ctx.r) && IsRed(ctx.r.l) && !IsRed(ctx.r.r)
    ensures var o := RotR(Pushed(ctx.r, true));
      var ctx' := L(ctx.up, ctx.n, ctx.c, o);
      !IsRed(o) && IsRed(o.r) && Erasing(ctx', t) && Whole(ctx', t) == Whole(ctx, t)
  {
    var o := RotR(Pushed(ctx.r, true));
    assert Balanced(ctx.r) && Balanced(ctx.r.l);
    TurnOrder(Pushed(ctx.r, true));
    assert InOrder(ctx.r.l.(c := Black)) == InOrder(ctx.r.l);
    assert InOrder(o) == InOrder(ctx.r);
    assert Balanced(o.r) && BlackHeight(o) == BlackHeight(ctx.r);
    assert Balanced(o);
    assert Whole(L(ctx.up, ctx.n, ctx.c, o), t) == Whole(ctx, t);
  }

  /** What the last turn of an erasure makes of the parent, its short left child and its right child. */
  ghost function EraseTurnedLeft(ctx: Ctx, t: Tree): Tree
    requires ctx.L? && ctx.r.T? && ctx.r.r.T?
  {
    T(T(t, ctx.n, Black, ctx.r.l), ctx.r.n, ctx.c, ctx.r.r.(c := Black))
  }

  /** The outer child of the sibling is red: one turn makes up for the missing black node. */
  lemma OuterRedOnRight(ctx: Ctx, t: Tree)
    requires Erasing(ctx, t) && !IsRed(t) && ctx.L? && ctx.r.T? && !IsRed(ctx.r) && IsRed(ctx.r.r)
    ensures var q := EraseTurnedLeft(ctx, t);
      Balanced(Plug(ctx.up, q)) && !IsRed(Plug(ctx.up, q)) && InOrder(Plug(ctx.up, q)) == Whole(ctx, t)
  {
    var q := EraseTurnedLeft(ctx, t);
    UpWhole(ctx, t);
    Reassociate(InOrder(t), ctx.n, InOrder(ctx.r.l), ctx.r.n, InOrder(ctx.r.r));
    assert InOrder(T(t, ctx.n, Black, ctx.r.l)) == InOrder(t) + [ctx.n] + InOrder(ctx.r.l);
    PlugWhole(ctx.up, q);
    assert Balanced(ctx.r) && Balanced(ctx.r.r);
    Blacken(ctx.r.r);
    assert Balanced(T(t, ctx.n, Black, ctx.r.l));
    assert Balanced(q);
    assert BlackHeight(q) == BlackHeight(t) + 1 + if ctx.c.Black? then 1 else 0;
    PlugBalanced(ctx.up, q);
  }

  // The mirror image: the hole is a right child.

  lemma RedSiblingOnLeft(ctx: Ctx, t: Tree)
    requires Erasing(ctx, t) && ctx.R? && IsRed(ctx.l)
    ensures var ctx' := R(R(ctx.up, ctx.l.l, ctx.l.n, Black), ctx.l.r, ctx.n, Red);
      Erasing(ctx', t) && Whole(ctx', t) == Whole(ctx, t) && !IsRed(ctx'.l) && ctx.c.Black?
  {
    var ctx1 := R(ctx.up, ctx.l.l, ctx.l.n, Black);
    var ctx' := R(ctx1, ctx.l.r, ctx.n, Red);
    UpWhole(ctx, t);
    UpWhole(ctx', t);
    UpWhole(ctx1, Up(ctx', t));
    Reassociate(InOrder(ctx.l.l), ctx.l.n, InOrder(ctx.l.r), ctx.n, InOrder(t));
    assert Balanced(ctx.l.l) && Balanced(ctx.l.r);
  }

  lemma BlackSiblingOnLeft(ctx: Ctx, t: Tree)
    requires Erasing(ctx, t) && !IsRed(t) && ctx.R? && !IsRed(ctx.l)
    ensures ctx.l.T?
    ensures !IsRed(ctx.l.l) && !IsRed(ctx.l.r) ==>
      var t' := T(ctx.l.(c := Red), ctx.n, ctx.c, t);
      Erasing(ctx.up, t') && Whole(ctx.up, t') == Whole(ctx, t)
  {
    UpWhole(ctx, t);
    assert Balanced(ctx.l);
    if !IsRed(ctx.l.l) && !IsRed(ctx.l.r) {
      var o := ctx.l.(c := Red);
      assert Balanced(o) && InOrder(o) == InOrder(ctx.l);
      assert BlackHeight(T(o, ctx.n, ctx.c, t)) + 1 == BlackHeight(t) + 1 + if ctx.c.Black? then 1 else 0;
    }
  }

  lemma InnerRedOnLeft(ctx: Ctx, t: Tree)
    requires Erasing(ctx, t) && ctx.R? && ctx.l.T? && !IsRed(ctx.l) && IsRed(ctx.l.r) && !IsRed(ctx.l.l)
    ensures var o := RotL(Pushed(ctx.l, false));
      var ctx' := R(ctx.up, o, ctx.n, ctx.c);
      !IsRed(o) && IsRed(o.l) && Erasing(ctx', t) && Whole(ctx', t) == Whole(ctx, t)
  {
    var o := RotL(Pushed(ctx.l, false));
    assert Balanced(ctx.l) && Balanced(ctx.l.r);
    TurnOrder(Pushed(ctx.l, false));
    assert InOrder(ctx.l.r.(c := Black)) == InOrder(ctx.l.r);
    assert InOrder(o) == InOrder(ctx.l);
    assert Balanced(o.l) && BlackHeight(o) == BlackHeight(ctx.l);
    assert Balanced(o);
    assert Whole(R(ctx.up, o, ctx.n, ctx.c), t) == Whole(ctx, t);
  }

  ghost function EraseTurnedRight(ctx: Ctx, t: Tree): Tree
    requires ctx.R? && ctx.l.T? && ctx.l.l.T?
  {
    T(ctx.l.l.(c := Black), ctx.l.n, ctx.c, T(ctx.l.r, ctx.n, Black, t))
  }

  lemma OuterRedOnLeft(ctx: Ctx, t: Tree)
    requires Erasing(ctx, t) && !IsRed(t) && ctx.R? && ctx.l.T? && !IsRed(ctx.l) && IsRed(ctx.l.l)
    ensures var q := EraseTurnedRight(ctx, t);
      Balanced(Plug(ctx.up, q)) && !IsRed(Plug(ctx.up, q)) && InOrder(Plug(ctx.up, q)) == Whole(ctx, t)
  {
    var q := EraseTurnedRight(ctx, t);
    UpWhole(ctx, t);
    Reassociate(InOrder(ctx.l.l), ctx.l.n, InOrder(ctx.l.r), ctx.n, InOrder(t));
    assert InOrder(T(ctx.l.r, ctx.n, Black, t)) == InOrder(ctx.l.r) + [ctx.n] + InOrder(t);
    PlugWhole(ctx.up, q);
    assert Balanced(ctx.l) && Balanced(ctx.l.l);
    Blacken(ctx.l.l);
    assert Balanced(T(ctx.l.r, ctx.n, Black, t));
    assert Balanced(q);
    assert BlackHeight(q) == BlackHeight(t) + 1 + if ctx.c.Black? then 1 else 0;
    PlugBalanced(ctx.up, q);
  }

  // ---------- keys ----------

  ghost predicate Ordered(s: seq<Node>) {
    forall i, j :: 0 <= i < j < |s| ==> s[i].key < s[j].key
  }

  lemma OrderedFocus(ctx: Ctx, t: Tree)
    requires Ordered(Whole(ctx, t)) && t.T?
    ensures forall x :: x in InOrder(t.l) ==> x.key < t.n.key
    ensures forall x :: x in InOrder(t.r) ==> t.n.key < x.key
  {
    var w, a, l, r := Whole(ctx, t), |Before(ctx)|, InOrder(t.l), InOrder(t.r);
    assert w[a + |l|] == t.n;
    forall x | x in l ensures x.key < t.n.key {
      var i :| 0 <= i < |l| && l[i] == x;
      assert w[a + i] == x;
    }
    forall x | x in r ensures t.n.key < x.key {
      var i :| 0 <= i < |r| && r[i] == x;
      assert w[a + |l| + 1 + i] == x;
    }
  }

  /** The hole is where `key` belongs. */
  ghost predicate Brackets(ctx: Ctx, key: int) {
    && (forall x :: x in Before(ctx) ==> x.key < key)
    && (forall x :: x in After(ctx) ==> key < x.key)
  }

  lemma BracketsDown(ctx: Ctx, t: Tree, key: int)
    requires Brackets(ctx, key) && Ordered(Whole(ctx, t)) && t.T?
    ensures key < t.n.key ==> Brackets(L(ctx, t.n, t.c, t.r), key)
    ensures t.n.key < key ==> Brackets(R(ctx, t.l, t.n, t.c), key)
  {
    OrderedFocus(ctx, t);
  }

  // ---------- heights ----------

  ghost function Max(a: nat, b: nat): nat {
    if a < b then b else a
  }

  ghost function Height(t: Tree): nat {
    if t.Leaf? then 0 else 1 + Max(Height(t.l), Height(t.r))
  }

  ghost function Depth(ctx: Ctx): nat {
    if ctx.Top? then 0 else 1 + Depth(ctx.up)
  }

  lemma {:induction false} DepthHeight(ctx: Ctx, t: Tree)
    ensures Depth(ctx) + Height(t) <= Height(Plug(ctx, t))
    decreases ctx
  {
    if !ctx.Top? {
      DepthHeight(ctx.up, Up(ctx, t));
    }
  }

  ghost function Pow2(n: nat): (p: nat)
    ensures p > n
  {
    if n == 0 then 1 else 2 * Pow2(n - 1)
  }

  lemma {:induction false} Pow2Add(a: nat, b: nat)
    ensures Pow2(a + b) == Pow2(a) * Pow2(b)
  {
    if a > 0 {
      Pow2Add(a - 1, b);
      Doubled(Pow2(a - 1), Pow2(b), Pow2(a - 1 + b));
    }
  }

  lemma Doubled(x: nat, y: nat, z: nat)
    requires z == x * y
    ensures 2 * z == (2 * x) * y
  {
  }

  lemma {:induction false} Pow2Mono(a: nat, b: nat)
    requires a <= b
    ensures Pow2(a) <= Pow2(b)
  {
    if a < b {
      Pow2Mono(a, b - 1);
    }
  }

  lemma {:induction false} BlackHeightSize(t: Tree)
    requires Balanced(t)
    ensures Pow2(BlackHeight(t)) <= |InOrder(t)| + 1
  {
    if t.T? {
      BlackHeightSize(t.l);
      BlackHeightSize(t.r);
    }
  }

  lemma {:induction false} HeightBlackHeight(t: Tree)
    requires Balanced(t)
    ensures Height(t) <= 2 * BlackHeight(t) + if IsRed(t) then 1 else 0
  {
    if t.T? {
      HeightBlackHeight(t.l);
      HeightBlackHeight(t.r);
    }
  }

  /** A tree of `n` keys is at most 2 * log2(n + 1) high. */
  lemma {:induction false} HeightBound(t: Tree)
    requires Balanced(t) && !IsRed(t)
    ensures Pow2(Height(t)) <= (|InOrder(t)| + 1) * (|InOrder(t)| + 1)
  {
    var b, n := BlackHeight(t), |InOrder(t)| + 1;
    BlackHeightSize(t);
    HeightBlackHeight(t);
    Pow2Mono(Height(t), b + b);
    Pow2Add(b, b);
    Squares(Pow2(b), n);
  }

  lemma Squares(a: nat, b: nat)
    requires a <= b
    ensures a * a <= b * b
  {
  }

  // ---------- chains: one context put below another ----------

  ghost function Append(chain: Ctx, base: Ctx): Ctx {
    match chain
    case Top => base
    case L(up, n, c, r) => L(Append(up, base), n, c, r)
    case R(up, l, n, c) => R(Append(up, base), l, n, c)
  }

  lemma {:induction false} AppendWhole(chain: Ctx, base: Ctx, t: Tree)
    ensures Whole(Append(chain, base), t) == Before(base) + Whole(chain, t) + After(base)
    decreases chain
  {
    if !chain.Top? {
      AppendWhole(chain.up, base, Up(chain, t));
      UpWhole(chain, t);
      UpWhole(Append(chain, base), t);
    }
  }

  lemma {:induction false} AppendPlug(chain: Ctx, base: Ctx, t: Tree)
    ensures Plug(Append(chain, base), t) == Plug(base, Plug(chain, t))
    decreases chain
  {
    if !chain.Top? {
      AppendPlug(chain.up, base, Up(chain, t));
    }
  }

  lemma {:induction false} AppendAt(h: Heap, chain: Ctx, base: Ctx, t: Tree, root: Node?)
    ensures At(h, Append(chain, base), t, root) <==> At(h, base, Plug(chain, t), root)
    decreases chain
  {
    if !chain.Top? {
      AppendAt(h, chain.up, base, Up(chain, t), root);
      var ctx := Append(chain, base);
      assert Up(ctx, t) == Up(chain, t);
      if At(h, ctx, t, root) {
        MoveUp(h, ctx, t, root);
      }
      if At(h, ctx.up, Up(ctx, t), root) {
        MoveDown(h, ctx.up, Up(ctx, t), root);
      }
    }
  }

  /** Which node stands at the bottom of a chain does not matter to the colours. */
  lemma {:induction false} AppendFits(chain: Ctx, ctx: Ctx, l: Tree, n: Node, n': Node, c: Color, k: nat)
    requires Fits(Append(chain, R(ctx, l, n, c)), k)
    ensures Fits(Append(chain, R(ctx, l, n', c)), k)
    decreases chain
  {
    if !chain.Top? {
      AppendFits(chain.up, ctx, l, n, n', c, k + if chain.c.Black? then 1 else 0);
    }
  }

  // ---------- taking a node out ----------

  lemma {:induction false} UnplugBalanced(ctx: Ctx, t: Tree)
    requires Balanced(Plug(ctx, t)) && !IsRed(Plug(ctx, t))
    ensures Balanced(t) && Fits(ctx, BlackHeight(t))
    ensures IsRed(t) ==> !ctx.Top? && ctx.c.Black?
    decreases ctx
  {
    if !ctx.Top? {
      UnplugBalanced(ctx.up, Up(ctx, t));
    }
  }

  ghost function OnlyChild(t: Tree): Tree
    requires t.T?
  {
    if t.l.Leaf? then t.r else t.l
  }

  /** A node with a missing child gives its place to its other child. */
  lemma RemovedOne(ctx: Ctx, t: Tree)
    requires t.T? && (t.l.Leaf? || t.r.Leaf?) && Balanced(t) && Fits(ctx, BlackHeight(t))
    requires IsRed(t) ==> !ctx.Top? && ctx.c.Black?
    ensures t.c.Black? ==> Erasing(ctx, OnlyChild(t))
    ensures t.c.Red? ==> Balanced(Plug(ctx, OnlyChild(t))) && !IsRed(Plug(ctx, OnlyChild(t)))
  {
    var ch := OnlyChild(t);
    assert Balanced(ch);
    if t.c.Red? {
      PlugBalanced(ctx, ch);
    }
  }

  // ---------- inserting a node ----------

  lemma OrderedInsert(a: seq<Node>, x: Node, b: seq<Node>)
    requires Ordered(a + b) && (forall y :: y in a ==> y.key < x.key) && (forall y :: y in b ==> x.key < y.key)
    ensures Ordered(a + [x] + b)
  {
    var s, s' := a + b, a + [x] + b;
    forall i, j | 0 <= i < j < |s'| ensures s'[i].key < s'[j].key {
      if i != |a| && j != |a| {
        assert s'[i] == s[if i < |a| then i else i - 1] && s'[j] == s[if j < |a| then j else j - 1];
      }
    }
  }

  lemma OrderedRemove(a: seq<Node>, x: Node, b: seq<Node>)
    requires Ordered(a + [x] + b)
    ensures Ordered(a + b)
    ensures (forall y :: y in a ==> y.key < x.key) && (forall y :: y in b ==> x.key < y.key)
  {
    var s, s' := a + [x] + b, a + b;
    assert s[|a|] == x;
    forall y | y in a ensures y.key < x.key {
      var i :| 0 <= i < |a| && a[i] == y;
      assert s[i] == y;
    }
    forall y | y in b ensures x.key < y.key {
      var i :| 0 <= i < |b| && b[i] == y;
      assert s[|a| + 1 + i] == y;
    }
    forall i, j | 0 <= i < j < |s'| ensures s'[i].key < s'[j].key {
      assert s'[i] == s[if i < |a| then i else i + 1] && s'[j] == s[if j < |a| then j else j + 1];
    }
  }

  lemma InNodes(t: Tree, x: Node)
    ensures x in Nodes(t) <==> x in InOrder(t)
  {
  }

  /** A bracketed empty hole: the key is nowhere in the tree. */
  lemma Missing(ctx: Ctx, key: int)
    requires Brackets(ctx, key)
    ensures InOrder(Plug(ctx, Leaf)) == Before(ctx) + After(ctx)
    ensures forall x :: x in Nodes(Plug(ctx, Leaf)) ==> x.key != key
  {
    PlugWhole(ctx, Leaf);
    assert Whole(ctx, Leaf) == Before(ctx) + After(ctx);
    forall x | x in Nodes(Plug(ctx, Leaf)) ensures x.key != key {
      InNodes(Plug(ctx, Leaf), x);
    }
  }

  lemma Inserted(ctx: Ctx, x: Node, c: Color, t': Tree)
    requires Brackets(ctx, x.key) && Ordered(InOrder(Plug(ctx, Leaf)))
    requires InOrder(t') == Whole(ctx, T(Leaf, x, c, Leaf))
    ensures InOrder(t') == Before(ctx) + [x] + After(ctx) && Ordered(InOrder(t'))
    ensures Nodes(t') == Nodes(Plug(ctx, Leaf)) + {x}
  {
    assert InOrder(T(Leaf, x, c, Leaf)) == [x];
    Missing(ctx, x.key);
    OrderedInsert(Before(ctx), x, After(ctx));
    InOrderNodes(t');
    InOrderNodes(Plug(ctx, Leaf));
    SetOfInsert(Before(ctx), x, After(ctx));
  }

  lemma SetOfInsert(a: seq<Node>, x: Node, b: seq<Node>)
    ensures (set y | y in a + [x] + b) == (set y | y in a + b) + {x}
  {
  }

  lemma InsertingLeaf(ctx: Ctx, x: Node)
    requires Balanced(Plug(ctx, Leaf)) && !IsRed(Plug(ctx, Leaf))
    ensures Inserting(ctx, T(Leaf, x, Red, Leaf))
  {
    UnplugBalanced(ctx, Leaf);
  }

  lemma Found(ctx: Ctx, t: Tree)
    requires t.T?
    ensures t.n in Nodes(Plug(ctx, t))
  {
    PlugWhole(ctx, t);
    assert t.n in InOrder(t) && t.n in Whole(ctx, t);
    InNodes(Plug(ctx, t), t.n);
  }

  lemma Erased(t: Tree, t': Tree, a: seq<Node>, x: Node, b: seq<Node>)
    requires Ordered(InOrder(t)) && InOrder(t) == a + [x] + b && InOrder(t') == a + b
    ensures Ordered(InOrder(t')) && Nodes(t') == Nodes(t) - {x}
  {
    OrderedRemove(a, x, b);
    InOrderNodes(t);
    InOrderNodes(t');
    SetOfInsert(a, x, b);
    assert x !in a + b;
    assert x !in (set y | y in a + b);
  }

  /** Only left turns. */
  ghost predicate Lefts(chain: Ctx) {
    chain.Top? || (chain.L? && Lefts(chain.up))
  }

  lemma LeftsBefore(chain: Ctx)
    requires Lefts(chain)
    ensures Before(chain) == []
  {
  }

  lemma FrontNode(x: Node, r: seq<Node>, f: seq<Node>)
    ensures [] + ([] + [x] + r) + f == [x] + (r + f) && [] + r + f == r + f
  {
  }

  lemma LeftmostOrder(chain: Ctx, w: Tree)
    requires w.T? && w.l.Leaf? && Lefts(chain)
    ensures InOrder(Plug(chain, w)) == [w.n] + (InOrder(w.r) + After(chain))
    ensures Whole(chain, w.r) == InOrder(w.r) + After(chain)
  {
    LeftsBefore(chain);
    PlugWhole(chain, w);
    assert InOrder(w) == InOrder(w.l) + [w.n] + InOrder(w.r) == [] + [w.n] + InOrder(w.r);
    assert Whole(chain, w) == [] + InOrder(w) + After(chain) == InOrder(w) + After(chain);
    FrontNode(w.n, InOrder(w.r), After(chain));
  }

  /** The leftmost node `w.n` of the right subtree of `t` is taken out and put in the place of `t.n`. */
  lemma SuccessorWhole(ctx: Ctx, t: Tree, chain: Ctx, w: Tree)
    requires t.T? && w.T? && w.l.Leaf? && Lefts(chain) && Plug(chain, w) == t.r
    ensures var a, b := Before(ctx) + InOrder(t.l), [w.n] + Whole(chain, w.r) + After(ctx);
      Whole(ctx, t) == a + [t.n] + b && Whole(Append(chain, R(ctx, t.l, w.n, t.c)), w.r) == a + b
  {
    var a, l, m, f := Before(ctx), InOrder(t.l), Whole(chain, w.r), After(ctx);
    assert InOrder(t.r) == [w.n] + m by {
      LeftmostOrder(chain, w);
    }
    Regroup(a, l, [t.n], [w.n] + m, f);
    AppendWhole(chain, R(ctx, t.l, w.n, t.c), w.r);
    RegroupTail(a + l, [w.n], m, f);
  }

  lemma Regroup(a: seq<Node>, l: seq<Node>, x: seq<Node>, y: seq<Node>, f: seq<Node>)
    ensures a + (l + x + y) + f == (a + l) + x + (y + f)
  {
  }

  lemma RegroupTail(a: seq<Node>, x: seq<Node>, m: seq<Node>, f: seq<Node>)
    ensures (a + x) + m + f == a + (x + m + f)
  {
  }

  lemma SuccessorFits(ctx: Ctx, t: Tree, chain: Ctx, w: Tree)
    requires t.T? && w.T? && Plug(chain, w) == t.r
    requires Balanced(Plug(ctx, t)) && !IsRed(Plug(ctx, t))
    ensures Balanced(w) && Fits(Append(chain, R(ctx, t.l, w.n, t.c)), BlackHeight(w))
    ensures IsRed(w) ==> var k := Append(chain, R(ctx, t.l, w.n, t.c)); !k.Top? && k.c.Black?
  {
    var k := Append(chain, R(ctx, t.l, t.n, t.c));
    AppendPlug(chain, R(ctx, t.l, t.n, t.c), w);
    UnplugBalanced(k, w);
    AppendFits(chain, ctx, t.l, t.n, w.n, t.c, BlackHeight(w));
  }

  lemma {:induction false} AppendNodes(chain: Ctx, base: Ctx, t: Tree)
    ensures CNodes(Append(chain, base)) + Nodes(t) == CNodes(base) + Nodes(Plug(chain, t))
    decreases chain
  {
    if !chain.Top? {
      AppendNodes(chain.up, base, Up(chain, t));
      assert CNodes(Append(chain, base)) + Nodes(t) == CNodes(Append(chain.up, base)) + Nodes(Up(chain, t));
    }
  }

  /** Node `x` is out of the tree, which is `t` in `ctx`; only a black node may be missing in the hole. */
  ghost predicate TakenOut(ctx: Ctx, t: Tree, c: Color) {
    if c.Black? then Erasing(ctx, t) else Balanced(Plug(ctx, t)) && !IsRed(Plug(ctx, t))
  }

  lemma OneOut(ctx: Ctx, t: Tree) returns (a: seq<Node>, b: seq<Node>)
    requires t.T? && (t.l.Leaf? || t.r.Leaf?) && Balanced(Plug(ctx, t)) && !IsRed(Plug(ctx, t))
    ensures TakenOut(ctx, OnlyChild(t), t.c)
    ensures Whole(ctx, t) == a + [t.n] + b && Whole(ctx, OnlyChild(t)) == a + b
  {
    UnplugBalanced(ctx, t);
    RemovedOne(ctx, t);
    if t.l.Leaf? {
      a, b := Before(ctx), InOrder(t.r) + After(ctx);
      assert [] + [t.n] + InOrder(t.r) == [t.n] + InOrder(t.r);
      OneOutLeft(Before(ctx), [t.n], InOrder(t.r), After(ctx));
    } else {
      a, b := Before(ctx) + InOrder(t.l), After(ctx);
      assert InOrder(t.l) + [t.n] + [] == InOrder(t.l) + [t.n];
      OneOutRight(Before(ctx), [t.n], InOrder(t.l), After(ctx));
    }
  }

  lemma OneOutLeft(a: seq<Node>, x: seq<Node>, m: seq<Node>, b: seq<Node>)
    ensures a + (x + m) + b == a + x + (m + b) && a + m + b == a + (m + b)
  {
  }

  lemma OneOutRight(a: seq<Node>, x: seq<Node>, m: seq<Node>, b: seq<Node>)
    ensures a + (m + x) + b == (a + m) + x + b
  {
  }

  lemma TwoOut(ctx: Ctx, t: Tree, chain: Ctx, w: Tree)
    requires t.T? && w.T? && w.l.Leaf? && Lefts(chain) && Plug(chain, w) == t.r
    requires Balanced(Plug(ctx, t)) && !IsRed(Plug(ctx, t))
    ensures TakenOut(Append(chain, R(ctx, t.l, w.n, t.c)), w.r, w.c)
  {
    SuccessorFits(ctx, t, chain, w);
    RemovedOne(Append(chain, R(ctx, t.l, w.n, t.c)), w);
  }
}
