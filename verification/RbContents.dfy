/** The tree as a dictionary, over any run of insertions and erasures. */
module RbContents {
  import opened KeyOrder
  import opened RbHeap
  import opened RbShape
  import opened RbDictionary

  /** The keys of the nodes, each with its data. */
  ghost function Contents(s: seq<Node>): map<int, int> {
    if s == [] then map[] else Contents(s[1..])[s[0].key := s[0].data]
  }

  lemma {:induction false} ContentsKeys(s: seq<Node>, key: int)
    ensures key in Contents(s) <==> exists x :: x in s && x.key == key
  {
    if s != [] {
      ContentsKeys(s[1..], key);
      assert s == [s[0]] + s[1..];
    }
  }

  lemma {:induction false} ContentsData(s: seq<Node>, x: Node)
    requires Ordered(s) && x in s
    ensures x.key in Contents(s) && Contents(s)[x.key] == x.data
  {
    if x != s[0] {
      assert s == [s[0]] + s[1..];
      var i :| 0 <= i < |s| && s[i] == x;
      ContentsData(s[1..], x);
    }
  }

  lemma {:induction false} ContentsWith(a: seq<Node>, x: Node, b: seq<Node>)
    requires Ordered(a + [x] + b)
    ensures Contents(a + [x] + b) == Contents(a + b)[x.key := x.data]
  {
    var s := a + [x] + b;
    if a == [] {
      assert s[1..] == b && a + b == b;
    } else {
      var y, a' := a[0], a[1..];
      assert s[1..] == a' + [x] + b && (a + b)[1..] == a' + b;
      assert s[0] == y && s[|a|] == x;
      ContentsWith(a', x, b);
    }
  }

  lemma NotWithout(a: seq<Node>, x: Node, b: seq<Node>)
    requires Ordered(a + [x] + b)
    ensures x.key !in Contents(a + b)
  {
    OrderedRemove(a, x, b);
    ContentsKeys(a + b, x.key);
  }

  /** What taking `x` out does to the dictionary. */
  lemma Without(v: seq<Node>, w: seq<Node>, a: seq<Node>, x: Node, b: seq<Node>)
    requires Ordered(v) && v == a + [x] + b && w == a + b
    ensures Contents(w) == Contents(v) - {x.key}
  {
    ContentsWith(a, x, b);
    NotWithout(a, x, b);
  }

  lemma KeyInTree(t: Tree, key: int)
    requires Ordered(InOrder(t))
    ensures (exists x :: x in Nodes(t) && x.key == key) <==> key in Contents(InOrder(t))
  {
    ContentsKeys(InOrder(t), key);
    InOrderNodes(t);
    assert forall x :: x in Nodes(t) <==> x in (set y | y in InOrder(t));
  }

  /** `rb_insert` keeps what is there. */
  function Put(m: map<int, int>, key: int, data: int): map<int, int> {
    if key in m then m else m[key := data]
  }

  datatype Op = InsertOp(key: int, data: int) | EraseOp(key: int)

  function Apply(m: map<int, int>, op: Op): map<int, int> {
    match op
    case InsertOp(key, data) => Put(m, key, data)
    case EraseOp(key) => m - {key}
  }

  function Outcome(ops: seq<Op>): map<int, int> {
    if ops == [] then map[] else Apply(Outcome(ops[..|ops| - 1]), ops[|ops| - 1])
  }

  method InsertKey(key: int, data: int, root: Node?, ghost S: set<Node>, ghost t: Tree)
    returns (root': Node?, ghost S': set<Node>, ghost t': Tree)
    requires IsTree(S, t, root) && PathFits(t, key)
    modifies S
    ensures IsTree(S', t', root') && fresh(S' - S) && forall x :: x in S' - S ==> x.key == key
    ensures Contents(InOrder(t')) == Put(Contents(InOrder(t)), key, data)
  {
    ghost var a, b;
    root', S', t', a, b := Insert(key, data, root, S, t);
    KeyInTree(t, key);
    if key !in Contents(InOrder(t)) {
      ghost var x :| x in S' - S && S' == S + {x} && x.key == key && x.data == data && InOrder(t') == a + [x] + b;
      ContentsWith(a, x, b);
    }
  }

  method EraseKey(key: int, root: Node?, ghost S: set<Node>, ghost t: Tree)
    returns (root': Node?, ghost S': set<Node>, ghost t': Tree)
    requires IsTree(S, t, root) && PathFits(t, key)
    modifies S
    ensures IsTree(S', t', root') && S' <= S
    ensures Contents(InOrder(t')) == Contents(InOrder(t)) - {key}
  {
    ghost var a, b;
    root', S', t', a, b := Erase(key, root, S, t);
    KeyInTree(t, key);
    if key in Contents(InOrder(t)) {
      ghost var x :| x in S && x.key == key && InOrder(t) == a + [x] + b && InOrder(t') == a + b;
      Without(InOrder(t), InOrder(t'), a, x, b);
    }
  }

  method Search(key: int, root: Node?, ghost S: set<Node>, ghost t: Tree) returns (node: Node?, ghost steps: nat)
    requires IsTree(S, t, root) && PathFits(t, key)
    ensures node != null <==> key in Contents(InOrder(t))
    ensures node != null ==> node in S && node.key == key && node.data == Contents(InOrder(t))[key]
    ensures Pow2(steps) <= (|InOrder(t)| + 1) * (|InOrder(t)| + 1)
  {
    var save;
    ghost var ctx, u;
    node, save, ctx, u, steps := SearchAuxiliary(key, root, S, t);
    Pow2Mono(steps, Height(t));
    HeightBound(t);
    KeyInTree(t, key);
    if node == null {
      Missing(ctx, key);
    } else {
      Found(ctx, u);
      InNodes(t, node);
      ContentsData(InOrder(t), node);
    }
  }

  function KeyOf(op: Op): int {
    op.key
  }

  /** The keys of the dictionary lie within 2^31 of `key`. */
  ghost predicate Near(m: map<int, int>, key: int) {
    forall k :: k in m ==> IsInt32(k - key)
  }

  /** Each key of the run is near the keys that are in the dictionary when its turn comes. */
  ghost predicate KeysNear(ops: seq<Op>) {
    forall i :: 0 <= i < |ops| ==> Near(Outcome(ops[..i]), KeyOf(ops[i]))
  }

  lemma NearFits(t: Tree, key: int)
    requires Ordered(InOrder(t)) && Near(Contents(InOrder(t)), key)
    ensures PathFits(t, key)
  {
    forall x | x in Nodes(t) ensures IsInt32(x.key - key) {
      KeyInTree(t, x.key);
    }
    CloseKeysFit(t, key);
  }

  lemma OutcomeNext(ops: seq<Op>, i: nat)
    requires i < |ops|
    ensures Outcome(ops[..i + 1]) == Apply(Outcome(ops[..i]), ops[i])
  {
    assert ops[..i + 1][..i] == ops[..i];
  }

  method Execute(op: Op, root: Node?, ghost S: set<Node>, ghost t: Tree)
    returns (root': Node?, ghost S': set<Node>, ghost t': Tree)
    requires IsTree(S, t, root) && PathFits(t, KeyOf(op))
    modifies S
    ensures IsTree(S', t', root') && fresh(S' - S)
    ensures Contents(InOrder(t')) == Apply(Contents(InOrder(t)), op)
  {
    match op
    case InsertOp(key, data) =>
      root', S', t' := InsertKey(key, data, root, S, t);
    case EraseOp(key) =>
      root', S', t' := EraseKey(key, root, S, t);
  }

  /** Any run of insertions and erasures, from the empty tree. */
  method Run(ops: seq<Op>) returns (root: Node?, ghost S: set<Node>, ghost t: Tree)
    requires KeysNear(ops)
    ensures IsTree(S, t, root) && fresh(S)
    ensures Contents(InOrder(t)) == Outcome(ops)
  {
    root, S, t := null, {}, Leaf;
    for i := 0 to |ops|
      invariant IsTree(S, t, root) && fresh(S)
      invariant Contents(InOrder(t)) == Outcome(ops[..i])
    {
      OutcomeNext(ops, i);
      NearFits(t, KeyOf(ops[i]));
      root, S, t := Execute(ops[i], root, S, t);
    }
    assert ops[..|ops|] == ops;
  }

  /** After any run the search finds exactly the keys that the run leaves, each with the data it was inserted with. */
  method RunAndSearch(ops: seq<Op>, key: int) returns (node: Node?)
    requires KeysNear(ops) && Near(Outcome(ops), key)
    ensures node != null <==> key in Outcome(ops)
    ensures node != null ==> node.key == key && node.data == Outcome(ops)[key]
  {
    var root;
    ghost var S, t, steps;
    root, S, t := Run(ops);
    NearFits(t, key);
    node, steps := Search(key, root, S, t);
  }
}
