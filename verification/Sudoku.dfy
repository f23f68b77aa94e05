/** The sudoku search: a board is filled cell by cell in reading order, and every wrong step is undone. */
module Sudoku {

  datatype Point = Point(x: nat, y: nat)

  type Board = map<Point, int>

  predicate InGrid(q: Point) {
    q.x < 9 && q.y < 9
  }

  ghost predicate Whole(b: Board) {
    forall q :: InGrid(q) ==> q in b
  }

  predicate SameBox(q: Point, r: Point) {
    q.x / 3 == r.x / 3 && q.y / 3 == r.y / 3
  }

  /** Two different cells that must not hold the same number. */
  predicate Peers(q: Point, r: Point) {
    q != r && (q.x == r.x || q.y == r.y || SameBox(q, r))
  }

  /** No peer of `q` holds `k`. */
  ghost predicate Fits(b: Board, q: Point, k: int)
    requires Whole(b)
  {
    forall r :: InGrid(r) && Peers(q, r) ==> b[r] != k
  }

  predicate Earlier(q: Point, r: Point) {
    q.x < r.x || (q.x == r.x && q.y < r.y)
  }

  /** `cells` are the empty cells of `b` in reading order. */
  ghost predicate EmptyCells(b: Board, cells: seq<Point>) {
    && Whole(b)
    && (forall q :: q in cells ==> InGrid(q) && b[q] == 0)
    && (forall q :: InGrid(q) && b[q] == 0 ==> q in cells)
    && (forall i, j :: 0 <= i < j < |cells| ==> Earlier(cells[i], cells[j]))
  }

  /** The board with the first |f| empty cells filled in. */
  ghost function Fill(b: Board, cells: seq<Point>, f: seq<int>): (c: Board)
    requires |f| <= |cells| && Whole(b)
    ensures Whole(c)
  {
    if f == [] then b
    else
      var n := |f| - 1;
      Fill(b, cells, f[..n])[cells[n] := f[n]]
  }

  lemma {:induction false} FillAt(b: Board, cells: seq<Point>, f: seq<int>, q: Point)
    requires |f| <= |cells| && EmptyCells(b, cells) && InGrid(q)
    ensures (forall i :: 0 <= i < |f| ==> cells[i] != q) ==> Fill(b, cells, f)[q] == b[q]
    ensures forall i :: 0 <= i < |f| && cells[i] == q ==> Fill(b, cells, f)[q] == f[i]
  {
    if f != [] {
      FillAt(b, cells, f[..|f| - 1], q);
    }
  }

  /** Each number fits the board as it stands when the number is written: what the search looks at. */
  ghost predicate Sound(b: Board, cells: seq<Point>, f: seq<int>)
    requires |f| <= |cells| && Whole(b)
  {
    forall i :: 0 <= i < |f| ==> 1 <= f[i] <= 9 && Fits(Fill(b, cells, f[..i]), cells[i], f[i])
  }

  /** A solution: no filled cell conflicts with a clue or with another filled cell. */
  ghost predicate Solves(b: Board, cells: seq<Point>, f: seq<int>)
    requires Whole(b)
  {
    && |f| == |cells|
    && (forall i :: 0 <= i < |f| ==> 1 <= f[i] <= 9)
    && forall i :: 0 <= i < |f| ==> Fits(Fill(b, cells, f), cells[i], f[i])
  }

  lemma CellsApart(b: Board, cells: seq<Point>, i: nat, j: nat)
    requires EmptyCells(b, cells) && i < |cells| && j < |cells| && i != j
    ensures cells[i] != cells[j]
  {
  }

  /** How the board before step `i` and the full board agree. */
  lemma FillEarlier(b: Board, cells: seq<Point>, f: seq<int>, i: nat, r: Point)
    requires EmptyCells(b, cells) && i < |f| == |cells| && InGrid(r)
    ensures b[r] != 0 ==> Fill(b, cells, f[..i])[r] == Fill(b, cells, f)[r]
    ensures (exists j :: 0 <= j < i && cells[j] == r) ==> Fill(b, cells, f[..i])[r] == Fill(b, cells, f)[r]
    ensures b[r] == 0 && (forall j :: 0 <= j < i ==> cells[j] != r) ==> Fill(b, cells, f[..i])[r] == 0
  {
    FillAt(b, cells, f[..i], r);
    FillAt(b, cells, f, r);
  }

  /** Of two peers in the list the later one was tested against the earlier one. */
  lemma LaterFits(b: Board, cells: seq<Point>, f: seq<int>, i: nat, j: nat)
    requires EmptyCells(b, cells) && |f| == |cells| && Sound(b, cells, f)
    requires i < j < |f| && Peers(cells[i], cells[j])
    ensures Fill(b, cells, f)[cells[j]] != f[i]
  {
    FillAt(b, cells, f, cells[j]);
    FillEarlier(b, cells, f, j, cells[i]);
    FillAt(b, cells, f, cells[i]);
    assert Peers(cells[j], cells[i]);
    assert Fits(Fill(b, cells, f[..j]), cells[j], f[j]);
  }

  /** And against what was there before. */
  lemma EarlierFits(b: Board, cells: seq<Point>, f: seq<int>, i: nat, r: Point)
    requires EmptyCells(b, cells) && |f| == |cells| && Sound(b, cells, f) && i < |f| && InGrid(r) && Peers(cells[i], r)
    requires b[r] != 0 || exists j :: 0 <= j < i && cells[j] == r
    ensures Fill(b, cells, f)[r] != f[i]
  {
    FillEarlier(b, cells, f, i, r);
    assert Fits(Fill(b, cells, f[..i]), cells[i], f[i]);
  }

  lemma PeerFits(b: Board, cells: seq<Point>, f: seq<int>, i: nat, r: Point)
    requires EmptyCells(b, cells) && |f| == |cells| && Sound(b, cells, f) && i < |f| && InGrid(r) && Peers(cells[i], r)
    ensures Fill(b, cells, f)[r] != f[i]
  {
    if b[r] != 0 {
      EarlierFits(b, cells, f, i, r);
    } else {
      var j :| 0 <= j < |cells| && cells[j] == r;
      if j < i {
        EarlierFits(b, cells, f, i, r);
      } else {
        LaterFits(b, cells, f, i, j);
      }
    }
  }

  /** One conflict of the full board shows at one of the two cells while it is being filled. */
  lemma SoundSolves(b: Board, cells: seq<Point>, f: seq<int>)
    requires EmptyCells(b, cells) && |f| == |cells| && Sound(b, cells, f)
    ensures Solves(b, cells, f)
  {
    forall i | 0 <= i < |f| ensures Fits(Fill(b, cells, f), cells[i], f[i]) {
      forall r | InGrid(r) && Peers(cells[i], r) ensures Fill(b, cells, f)[r] != f[i] {
        PeerFits(b, cells, f, i, r);
      }
    }
  }

  lemma SolvesSound(b: Board, cells: seq<Point>, f: seq<int>)
    requires EmptyCells(b, cells) && Solves(b, cells, f)
    ensures Sound(b, cells, f)
  {
    forall i | 0 <= i < |f| ensures Fits(Fill(b, cells, f[..i]), cells[i], f[i]) {
      assert Fits(Fill(b, cells, f), cells[i], f[i]);
      forall r | InGrid(r) && Peers(cells[i], r) ensures Fill(b, cells, f[..i])[r] != f[i] {
        FillEarlier(b, cells, f, i, r);
      }
    }
  }

  /** The step-by-step test accepts exactly the solutions. */
  lemma SoundIffSolves(b: Board, cells: seq<Point>, f: seq<int>)
    requires EmptyCells(b, cells) && |f| == |cells|
    ensures Sound(b, cells, f) <==> Solves(b, cells, f)
  {
    if Sound(b, cells, f) {
      SoundSolves(b, cells, f);
    }
    if Solves(b, cells, f) {
      SolvesSound(b, cells, f);
    }
  }

  /** `g` is `h` or has the smaller number at the first cell where they differ. */
  ghost predicate LexLe(g: seq<int>, h: seq<int>) {
    g == h || exists i :: 0 <= i < |g| && i < |h| && g[..i] == h[..i] && g[i] < h[i]
  }

  /** Of two fillings that agree up to a cell the one with the smaller number there comes first. */
  lemma SmallerFirst(f: seq<int>, j: int, k: int, x: seq<int>, y: seq<int>)
    requires j < k
    ensures LexLe(f + [j] + x, f + [k] + y) && !LexLe(f + [k] + y, f + [j] + x)
  {
    var g, h, n := f + [j] + x, f + [k] + y, |f|;
    assert g[..n] == f == h[..n] && g[n] == j && h[n] == k;
    forall i | 0 <= i < |h| && i < |g| ensures !(h[..i] == g[..i] && h[i] < g[i]) {
      if i < n {
        assert h[i] == f[i] == g[i];
      } else if i > n {
        assert h[..i][n] == k && g[..i][n] == j;
      }
    }
  }

  /** Cells are listed row by row and each row from left to right. */
  lemma ReadingOrder(q: Point, r: Point)
    requires InGrid(q) && InGrid(r)
    ensures Earlier(q, r) <==> 9 * q.x + q.y < 9 * r.x + r.y
  {
  }

  /** `h` is a full filling that starts with `f` and passes the step-by-step test. */
  ghost predicate Completes(b: Board, cells: seq<Point>, f: seq<int>, h: seq<int>)
    requires Whole(b)
  {
    |h| == |cells| && f <= h && Sound(b, cells, h)
  }

  /** `g` is the first of them. */
  ghost predicate FirstOf(b: Board, cells: seq<Point>, f: seq<int>, g: seq<int>)
    requires Whole(b)
  {
    Completes(b, cells, f, g) && forall h :: Completes(b, cells, f, h) ==> LexLe(g, h)
  }

  ghost predicate Hopeless(b: Board, cells: seq<Point>, f: seq<int>)
    requires Whole(b)
  {
    forall h :: !Completes(b, cells, f, h)
  }

  /** All completions of `f` have at least `k` in the next cell. */
  ghost predicate NoneBelow(b: Board, cells: seq<Point>, f: seq<int>, k: int)
    requires Whole(b) && |f| < |cells|
  {
    forall h :: Completes(b, cells, f, h) ==> h[|f|] >= k
  }

  lemma PrefixNext(f: seq<int>, h: seq<int>)
    requires f <= h && |f| < |h|
    ensures h[..|f|] == f && f + [h[|f|]] <= h
  {
  }

  /** A completion of `f` with `k` next completes f + [k], and `k` fits. */
  lemma CompletesMore(b: Board, cells: seq<Point>, f: seq<int>, h: seq<int>)
    requires Whole(b) && |f| < |cells| && Completes(b, cells, f, h)
    ensures Completes(b, cells, f + [h[|f|]], h) && Fits(Fill(b, cells, f), cells[|f|], h[|f|])
  {
    PrefixNext(f, h);
    var n := |f|;
    assert 1 <= h[n] <= 9 && Fits(Fill(b, cells, h[..n]), cells[n], h[n]);
  }

  lemma NextRuledOut(b: Board, cells: seq<Point>, f: seq<int>, k: int)
    requires Whole(b) && |f| < |cells| && NoneBelow(b, cells, f, k)
    requires !Fits(Fill(b, cells, f), cells[|f|], k) || Hopeless(b, cells, f + [k])
    ensures NoneBelow(b, cells, f, k + 1)
  {
    forall h | Completes(b, cells, f, h) ensures h[|f|] >= k + 1 {
      CompletesMore(b, cells, f, h);
    }
  }

  lemma FirstFound(b: Board, cells: seq<Point>, f: seq<int>, k: int, g: seq<int>)
    requires Whole(b) && |f| < |cells| && NoneBelow(b, cells, f, k) && FirstOf(b, cells, f + [k], g)
    ensures FirstOf(b, cells, f, g)
  {
    forall h | Completes(b, cells, f, h) ensures LexLe(g, h) {
      assert g[..|f|] == f == h[..|f|];
      CompletesMore(b, cells, f, h);
      if h[|f|] != k {
        assert g[|f|] < h[|f|];
      }
    }
  }

  lemma NoneLeft(b: Board, cells: seq<Point>, f: seq<int>)
    requires Whole(b) && |f| < |cells| && NoneBelow(b, cells, f, 10)
    ensures Hopeless(b, cells, f)
  {
  }

  lemma NextIsEmpty(b: Board, cells: seq<Point>, f: seq<int>)
    requires EmptyCells(b, cells) && |f| < |cells|
    ensures Fill(b, cells, f)[cells[|f|]] == 0
  {
    FillAt(b, cells, f, cells[|f|]);
    forall i | 0 <= i < |f| ensures cells[i] != cells[|f|] {
      CellsApart(b, cells, i, |f|);
    }
  }

  lemma FillMore(b: Board, cells: seq<Point>, f: seq<int>, k: int)
    requires Whole(b) && |f| < |cells|
    ensures Fill(b, cells, f + [k]) == Fill(b, cells, f)[cells[|f|] := k]
  {
  }

  lemma SoundMore(b: Board, cells: seq<Point>, f: seq<int>, k: int)
    requires Whole(b) && |f| < |cells| && Sound(b, cells, f)
    requires 1 <= k <= 9 && Fits(Fill(b, cells, f), cells[|f|], k)
    ensures Sound(b, cells, f + [k])
  {
    var g := f + [k];
    forall i | 0 <= i < |g| ensures 1 <= g[i] <= 9 && Fits(Fill(b, cells, g[..i]), cells[i], g[i]) {
      if i < |f| {
        assert g[..i] == f[..i];
      } else {
        assert g[..i] == f;
      }
    }
  }

  // ---------- the rule of the game ----------

  /** A row, a column, a box, each of nine cells. */
  datatype Line = Row(i: nat) | Column(i: nat) | Box(i: nat, j: nat) {
    predicate Valid() {
      if Box? then i < 3 && j < 3 else i < 9
    }

    function Cell(k: nat): Point {
      match this
      case Row(i) => Point(i, k)
      case Column(i) => Point(k, i)
      case Box(i, j) => Point(3 * i + k / 3, 3 * j + k % 3)
    }
  }

  lemma LineOfPeers(u: Line, j: nat, k: nat)
    requires u.Valid() && j < 9 && k < 9 && j != k
    ensures InGrid(u.Cell(j)) && Peers(u.Cell(j), u.Cell(k))
  {
    var d, e := j / 3, k / 3;
    assert j == 3 * d + j % 3 && k == 3 * e + k % 3;
    if u.Box? {
      assert (3 * u.i + d) / 3 == u.i == (3 * u.i + e) / 3;
      assert (3 * u.j + j % 3) / 3 == u.j == (3 * u.j + k % 3) / 3;
    }
  }

  /** Two cells are peers exactly when they are different cells of one row, one column or one box. */
  lemma PeersShareLine(q: Point, r: Point)
    requires InGrid(q) && InGrid(r)
    ensures Peers(q, r) <==> q != r && exists u: Line :: u.Valid() && q in CellsOf(u) && r in CellsOf(u)
  {
    if Peers(q, r) {
      var u := if q.x == r.x then Row(q.x) else if q.y == r.y then Column(q.y) else Box(q.x / 3, q.y / 3);
      InCells(u, q);
      InCells(u, r);
    }
    forall u: Line | u.Valid() && q in CellsOf(u) && r in CellsOf(u) && q != r ensures Peers(q, r) {
      var j: nat :| j < 9 && u.Cell(j) == q;
      var k: nat :| k < 9 && u.Cell(k) == r;
      LineOfPeers(u, j, k);
    }
  }

  function CellsOf(u: Line): seq<Point> {
    seq(9, k requires 0 <= k < 9 => u.Cell(k))
  }

  /** Where a cell stands in its row, its column and its box. */
  lemma InCells(u: Line, q: Point)
    requires u.Valid() && InGrid(q)
    requires u == Row(q.x) || u == Column(q.y) || u == Box(q.x / 3, q.y / 3)
    ensures q in CellsOf(u)
  {
    var k := if u.Row? then q.y else if u.Column? then q.x else q.x % 3 * 3 + q.y % 3;
    BoxPlace(q.x % 3, q.y % 3);
    assert u.Cell(k) == q;
    assert CellsOf(u)[k] == q;
  }

  lemma BoxPlace(i: nat, j: nat)
    requires i < 3 && j < 3
    ensures (i * 3 + j) / 3 == i && (i * 3 + j) % 3 == j && i * 3 + j < 9
  {
  }

  /** A board as the game wants it: numbers from 1 to 9, nine different ones in every row, column and box. */
  ghost predicate Rule(g: Board) {
    && Whole(g)
    && (forall q :: InGrid(q) ==> 1 <= g[q] <= 9)
    && forall u: Line, j: nat, k: nat :: u.Valid() && j < k < 9 ==> Differ(g, u.Cell(j), u.Cell(k))
  }

  ghost predicate Differ(g: Board, q: Point, r: Point) {
    q in g && r in g && g[q] != g[r]
  }

  /** `g` has the clues of `b`. */
  ghost predicate Agrees(b: Board, g: Board) {
    Whole(b) && Whole(g) && forall q :: InGrid(q) && b[q] != 0 ==> g[q] == b[q]
  }

  /** No row, column or box has a clue twice. */
  ghost predicate Consistent(b: Board) {
    && Whole(b)
    && (forall q :: InGrid(q) ==> 0 <= b[q] <= 9)
    && forall u: Line, j: nat, k: nat :: u.Valid() && j < k < 9 ==> Once(b, u.Cell(j), u.Cell(k))
  }

  ghost predicate Once(b: Board, q: Point, r: Point) {
    q in b && r in b && (b[q] != 0 ==> b[q] != b[r])
  }

  lemma RulePeers(g: Board, q: Point, r: Point)
    requires Rule(g) && InGrid(q) && InGrid(r) && Peers(q, r)
    ensures g[q] != g[r]
  {
    PeersShareLine(q, r);
    var u: Line :| u.Valid() && q in CellsOf(u) && r in CellsOf(u);
    var j: nat :| j < 9 && u.Cell(j) == q;
    var k: nat :| k < 9 && u.Cell(k) == r;
    assert j < k ==> Differ(g, u.Cell(j), u.Cell(k));
    assert k < j ==> Differ(g, u.Cell(k), u.Cell(j));
  }

  /** No two peers of the board hold the same number. */
  ghost predicate NoConflict(c: Board)
    requires Whole(c)
  {
    forall q, r :: InGrid(q) && InGrid(r) && Peers(q, r) && c[q] != 0 ==> c[q] != c[r]
  }

  /** If the clues do not conflict among themselves, the filled board does not either. */
  lemma SolvedBoard(b: Board, cells: seq<Point>, f: seq<int>)
    requires EmptyCells(b, cells) && Solves(b, cells, f) && NoConflict(b)
    ensures NoConflict(Fill(b, cells, f)) && forall q :: InGrid(q) ==> Fill(b, cells, f)[q] != 0
  {
    var c := Fill(b, cells, f);
    forall q | InGrid(q) ensures c[q] != 0 && (b[q] != 0 ==> c[q] == b[q]) {
      FillAt(b, cells, f, q);
    }
    forall q, r | InGrid(q) && InGrid(r) && Peers(q, r) ensures c[q] != c[r] {
      FillAt(b, cells, f, q);
      FillAt(b, cells, f, r);
      assert Peers(r, q);
      if b[q] == 0 {
        var i :| 0 <= i < |cells| && cells[i] == q;
        assert Fits(c, cells[i], f[i]);
      } else if b[r] == 0 {
        var i :| 0 <= i < |cells| && cells[i] == r;
        assert Fits(c, cells[i], f[i]);
      }
    }
  }

  /** The numbers of `g` in the cells of the list. */
  ghost function NumbersAt(g: Board, cells: seq<Point>): (f: seq<int>)
    requires Whole(g) && forall q :: q in cells ==> InGrid(q)
    ensures |f| == |cells| && forall i :: 0 <= i < |f| ==> f[i] == g[cells[i]]
  {
    seq(|cells|, i requires 0 <= i < |cells| => g[cells[i]])
  }

  /** Every board as the game wants it that has the clues is reached by filling in the empty cells. */
  lemma RuleSolves(b: Board, cells: seq<Point>, g: Board)
    requires EmptyCells(b, cells) && Agrees(b, g) && Rule(g)
    ensures Solves(b, cells, NumbersAt(g, cells))
    ensures forall q :: InGrid(q) ==> Fill(b, cells, NumbersAt(g, cells))[q] == g[q]
  {
    var f := NumbersAt(g, cells);
    var c := Fill(b, cells, f);
    forall q | InGrid(q) ensures c[q] == g[q] {
      FillAt(b, cells, f, q);
      if b[q] == 0 {
        var i :| 0 <= i < |cells| && cells[i] == q;
      }
    }
    forall i | 0 <= i < |f| ensures Fits(c, cells[i], f[i]) {
      forall r | InGrid(r) && Peers(cells[i], r) ensures c[r] != f[i] {
        RulePeers(g, cells[i], r);
      }
    }
  }

  lemma ConsistentClues(b: Board)
    requires Consistent(b)
    ensures NoConflict(b)
  {
    forall q, r | InGrid(q) && InGrid(r) && Peers(q, r) && b[q] != 0 ensures b[q] != b[r] {
      PeersShareLine(q, r);
      var u: Line :| u.Valid() && q in CellsOf(u) && r in CellsOf(u);
      var j: nat :| j < 9 && u.Cell(j) == q;
      var k: nat :| k < 9 && u.Cell(k) == r;
      assert j < k ==> Once(b, u.Cell(j), u.Cell(k));
      assert k < j ==> Once(b, u.Cell(k), u.Cell(j));
    }
  }

  /** And a solution of consistent clues is such a board. */
  lemma SolvesRule(b: Board, cells: seq<Point>, f: seq<int>)
    requires EmptyCells(b, cells) && Solves(b, cells, f) && Consistent(b)
    ensures Agrees(b, Fill(b, cells, f)) && Rule(Fill(b, cells, f))
  {
    var c := Fill(b, cells, f);
    ConsistentClues(b);
    SolvedBoard(b, cells, f);
    forall q | InGrid(q) ensures 1 <= c[q] <= 9 && (b[q] != 0 ==> c[q] == b[q]) {
      FillAt(b, cells, f, q);
    }
    forall u: Line, j: nat, k: nat | u.Valid() && j < k < 9 ensures Differ(c, u.Cell(j), u.Cell(k)) {
      LineOfPeers(u, j, k);
      LineOfPeers(u, k, j);
    }
  }

  class Solver {
    const p: array<Point>
    const grid: array2<int>
    var num: nat
    var flag: bool

    constructor ()
      ensures Ready() && fresh(p) && fresh(grid)
    {
      p := new Point[81](_ => Point(0, 0));
      grid := new int[10, 10]((_, _) => 0);
      num, flag := 0, false;
    }

    ghost predicate Shows(b: Board)
      reads grid
    {
      grid.Length0 == 10 && grid.Length1 == 10 && Whole(b) && forall q :: InGrid(q) ==> grid[q.x, q.y] == b[q]
    }

    /** The list of empty cells is that of `b`. */
    ghost predicate Listed(b: Board)
      reads this, p
    {
      num <= p.Length == 81 && EmptyCells(b, p[..num])
    }

    /**
     * Whether `k` may go into cell `q`.  The last test leaves out the cell `q` itself in the first box only, because it
     * compares offsets within the box with coordinates; an empty cell is not affected.
     */
    method Judge(q: Point, k: int, ghost b: Board) returns (ok: bool)
      requires Shows(b) && InGrid(q)
      ensures ok <==> Fits(b, q, k) && (b[q] == k ==> q.x < 3 && q.y < 3)
    {
      var i := 0;
      while i < 9
        invariant 0 <= i <= 9
        invariant forall r :: InGrid(r) && r != q && ((r.x == q.x && r.y < i) || (r.y == q.y && r.x < i)) ==> b[r] != k
      {
        if i != q.y && grid[q.x, i] == k {
          assert Peers(q, Point(q.x, i)) && InGrid(Point(q.x, i));
          return false;
        }
        if i != q.x && grid[i, q.y] == k {
          assert Peers(q, Point(i, q.y)) && InGrid(Point(i, q.y));
          return false;
        }
        i := i + 1;
      }
      ok := BoxClear(q, k, b);
    }

    /**
     * Above the row of `x` and, in it, before `y`, no cell of the box of `q` holds `k`, but for `q` itself when the
     * source does not look at it.
     */
    ghost predicate ClearBefore(q: Point, k: int, b: Board, x: nat, y: nat)
      requires Whole(b)
    {
      forall r :: InGrid(r) && SameBox(q, r) && b[r] == k && (r.x < x || (r.x == x && r.y < y)) ==> Skipped(q, r)
    }

    /** Where the comparison of offsets with coordinates leaves a cell out. */
    static ghost predicate Skipped(q: Point, r: Point) {
      r == q && q.x < 3 && q.y < 3
    }

    static lemma BoxCell(q: Point, i: nat, j: nat)
      requires InGrid(q) && i < 3 && j < 3
      ensures InGrid(Point(q.x / 3 * 3 + i, q.y / 3 * 3 + j)) && SameBox(q, Point(q.x / 3 * 3 + i, q.y / 3 * 3 + j))
      ensures i == q.x && j == q.y ==> Skipped(q, Point(q.x / 3 * 3 + i, q.y / 3 * 3 + j))
    {
    }

    lemma ClearNext(q: Point, k: int, b: Board, x: nat, y: nat)
      requires Whole(b) && ClearBefore(q, k, b, x, y) && InGrid(Point(x, y))
      requires b[Point(x, y)] == k ==> Skipped(q, Point(x, y))
      ensures ClearBefore(q, k, b, x, y + 1)
    {
    }

    lemma ClearRow(q: Point, k: int, b: Board, x: nat, y: nat)
      requires Whole(b) && y == q.y / 3 * 3 && ClearBefore(q, k, b, x, y + 3)
      ensures ClearBefore(q, k, b, x + 1, y)
    {
      forall r | InGrid(r) && SameBox(q, r) && b[r] == k && (r.x < x + 1 || (r.x == x + 1 && r.y < y))
        ensures Skipped(q, r)
      {
        assert y <= r.y < y + 3;
      }
    }

    /** All that holds `k` in the box of `q` is what is left out. */
    ghost predicate ClearBox(q: Point, k: int, b: Board)
      requires Whole(b)
    {
      forall r :: InGrid(r) && SameBox(q, r) && b[r] == k ==> Skipped(q, r)
    }

    lemma ClearAll(q: Point, k: int, b: Board, x: nat, y: nat)
      requires Whole(b) && x == q.x / 3 * 3 && y == q.y / 3 * 3
      ensures ClearBefore(q, k, b, x, y)
      ensures ClearBefore(q, k, b, x + 3, y) ==> ClearBox(q, k, b)
    {
      assert forall r :: InGrid(r) && SameBox(q, r) ==> x <= r.x < x + 3 && y <= r.y;
    }

    /** What the test of one cell tells. */
    lemma CellTells(q: Point, k: int, b: Board, x: nat, y: nat, i: nat, j: nat)
      requires InGrid(q) && i < 3 && j < 3 && x == q.x / 3 * 3 && y == q.y / 3 * 3
      requires Whole(b) && ClearBefore(q, k, b, x + i, y + j)
      ensures InGrid(Point(x + i, y + j))
      ensures if b[Point(x + i, y + j)] == k && (i != q.x || j != q.y) then !ClearBox(q, k, b)
              else ClearBefore(q, k, b, x + i, y + j + 1)
    {
      var r := Point(x + i, y + j);
      BoxCell(q, i, j);
      if b[r] == k && (i != q.x || j != q.y) {
        assert !Skipped(q, r);
      } else {
        ClearNext(q, k, b, x + i, y + j);
      }
    }

    method BoxClear(q: Point, k: int, ghost b: Board) returns (ok: bool)
      requires Shows(b) && InGrid(q)
      ensures ok <==> ClearBox(q, k, b)
    {
      var x, y := q.x / 3 * 3, q.y / 3 * 3;
      ClearAll(q, k, b, x, y);
      for i := 0 to 3
        invariant ClearBefore(q, k, b, x + i, y)
      {
        for j := 0 to 3
          invariant ClearBefore(q, k, b, x + i, y + j)
        {
          CellTells(q, k, b, x, y, i, j);
          if grid[x + i, y + j] == k && (i != q.x || j != q.y) {
            return false;
          }
        }
        ClearRow(q, k, b, x + i, y);
      }
      ok := true;
    }

    method Write(q: Point, k: int, ghost b: Board, ghost cells: seq<Point>, ghost f: seq<int>)
      requires EmptyCells(b, cells) && |f| < |cells| && q == cells[|f|] && Shows(Fill(b, cells, f))
      modifies grid
      ensures Shows(Fill(b, cells, f + [k]))
    {
      assert InGrid(q);
      grid[q.x, q.y] := k;
      FillMore(b, cells, f, k);
    }

    method Erase(q: Point, ghost k: int, ghost b: Board, ghost cells: seq<Point>, ghost f: seq<int>)
      requires EmptyCells(b, cells) && |f| < |cells| && q == cells[|f|] && Shows(Fill(b, cells, f + [k]))
      modifies grid
      ensures Shows(Fill(b, cells, f))
    {
      assert InGrid(q);
      grid[q.x, q.y] := 0;
      FillMore(b, cells, f, k);
      NextIsEmpty(b, cells, f);
    }

    /**
     * One turn of the loop of the search: `k` is tried in cell `n`, and taken back if it does not lead to a
     * solution.
     */
    method Try(n: nat, k: int, ghost b: Board, ghost f: seq<int>) returns (ghost g: seq<int>)
      requires Listed(b) && |f| == n < num && Sound(b, p[..num], f) && 1 <= k <= 9
      requires Shows(Fill(b, p[..num], f)) && !flag
      modifies grid, `flag
      ensures flag ==> FirstOf(b, p[..num], f + [k], g) && Shows(Fill(b, p[..num], g))
      ensures !flag ==> Shows(Fill(b, p[..num], f))
                        && (Hopeless(b, p[..num], f + [k]) || !Fits(Fill(b, p[..num], f), p[n], k))
      decreases num - n, 0
    {
      g := f;
      NextIsEmpty(b, p[..num], f);
      var ok := Judge(p[n], k, Fill(b, p[..num], f));
      if ok {
        SoundMore(b, p[..num], f, k);
        Write(p[n], k, b, p[..num], f);
        g := Dfs(n + 1, b, f + [k]);
        if !flag {
          Erase(p[n], k, b, p[..num], f);
        }
      }
    }

    /**
     * The search.  It stops at the first completion of `f` in reading order, with the board filled in, or it finds that
     * there is none and leaves the board as it was.
     */
    method Dfs(n: nat, ghost b: Board, ghost f: seq<int>) returns (ghost g: seq<int>)
      requires Listed(b) && |f| == n <= num && Sound(b, p[..num], f)
      requires Shows(Fill(b, p[..num], f)) && !flag
      modifies grid, `flag
      ensures flag ==> FirstOf(b, p[..num], f, g) && Shows(Fill(b, p[..num], g))
      ensures !flag ==> Hopeless(b, p[..num], f) && Shows(Fill(b, p[..num], f))
      decreases num - n, 1
    {
      g := f;
      if n == num {
        flag := true;
        return;
      }
      var i := 1;
      while i < 10
        invariant 1 <= i <= 10 && !flag && Shows(Fill(b, p[..num], f)) && NoneBelow(b, p[..num], f, i)
      {
        g := Try(n, i, b, f);
        if flag {
          FirstFound(b, p[..num], f, i, g);
          return;
        }
        NextRuledOut(b, p[..num], f, i);
        i := i + 1;
      }
      NoneLeft(b, p[..num], f);
    }

    // ---------- reading a puzzle ----------

    /** The cells before `q` in reading order are read: the board shows them and the empty ones are listed. */
    ghost predicate Read(b: Board, q: Point)
      reads this, p, grid
    {
      && num <= p.Length == 81 && grid.Length0 == 10 && grid.Length1 == 10 && Whole(b)
      && num <= q.x * 9 + q.y
      && (forall r :: InGrid(r) && Earlier(r, q) ==> grid[r.x, r.y] == b[r])
      && (forall i :: 0 <= i < num ==> InGrid(p[i]) && Earlier(p[i], q) && b[p[i]] == 0)
      && (forall r :: InGrid(r) && Earlier(r, q) && b[r] == 0 ==> r in p[..num])
      && forall i, j :: 0 <= i < j < num ==> Earlier(p[i], p[j])
    }

    method Place(q: Point, k: int, ghost b: Board)
      requires InGrid(q) && Read(b, q) && b[q] == k
      modifies this`num, p, grid
      ensures Read(b, Point(q.x, q.y + 1))
    {
      ghost var cells := p[..num];
      if k == 0 {
        p[num] := q;
        num := num + 1;
        assert p[..num] == cells + [q];
      }
      grid[q.x, q.y] := k;
      assert forall r :: Earlier(r, Point(q.x, q.y + 1)) <==> Earlier(r, q) || r == q;
      assert forall i :: 0 <= i < |cells| ==> p[i] == cells[i] && Earlier(cells[i], q);
    }

    lemma NextRow(b: Board, x: nat)
      requires Read(b, Point(x, 9))
      ensures Read(b, Point(x + 1, 0))
    {
    }

    ghost predicate Ready()
    {
      p.Length == 81 && grid.Length0 == 10 && grid.Length1 == 10
    }

    /** `digits` are the 81 numbers of `b` in reading order, 0 for an empty cell. */
    ghost predicate Input(digits: seq<int>, b: Board) {
      |digits| == 81 && Whole(b) && forall q :: InGrid(q) ==> b[q] == digits[q.x * 9 + q.y]
    }

    method LoadRow(digits: seq<int>, i: nat, ghost b: Board)
      requires Ready() && Input(digits, b) && i < 9 && Read(b, if i == 0 then Point(0, 1) else Point(i, 0))
      modifies this`num, p, grid
      ensures Read(b, Point(i, 9))
    {
      for j := 0 to 9
        invariant Read(b, if i == 0 && j == 0 then Point(0, 1) else Point(i, j))
      {
        if i != 0 || j != 0 {
          Place(Point(i, j), digits[i * 9 + j], b);
        }
      }
    }

    method Load(digits: seq<int>, ghost b: Board)
      requires Ready() && Input(digits, b)
      modifies this, p, grid
      ensures !flag && Listed(b) && Shows(b)
    {
      num, flag := 0, false;
      Place(Point(0, 0), digits[0], b);
      for i := 0 to 9
        invariant !flag && Read(b, if i == 0 then Point(0, 1) else Point(i, 0))
      {
        LoadRow(digits, i, b);
        NextRow(b, i);
      }
      assert forall r :: InGrid(r) ==> Earlier(r, Point(9, 0));
    }

    /** One puzzle: it is solved exactly when it can be, and left alone otherwise. */
    method Puzzle(digits: seq<int>, ghost b: Board) returns (ghost cells: seq<Point>, ghost g: seq<int>)
      requires Ready() && Input(digits, b)
      modifies this, p, grid
      ensures EmptyCells(b, cells)
      ensures flag <==> exists f :: Solves(b, cells, f)
      ensures flag ==> Solves(b, cells, g) && Shows(Fill(b, cells, g))
      ensures flag ==> forall f :: Solves(b, cells, f) ==> LexLe(g, f)
      ensures !flag ==> Shows(b) && forall s: Board :: Agrees(b, s) ==> !Rule(s)
      ensures flag && Consistent(b) ==> exists s: Board :: Agrees(b, s) && Rule(s) && Shows(s)
    {
      Load(digits, b);
      cells := p[..num];
      g := Dfs(0, b, []);
      forall f | |f| == |cells| ensures Completes(b, cells, [], f) <==> Solves(b, cells, f) {
        SoundIffSolves(b, cells, f);
      }
      forall s: Board | Agrees(b, s) && Rule(s) ensures flag {
        RuleSolves(b, cells, s);
        assert Completes(b, cells, [], NumbersAt(s, cells));
      }
      if flag && Consistent(b) {
        SolvesRule(b, cells, g);
      }
    }
  }

  // ---------- what a solved board looks like ----------

  ghost predicate Distinct(s: seq<int>, n: nat) {
    (forall i :: 0 <= i < |s| ==> 1 <= s[i] <= n) && forall i, j :: 0 <= i < j < |s| ==> s[i] != s[j]
  }

  lemma {:induction false} Pigeonhole(s: seq<int>, n: nat)
    requires Distinct(s, n)
    ensures |s| <= n
  {
    assert s != [] ==> 1 <= s[0] <= n;
    if n > 0 {
      if i :| 0 <= i < |s| && s[i] == n {
        Pigeonhole(s[..i] + s[i + 1..], n - 1);
      } else {
        Pigeonhole(s, n - 1);
      }
    }
  }

  /** Nine different numbers from 1 to 9 are all of them. */
  lemma NineOfNine(s: seq<int>, k: int)
    requires |s| == 9 && Distinct(s, 9) && 1 <= k <= 9
    ensures k in s
  {
    if k !in s {
      assert Distinct(s + [k], 9);
      Pigeonhole(s + [k], 9);
    }
  }

  /** The rule of the game: a solved board has every number from 1 to 9 in every row, column and box. */
  lemma SolvedLine(b: Board, cells: seq<Point>, f: seq<int>, u: Line, k: int)
    requires EmptyCells(b, cells) && Solves(b, cells, f) && NoConflict(b)
    requires forall q :: InGrid(q) ==> 0 <= b[q] <= 9
    requires u.Valid() && 1 <= k <= 9
    ensures exists j: nat :: j < 9 && InGrid(u.Cell(j)) && Fill(b, cells, f)[u.Cell(j)] == k
  {
    var c := Fill(b, cells, f);
    SolvedBoard(b, cells, f);
    forall j: nat | j < 9 ensures InGrid(u.Cell(j)) && 1 <= c[u.Cell(j)] <= 9 {
      LineOfPeers(u, j, if j == 8 then 7 else 8);
      FillAt(b, cells, f, u.Cell(j));
    }
    var s := seq(9, j requires 0 <= j < 9 => c[u.Cell(j)]);
    forall i, j | 0 <= i < j < 9 ensures s[i] != s[j] {
      LineOfPeers(u, i, j);
    }
    NineOfNine(s, k);
    var j :| 0 <= j < 9 && s[j] == k;
  }
}
