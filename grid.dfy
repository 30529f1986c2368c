/** Geometry of the square mine field: cells, the grid-clipped 3x3 block around a
    cell, row-major order, counting facts, and the flood predicates (FloodClosed,
    FloodChain with Reached, FloodFrom) that describe what a flood reveal opens.
    Everything here is a pure value; the engine in minefield.dfy reads its
    arrays into these sets. */
module Grid {

  /** A cell as (row, column): the first index is the row, the second the column. */
  type Cell = (int, int)

  predicate InGrid(n: int, x: int, y: int) {
    0 <= x < n && 0 <= y < n
  }

  /** The cells of the first r rows of a grid with n columns. */
  function Rect(r: int, n: int): set<Cell> {
    set x, y | 0 <= x < r && 0 <= y < n :: (x, y)
  }

  /** All cells of an n-by-n grid. */
  function Cells(n: int): (cells: set<Cell>)
    ensures forall p :: p in cells <==> InGrid(n, p.0, p.1)
  {
    Rect(n, n)
  }

  /** The cells of row x among the first n columns. */
  function Row(x: int, n: int): set<Cell> {
    set y | 0 <= y < n :: (x, y)
  }

  /** The 3x3 block centred on (x, y), clipped to the n-by-n grid: the cells that
      both the neighbour count and the flood reveal visit. It contains (x, y). */
  function Around(n: int, x: int, y: int): set<Cell> {
    set p | p in Cells(n) && x - 1 <= p.0 <= x + 1 && y - 1 <= p.1 <= y + 1
  }

  /** Row-major order: the order in which the nested loops visit cells. */
  predicate Before(p: Cell, q: Cell) {
    p.0 < q.0 || (p.0 == q.0 && p.1 < q.1)
  }

  lemma RowSplit(x: int, n: nat)
    requires n > 0
    ensures Row(x, n) == Row(x, n - 1) + {(x, n - 1)}
    ensures (x, n - 1) !in Row(x, n - 1)
  {
  }

  lemma {:induction false} RowCard(x: int, n: nat)
    ensures |Row(x, n)| == n
  {
    if n > 0 {
      RowCard(x, n - 1);
      RowSplit(x, n);
    } else {
      assert Row(x, n) == {};
    }
  }

  lemma RectSplit(r: nat, n: nat)
    requires r > 0
    ensures Rect(r, n) == Rect(r - 1, n) + Row(r - 1, n)
    ensures Rect(r - 1, n) !! Row(r - 1, n)
  {
  }

  lemma {:induction false} RectCard(r: nat, n: nat)
    ensures |Rect(r, n)| == r * n
  {
    if r > 0 {
      RectCard(r - 1, n);
      RowCard(r - 1, n);
      RectSplit(r, n);
      assert (r - 1) * n + n == r * n;
    } else {
      assert Rect(r, n) == {};
    }
  }

  /** An n-by-n grid has n*n cells. */
  lemma CellsCard(n: nat)
    ensures |Cells(n)| == n * n
  {
    RectCard(n, n);
  }

  lemma SubsetCard(a: set<Cell>, b: set<Cell>)
    requires a <= b
    ensures |a| <= |b|
  {
    assert b == a + (b - a);
  }

  /** While fewer than n*n cells of the grid are mined, some cell of the grid is free:
      the reason why placing at most n*n mines by picking free cells terminates. */
  lemma FreeCellExists(mines: set<Cell>, n: nat)
    requires mines <= Cells(n)
    requires |mines| < n * n
    ensures exists p :: p in Cells(n) && p !in mines
  {
    CellsCard(n);
    if Cells(n) <= mines {
      SubsetCard(Cells(n), mines);
    }
  }

  /** A cell of the grid lies in its own block, and the block holds at most nine
      cells, so at most eight neighbours besides the centre. */
  lemma AroundCard(n: int, x: int, y: int)
    requires InGrid(n, x, y)
    ensures (x, y) in Around(n, x, y)
    ensures |Around(n, x, y) - {(x, y)}| <= 8
  {
    var others := {(x - 1, y - 1), (x - 1, y), (x - 1, y + 1),
                   (x, y - 1), (x, y + 1),
                   (x + 1, y - 1), (x + 1, y), (x + 1, y + 1)};
    assert |others| <= 8;
    assert Around(n, x, y) - {(x, y)} <= others;
    SubsetCard(Around(n, x, y) - {(x, y)}, others);
  }

  /** What a recount stores in cell (x, y) that held v: a mine (-1) stays a
      mine, any other value becomes the number of cells of `ms` in its block. */
  function Recount(ms: set<Cell>, n: int, x: int, y: int, v: int): int {
    if v == -1 then -1 else |ms * Around(n, x, y)|
  }

  /** 1 when p is a grid cell in `ms`, else 0: what one step of a counting
      scan adds to its counter. */
  function Hit(ms: set<Cell>, n: int, p: Cell): nat {
    if InGrid(n, p.0, p.1) && p in ms then 1 else 0
  }

  /** The value of a scan's running counter after visiting the cells of s in
      order: the cells of s that lie in the grid and belong to `ms`. */
  function CountIn(ms: set<Cell>, n: int, s: seq<Cell>): nat {
    if |s| == 0 then 0 else CountIn(ms, n, s[..|s| - 1]) + Hit(ms, n, s[|s| - 1])
  }

  /** p, when it is a grid cell. */
  function Pick(n: int, p: Cell): set<Cell> {
    if InGrid(n, p.0, p.1) then {p} else {}
  }

  /** The grid cells among the cells of s. */
  function GridSet(n: int, s: seq<Cell>): set<Cell> {
    if |s| == 0 then {} else GridSet(n, s[..|s| - 1]) + Pick(n, s[|s| - 1])
  }

  predicate Distinct(s: seq<Cell>) {
    forall i, j :: 0 <= i < j < |s| ==> s[i] != s[j]
  }

  lemma {:induction false} GridSetMembers(n: int, s: seq<Cell>)
    ensures forall p :: p in GridSet(n, s) <==> p in s && InGrid(n, p.0, p.1)
  {
    if |s| > 0 {
      GridSetMembers(n, s[..|s| - 1]);
      assert s == s[..|s| - 1] + [s[|s| - 1]];
    }
  }

  /** Counting a set that grows by one cell c. */
  lemma CountStep(ms: set<Cell>, s: set<Cell>, c: Cell)
    requires c !in s
    ensures |ms * (s + {c})| == |ms * s| + (if c in ms then 1 else 0)
  {
    if c in ms {
      assert ms * (s + {c}) == (ms * s) + {c};
    } else {
      assert ms * (s + {c}) == ms * s;
    }
  }

  /** A scan over cells that are pairwise different counts exactly the members
      of `ms` among the grid cells it visits. */
  lemma {:induction false} CountInSet(ms: set<Cell>, n: int, s: seq<Cell>)
    requires Distinct(s)
    ensures CountIn(ms, n, s) == |ms * GridSet(n, s)|
  {
    if |s| > 0 {
      var t, p := s[..|s| - 1], s[|s| - 1];
      CountInSet(ms, n, t);
      GridSetMembers(n, t);
      assert p !in t;
      if InGrid(n, p.0, p.1) {
        CountStep(ms, GridSet(n, t), p);
      }
    }
  }

  /** Visiting one more cell of s adds that cell's contribution to the counter. */
  lemma CountPrefixStep(ms: set<Cell>, n: int, s: seq<Cell>, k: int)
    requires 0 <= k < |s|
    ensures CountIn(ms, n, s[..k + 1]) == CountIn(ms, n, s[..k]) + Hit(ms, n, s[k])
  {
    assert s[..k + 1][..k] == s[..k];
  }

  /** The nine positions of the 3x3 block around (x, y), unclipped, in the
      row-major order of the nested counting loops. */
  function BlockSeq(x: int, y: int): (s: seq<Cell>)
    ensures |s| == 9
  {
    seq(9, k => (x - 1 + k / 3, y - 1 + k % 3))
  }

  /** Row offset r and column offset c of the block sit at position 3r + c. */
  lemma BlockSeqAt(x: int, y: int, r: int, c: int)
    requires 0 <= r < 3 && 0 <= c < 3
    ensures BlockSeq(x, y)[3 * r + c] == (x - 1 + r, y - 1 + c)
  {
  }

  /** The grid cells that the block scan visits, each once, are the clipped block. */
  lemma BlockSeqAround(n: int, x: int, y: int)
    ensures Distinct(BlockSeq(x, y))
    ensures GridSet(n, BlockSeq(x, y)) == Around(n, x, y)
  {
    var s := BlockSeq(x, y);
    GridSetMembers(n, s);
    forall p | p in Around(n, x, y)
      ensures p in s
    {
      BlockSeqAt(x, y, p.0 - x + 1, p.1 - y + 1);
    }
  }

  /** A complete scan of the block counts the members of `ms` in the clipped block. */
  lemma BlockCountAround(ms: set<Cell>, n: int, x: int, y: int)
    ensures CountIn(ms, n, BlockSeq(x, y)[..9]) == |ms * Around(n, x, y)|
  {
    var s := BlockSeq(x, y);
    assert s[..9] == s;
    BlockSeqAround(n, x, y);
    CountInSet(ms, n, s);
  }

  /** Every uncovered cell that has no mined neighbour has left none of its
      neighbours hidden: "if a field is not adjacent to a mine, reveal all
      adjacent fields as well". */
  ghost predicate FloodClosed(n: int, uncovered: set<Cell>, zeros: set<Cell>, hidden: set<Cell>) {
    forall p :: p in uncovered && p in zeros ==> Around(n, p.0, p.1) !! hidden
  }

  /** An opening order: every cell after the first lies in the block of a zero
      cell uncovered before it. This is how the recursion of a reveal reaches
      cells: it descends from a cell only when that cell's count is zero. */
  ghost predicate FloodChain(n: int, order: seq<Cell>, zeros: set<Cell>) {
    forall k :: 0 < k < |order| ==> Reached(n, order, zeros, k)
  }

  /** order[k] lies in the block of a zero cell that comes before it in order. */
  ghost predicate Reached(n: int, order: seq<Cell>, zeros: set<Cell>, k: int)
    requires 0 <= k < |order|
  {
    exists j :: 0 <= j < k && order[j] in zeros && order[k] in Around(n, order[j].0, order[j].1)
  }

  /** The cells `uncovered` are those of an opening order that starts at `origin`. */
  ghost predicate FloodFrom(n: int, uncovered: set<Cell>, zeros: set<Cell>, origin: Cell) {
    exists order :: FloodChain(n, order, zeros) && |order| >= 1 && order[0] == origin &&
      forall p :: p in order <==> p in uncovered
  }

  /** A chain started in the block of the zero origin of another chain extends it. */
  lemma ChainAppend(n: int, a: seq<Cell>, b: seq<Cell>, zeros: set<Cell>)
    requires FloodChain(n, a, zeros) && FloodChain(n, b, zeros)
    requires |a| >= 1 && a[0] in zeros
    requires |b| > 0 ==> b[0] in Around(n, a[0].0, a[0].1)
    ensures FloodChain(n, a + b, zeros)
  {
    var c := a + b;
    forall k | 0 < k < |c|
      ensures Reached(n, c, zeros, k)
    {
      if k < |a| {
        assert Reached(n, a, zeros, k);
        var j :| 0 <= j < k && a[j] in zeros && a[k] in Around(n, a[j].0, a[j].1);
        assert c[j] == a[j] && c[k] == a[k];
      } else if k == |a| {
        assert c[0] == a[0] && c[k] == b[0];
      } else {
        assert Reached(n, b, zeros, k - |a|);
        var j :| 0 <= j < k - |a| && b[j] in zeros && b[k - |a|] in Around(n, b[j].0, b[j].1);
        assert c[j + |a|] == b[j] && c[k] == b[k - |a|];
      }
    }
  }

  /** A flood from a cell whose count is not zero opens that cell alone. */
  lemma NumberedOriginAlone(n: int, uncovered: set<Cell>, zeros: set<Cell>, origin: Cell)
    requires FloodFrom(n, uncovered, zeros, origin)
    requires origin !in zeros
    ensures uncovered == {origin}
  {
    var order: seq<Cell> :| FloodChain(n, order, zeros) && |order| >= 1 && order[0] == origin &&
      forall p :: p in order <==> p in uncovered;
    assert |order| > 1 ==> !Reached(n, order, zeros, 1);
    assert |order| == 1;
    forall p | p in uncovered
      ensures p == origin
    {
      var k :| 0 <= k < |order| && order[k] == p;
    }
  }

  /** A flood never opens a mine other than its origin, as long as the cells
      whose cached count is zero really have no mined neighbour. */
  lemma FloodAvoidsMines(n: int, uncovered: set<Cell>, zeros: set<Cell>, mines: set<Cell>, origin: Cell)
    requires FloodFrom(n, uncovered, zeros, origin)
    requires forall q :: q in zeros ==> Around(n, q.0, q.1) !! mines
    ensures uncovered - {origin} !! mines
  {
    var order: seq<Cell> :| FloodChain(n, order, zeros) && |order| >= 1 && order[0] == origin &&
      forall p :: p in order <==> p in uncovered;
    forall p | p in uncovered - {origin}
      ensures p !in mines
    {
      var k :| 0 <= k < |order| && order[k] == p;
      assert Reached(n, order, zeros, k);
      var j :| 0 <= j < k && order[j] in zeros && order[k] in Around(n, order[j].0, order[j].1);
    }
  }

  /** Closure survives when a second flood opens more cells and hides fewer. */
  lemma ClosedGrows(n: int, a: set<Cell>, b: set<Cell>, zeros: set<Cell>, h1: set<Cell>, h2: set<Cell>)
    requires FloodClosed(n, a, zeros, h1)
    requires FloodClosed(n, b, zeros, h2)
    requires h2 <= h1
    ensures FloodClosed(n, a + b, zeros, h2)
  {
  }
}
