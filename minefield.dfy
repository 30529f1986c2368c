/** The mine field engine: a square grid of cached neighbour counts (-1 marks a
    mine) and a grid of cell statuses, both updated in place. The player acts
    only through Act; revealing a mine moves it to another hidden safe cell, so
    the player cannot lose, and the game is won when no such cell is left. */
module Engine {
  import opened Codes
  import opened Grid

  /** The constructor's size check: a size outside 1..10 becomes 10. */
  function ClampSize(requested: int): (size: int)
    ensures 1 <= size <= 10
    ensures 1 <= requested <= 10 ==> size == requested
    ensures size == requested || size == 10
  {
    if requested <= 0 || requested > 10 then 10 else requested
  }

  /** The constructor's mine-count check against the (already clamped) size:
      a count outside 1..size*size-1 becomes 20. */
  function ClampMines(size: int, requested: int): (mines: int)
    ensures mines >= 1
    ensures 1 <= requested < size * size ==> mines == requested
    ensures !(1 <= requested < size * size) ==> mines == 20
  {
    if requested <= 0 || requested >= size * size then 20 else requested
  }

  /** On a grid of side at most 4 the fallback count 20 is more mines than cells,
      so no layout exists; the request size*size, which the command line accepts,
      is one that falls back. */
  lemma FallbackOverfills(size: int)
    requires 1 <= size <= 4
    ensures ClampMines(size, size * size) == 20 > size * size
  {
  }

  class MineField {
    /** Side of the square grid; fixed at construction. */
    const size: int
    /** Number of mines; fixed at construction. */
    const mines: int
    /** -1 marks a mine; any other value is the cached number of mined neighbours. */
    var field: array2?<int>
    /** One of the STATUS_* codes per cell. */
    var status: array2?<int>

    /** Both grids exist, are distinct and are size-by-size. */
    ghost predicate Shape()
      reads this
    {
      field != null && status != null && field != status &&
      1 <= size &&
      field.Length0 == size && field.Length1 == size &&
      status.Length0 == size && status.Length1 == size
    }

    /** The cells that currently hold a mine. */
    ghost function Mines(): set<Cell>
      requires Shape()
      reads this, field
    {
      set p | p in Cells(size) && field[p.0, p.1] == -1
    }

    /** The cells not yet revealed. */
    ghost function Unrevealed(): set<Cell>
      requires Shape()
      reads this, status
    {
      set p | p in Cells(size) && status[p.0, p.1] != STATUS_REVEALED
    }

    /** The cells whose cached count is zero. */
    ghost function Zeros(): set<Cell>
      requires Shape()
      reads this, field
    {
      set p | p in Cells(size) && field[p.0, p.1] == 0
    }

    /** The live number of mines in the grid-clipped 3x3 block around (x, y). */
    ghost function MinedAround(x: int, y: int): nat
      requires Shape()
      reads this, field
    {
      |Mines() * Around(size, x, y)|
    }

    /** The count cache agrees with the mine layout. */
    ghost predicate CountsOk()
      requires Shape()
      reads this, field
    {
      forall x, y {:trigger MinedAround(x, y)} :: 0 <= x < size && 0 <= y < size && field[x, y] != -1 ==>
        field[x, y] == MinedAround(x, y)
    }

    /** Every status is one of the four codes. */
    ghost predicate StatusOk()
      requires Shape()
      reads this, status
    {
      forall x, y :: 0 <= x < size && 0 <= y < size ==> IsStatus(status[x, y])
    }

    /** The state between two actions. */
    ghost predicate Valid()
      reads this, field, status
    {
      Shape() && StatusOk() && CountsOk() && |Mines()| == mines
    }

    lemma ValidIntro()
      requires Shape() && StatusOk() && CountsOk() && |Mines()| == mines
      ensures Valid()
    {
    }

    /** No mine has been revealed: true from the start of a game until it is won. */
    ghost predicate MinesHidden()
      requires Shape()
      reads this, field, status
    {
      Mines() <= Unrevealed()
    }

    /** The layout is `layout` when exactly the cells of `layout` hold -1. */
    lemma SameMines(layout: set<Cell>)
      requires Shape()
      requires layout <= Cells(size)
      requires forall x, y :: InGrid(size, x, y) ==> (field[x, y] == -1 <==> (x, y) in layout)
      ensures Mines() == layout
    {
    }

    lemma MinesInGrid()
      requires Shape()
      ensures Mines() <= Cells(size)
    {
    }

    /** A cell whose cached count is zero has no mined neighbour. */
    lemma ZerosAreClear()
      requires Valid()
      ensures forall q :: q in Zeros() ==> Around(size, q.0, q.1) !! Mines()
    {
      forall q | q in Zeros()
        ensures Around(size, q.0, q.1) !! Mines()
      {
        assert InGrid(size, q.0, q.1) && field[q.0, q.1] == 0;
        assert MinedAround(q.0, q.1) == 0;
        assert Mines() * Around(size, q.0, q.1) == {};
        forall p | p in Around(size, q.0, q.1)
          ensures p !in Mines()
        {
          assert p !in Mines() * Around(size, q.0, q.1);
        }
      }
    }

    constructor (requestedSize: int, requestedMines: int)
      requires ClampMines(ClampSize(requestedSize), requestedMines)
               <= ClampSize(requestedSize) * ClampSize(requestedSize)
      ensures size == ClampSize(requestedSize)
      ensures mines == ClampMines(size, requestedMines)
      ensures Valid() && fresh(field) && fresh(status)
      ensures forall x, y :: InGrid(size, x, y) ==> status[x, y] == STATUS_NEW
    {
      var n := ClampSize(requestedSize);
      size := n;
      mines := ClampMines(n, requestedMines);
      field := null;
      status := null;
      new;
      Reset();
    }

    /** Starts a new game: fresh grids, every cell NEW, exactly `mines` mines on
        distinct cells, counts recomputed. Each placement picks some free cell;
        which one is left open. */
    method Reset()
      requires 1 <= size && 1 <= mines <= size * size
      modifies this
      ensures Valid() && fresh(field) && fresh(status)
      ensures forall x, y :: InGrid(size, x, y) ==> status[x, y] == STATUS_NEW
    {
      field := new int[size, size]((_, _) => 0);
      status := new int[size, size]((_, _) => STATUS_NEW);
      var i := 0;
      while i < mines
        invariant 0 <= i <= mines
        invariant Shape() && fresh(field) && fresh(status)
        invariant forall x, y :: InGrid(size, x, y) ==> field[x, y] == 0 || field[x, y] == -1
        invariant forall x, y :: InGrid(size, x, y) ==> status[x, y] == STATUS_NEW
        invariant |Mines()| == i
      {
        PlaceMine();
        i := i + 1;
      }
      Refresh();
    }

    /** One mine placement of Reset: some cell still holding 0 receives a mine.
        The source draws random cells until it meets a free one; which free
        cell is taken is left open here. */
    method PlaceMine()
      requires Shape() && |Mines()| < size * size
      requires forall x, y :: InGrid(size, x, y) ==> field[x, y] == 0 || field[x, y] == -1
      modifies field
      ensures forall x, y :: InGrid(size, x, y) ==> field[x, y] == 0 || field[x, y] == -1
      ensures exists p :: p !in old(Mines()) && Mines() == old(Mines()) + {p}
      ensures |Mines()| == |old(Mines())| + 1
    {
      MinesInGrid();
      FreeCellExists(Mines(), size);
      ghost var free :| free in Cells(size) && free !in Mines();
      assert InGrid(size, free.0, free.1) && field[free.0, free.1] == 0;
      var x, y :| InGrid(size, x, y) && field[x, y] == 0;
      ghost var before := Mines();
      field[x, y] := -1;
      assert Mines() == before + {(x, y)};
    }

    /** Counts the mines in the grid-clipped 3x3 block around (i, j); `ms` names
        the cells that hold -1. */
    method CountMinesAround(i: int, j: int, ghost ms: set<Cell>) returns (count: nat)
      requires Shape() && InGrid(size, i, j)
      requires forall x, y :: InGrid(size, x, y) ==> (field[x, y] == -1 <==> (x, y) in ms)
      ensures count == |ms * Around(size, i, j)|
    {
      count := 0;
      var x := i - 1;
      while x <= i + 1
        invariant i - 1 <= x <= i + 2
        invariant count == CountIn(ms, size, BlockSeq(i, j)[..3 * (x - i + 1)])
      {
        count := CountRowAround(i, j, x, ms, count);
        x := x + 1;
      }
      BlockCountAround(ms, size, i, j);
    }

    /** A scan step counts (x, y) exactly when it is a grid cell holding -1. */
    lemma HitIsMine(ms: set<Cell>, x: int, y: int)
      requires Shape()
      requires forall a, b :: InGrid(size, a, b) ==> (field[a, b] == -1 <==> (a, b) in ms)
      ensures Hit(ms, size, (x, y)) == if InGrid(size, x, y) && field[x, y] == -1 then 1 else 0
    {
    }

    /** The inner loop of CountMinesAround: scans row x of the block around
        (i, j) and adds the mines it meets to the running counter. */
    method CountRowAround(i: int, j: int, x: int, ghost ms: set<Cell>, count0: nat) returns (count: nat)
      requires Shape() && i - 1 <= x <= i + 1
      requires forall a, b :: InGrid(size, a, b) ==> (field[a, b] == -1 <==> (a, b) in ms)
      requires count0 == CountIn(ms, size, BlockSeq(i, j)[..3 * (x - i + 1)])
      ensures count == CountIn(ms, size, BlockSeq(i, j)[..3 * (x + 1 - i + 1)])
    {
      ghost var block, k := BlockSeq(i, j), 3 * (x - i + 1);
      count := count0;
      var y := j - 1;
      while y <= j + 1
        invariant j - 1 <= y <= j + 2
        invariant k == 3 * (x - i + 1) + (y - j + 1)
        invariant count == CountIn(ms, size, block[..k])
      {
        BlockSeqAt(i, j, x - i + 1, y - j + 1);
        CountPrefixStep(ms, size, block, k);
        HitIsMine(ms, x, y);
        if x >= 0 && x < size && y >= 0 && y < size {
          if field[x, y] == -1 {
            count := count + 1;
          }
        }
        y, k := y + 1, k + 1;
      }
    }

    /** Recomputes the count cache: every non-mine cell receives the number of
        mines around it; mine cells, and with them the layout, stay as they are. */
    method Refresh()
      requires Shape()
      modifies field
      ensures Mines() == old(Mines())
      ensures forall x, y :: InGrid(size, x, y) ==>
        field[x, y] == Recount(old(Mines()), size, x, y, old(field[x, y]))
      ensures CountsOk()
    {
      ghost var layout := Mines();
      var i := 0;
      while i < size
        invariant 0 <= i <= size
        invariant forall x, y :: InGrid(size, x, y) && x < i ==>
          field[x, y] == Recount(layout, size, x, y, old(field[x, y]))
        invariant forall x, y :: InGrid(size, x, y) && x >= i ==> field[x, y] == old(field[x, y])
      {
        RefreshRow(i, layout);
        i := i + 1;
      }
      SameMines(layout);
    }

    /** One pass of the outer loop of Refresh: recounts row i. */
    method RefreshRow(i: int, ghost layout: set<Cell>)
      requires Shape() && 0 <= i < size
      requires layout <= Cells(size)
      requires forall x, y :: InGrid(size, x, y) ==> (field[x, y] == -1 <==> (x, y) in layout)
      modifies field
      ensures forall x, y :: InGrid(size, x, y) && x != i ==> field[x, y] == old(field[x, y])
      ensures forall y :: 0 <= y < size ==>
        field[i, y] == Recount(layout, size, i, y, old(field[i, y]))
    {
      var j := 0;
      while j < size
        invariant 0 <= j <= size
        invariant forall x, y :: InGrid(size, x, y) && x != i ==> field[x, y] == old(field[x, y])
        invariant forall y :: 0 <= y < j ==>
          field[i, y] == Recount(layout, size, i, y, old(field[i, y]))
        invariant forall y :: j <= y < size ==> field[i, y] == old(field[i, y])
      {
        ghost var before := field[i, j];
        if field[i, j] != -1 {
          var count := CountMinesAround(i, j, layout);
          field[i, j] := count;
        }
        forall y | 0 <= y <= j
          ensures field[i, y] == Recount(layout, size, i, y, old(field[i, y]))
        {
          if y == j {
            assert old(field[i, y]) == before;
          }
        }
        j := j + 1;
      }
    }

    /** Marks every mine revealed; nothing else changes. */
    method RevealAll()
      requires Valid()
      modifies status
      ensures Valid()
      ensures forall x, y :: InGrid(size, x, y) ==>
        status[x, y] == if field[x, y] == -1 then STATUS_REVEALED else old(status[x, y])
      ensures Unrevealed() == old(Unrevealed()) - Mines()
    {
      var i := 0;
      while i < size
        invariant 0 <= i <= size
        invariant forall x, y :: InGrid(size, x, y) ==>
          status[x, y] == if x < i && field[x, y] == -1 then STATUS_REVEALED else old(status[x, y])
      {
        var j := 0;
        while j < size
          invariant 0 <= j <= size
          invariant forall x, y :: InGrid(size, x, y) ==>
            status[x, y] == if Before((x, y), (i, j)) && field[x, y] == -1 then STATUS_REVEALED else old(status[x, y])
        {
          if field[i, j] == -1 {
            status[i, j] := STATUS_REVEALED;
          }
          j := j + 1;
        }
        i := i + 1;
      }
    }

    /** Reveals (x, y) and, when its count is zero, recursively every cell of its
        clipped 3x3 block. A revealed cell stops the recursion, so each call that
        does work reveals a new cell. The ghost result `order` lists the cells
        the call reveals, in the order it reveals them. */
    method Reveal(x: int, y: int) returns (ghost order: seq<Cell>)
      requires Shape() && StatusOk() && InGrid(size, x, y)
      modifies status
      ensures StatusOk()
      ensures old(status[x, y]) == STATUS_REVEALED ==> unchanged(status) && order == []
      ensures (x, y) !in Unrevealed()
      ensures forall a, b :: InGrid(size, a, b) ==> status[a, b] == STATUS_REVEALED || status[a, b] == old(status[a, b])
      ensures FloodClosed(size, old(Unrevealed()) - Unrevealed(), Zeros(), Unrevealed())
      ensures old(status[x, y]) != STATUS_REVEALED ==> |order| >= 1 && order[0] == (x, y)
      ensures FloodChain(size, order, Zeros())
      ensures forall p :: p in order <==> p in old(Unrevealed()) - Unrevealed()
      ensures old(status[x, y]) != STATUS_REVEALED && field[x, y] != 0 ==>
        Unrevealed() == old(Unrevealed()) - {(x, y)}
      decreases |Unrevealed()|, 2
    {
      if status[x, y] == STATUS_REVEALED {
        order := [];
        return;
      }
      ghost var hidden0 := Unrevealed();
      status[x, y] := STATUS_REVEALED;
      assert Unrevealed() == hidden0 - {(x, y)};
      order := [(x, y)];
      if field[x, y] == 0 {
        order := RevealAround(x, y, hidden0);
      }
    }

    /** The flood step of Reveal from the zero cell (x, y), which has just been
        revealed: reveal every cell of its block. `hidden0` is the set of
        unrevealed cells when Reveal(x, y) started. */
    method RevealAround(x: int, y: int, ghost hidden0: set<Cell>) returns (ghost order: seq<Cell>)
      requires Shape() && StatusOk() && InGrid(size, x, y) && (x, y) in Zeros()
      requires (x, y) in hidden0 && Unrevealed() == hidden0 - {(x, y)}
      modifies status
      ensures StatusOk()
      ensures forall a, b :: InGrid(size, a, b) ==> status[a, b] == STATUS_REVEALED || status[a, b] == old(status[a, b])
      ensures Unrevealed() <= hidden0 - {(x, y)}
      ensures FloodClosed(size, hidden0 - Unrevealed(), Zeros(), Unrevealed())
      ensures |order| >= 1 && order[0] == (x, y) && FloodChain(size, order, Zeros())
      ensures forall p :: p in order <==> p in hidden0 - Unrevealed()
      decreases |hidden0|, 1
    {
      order := [(x, y)];
      var i := x - 1;
      while i <= x + 1
        invariant x - 1 <= i <= x + 2
        invariant StatusOk()
        invariant forall a, b :: InGrid(size, a, b) ==> status[a, b] == STATUS_REVEALED || status[a, b] == old(status[a, b])
        invariant Unrevealed() <= hidden0 - {(x, y)}
        invariant FloodClosed(size, hidden0 - Unrevealed() - {(x, y)}, Zeros(), Unrevealed())
        invariant |order| >= 1 && order[0] == (x, y) && FloodChain(size, order, Zeros())
        invariant forall p :: p in order <==> p in hidden0 - Unrevealed()
        invariant forall q :: q in Around(size, x, y) && q.0 < i ==> q !in Unrevealed()
      {
        order := RevealRow(x, y, i, hidden0, order);
        i := i + 1;
      }
      assert Around(size, x, y) !! Unrevealed();
    }

    /** Row i of the flood step from (x, y): reveal the cells of the block
        around (x, y) that lie in row i, from left to right, extending the
        opening order `order0`. */
    method RevealRow(x: int, y: int, i: int, ghost hidden0: set<Cell>, ghost order0: seq<Cell>)
      returns (ghost order: seq<Cell>)
      requires Shape() && StatusOk() && InGrid(size, x, y) && (x, y) in Zeros()
      requires (x, y) in hidden0 && Unrevealed() <= hidden0 - {(x, y)}
      requires FloodClosed(size, hidden0 - Unrevealed() - {(x, y)}, Zeros(), Unrevealed())
      requires |order0| >= 1 && order0[0] == (x, y) && FloodChain(size, order0, Zeros())
      requires forall p :: p in order0 <==> p in hidden0 - Unrevealed()
      requires x - 1 <= i <= x + 1
      modifies status
      ensures StatusOk()
      ensures forall a, b :: InGrid(size, a, b) ==> status[a, b] == STATUS_REVEALED || status[a, b] == old(status[a, b])
      ensures Unrevealed() <= old(Unrevealed())
      ensures FloodClosed(size, hidden0 - Unrevealed() - {(x, y)}, Zeros(), Unrevealed())
      ensures |order| >= 1 && order[0] == (x, y) && FloodChain(size, order, Zeros())
      ensures forall p :: p in order <==> p in hidden0 - Unrevealed()
      ensures forall q :: q in Around(size, x, y) && q.0 == i ==> q !in Unrevealed()
      decreases |hidden0|, 0
    {
      order := order0;
      var j := y - 1;
      while j <= y + 1
        invariant y - 1 <= j <= y + 2
        invariant StatusOk()
        invariant forall a, b :: InGrid(size, a, b) ==> status[a, b] == STATUS_REVEALED || status[a, b] == old(status[a, b])
        invariant Unrevealed() <= old(Unrevealed())
        invariant FloodClosed(size, hidden0 - Unrevealed() - {(x, y)}, Zeros(), Unrevealed())
        invariant |order| >= 1 && order[0] == (x, y) && FloodChain(size, order, Zeros())
        invariant forall p :: p in order <==> p in hidden0 - Unrevealed()
        invariant forall q :: q in Around(size, x, y) && q.0 == i && q.1 < j ==> q !in Unrevealed()
      {
        if 0 <= i < size && 0 <= j < size {
          ghost var hidden1 := Unrevealed();
          SubsetCard(hidden1, hidden0 - {(x, y)});
          ghost var sub := Reveal(i, j);
          RevealStep(hidden0, hidden1, Unrevealed(), x, y, i, j, order, sub);
          order := order + sub;
        }
        j := j + 1;
      }
    }

    /** How the flood facts of Reveal carry over a recursive call on (i, j), a
        neighbour of the zero cell (x, y): hidden0, hidden1 and hidden2 are the
        unrevealed cells at entry, before the call and after it; `order` lists
        the cells opened before the call and `sub` those the call opened. */
    lemma RevealStep(hidden0: set<Cell>, hidden1: set<Cell>, hidden2: set<Cell>, x: int, y: int, i: int, j: int,
                     order: seq<Cell>, sub: seq<Cell>)
      requires Shape()
      requires (x, y) in hidden0 && (x, y) in Zeros() && (i, j) in Around(size, x, y)
      requires hidden2 <= hidden1 <= hidden0 - {(x, y)}
      requires FloodClosed(size, hidden0 - hidden1 - {(x, y)}, Zeros(), hidden1)
      requires FloodClosed(size, hidden1 - hidden2, Zeros(), hidden2)
      requires |order| >= 1 && order[0] == (x, y) && FloodChain(size, order, Zeros())
      requires forall p :: p in order <==> p in hidden0 - hidden1
      requires (|sub| >= 1 ==> sub[0] == (i, j)) && FloodChain(size, sub, Zeros())
      requires forall p :: p in sub <==> p in hidden1 - hidden2
      ensures FloodClosed(size, hidden0 - hidden2 - {(x, y)}, Zeros(), hidden2)
      ensures |order + sub| >= 1 && (order + sub)[0] == (x, y) && FloodChain(size, order + sub, Zeros())
      ensures forall p :: p in order + sub <==> p in hidden0 - hidden2
    {
      ClosedGrows(size, hidden0 - hidden1 - {(x, y)}, hidden1 - hidden2, Zeros(), hidden1, hidden2);
      assert hidden0 - hidden2 - {(x, y)} == (hidden0 - hidden1 - {(x, y)}) + (hidden1 - hidden2);
      ChainAppend(size, order, sub, Zeros());
    }

    /** The cells a mine on a revealed target may move to (not revealed and not a
        mine), each once, in the row-major order of the source's scan. */
    method CollectCandidates() returns (cs: seq<Cell>)
      requires Shape()
      ensures forall p :: p in cs <==> p in Unrevealed() - Mines()
      ensures forall k, l :: 0 <= k < l < |cs| ==> Before(cs[k], cs[l])
    {
      cs := [];
      var i := 0;
      while i < size
        invariant 0 <= i <= size
        invariant forall p :: p in cs <==> p in Unrevealed() - Mines() && p.0 < i
        invariant forall k, l :: 0 <= k < l < |cs| ==> Before(cs[k], cs[l])
        invariant forall k :: 0 <= k < |cs| ==> cs[k].0 < i
      {
        var j := 0;
        while j < size
          invariant 0 <= j <= size
          invariant forall p :: p in cs <==> p in Unrevealed() - Mines() && Before(p, (i, j))
          invariant forall k, l :: 0 <= k < l < |cs| ==> Before(cs[k], cs[l])
          invariant forall k :: 0 <= k < |cs| ==> Before(cs[k], (i, j))
        {
          if status[i, j] != STATUS_REVEALED && field[i, j] != -1 {
            cs := cs + [(i, j)];
          }
          j := j + 1;
        }
        i := i + 1;
      }
    }

    /** Swapping one member of a set for a non-member keeps its size. */
    static lemma SwapCard(s: set<Cell>, out: Cell, into: Cell)
      requires out in s && into !in s
      ensures |s - {out} + {into}| == |s|
    {
      assert s == (s - {out}) + {out};
    }

    /** Moves the mine on (x, y) to the hidden safe cell `target` and
        recomputes the counts. */
    method MoveMine(x: int, y: int, target: Cell)
      requires Valid() && InGrid(size, x, y) && field[x, y] == -1
      requires target in Unrevealed() - Mines()
      modifies field
      ensures Valid()
      ensures Mines() == old(Mines()) - {(x, y)} + {target}
      ensures field[x, y] != -1
    {
      ghost var layout := Mines();
      ghost var moved := layout - {(x, y)} + {target};
      MinesInGrid();
      assert (x, y) in layout && target !in layout;
      field[target.0, target.1] := -1;
      field[x, y] := 0;
      forall a, b | InGrid(size, a, b)
        ensures field[a, b] == -1 <==> (a, b) in moved
      {
        if (a, b) != target && (a, b) != (x, y) {
          assert field[a, b] == old(field[a, b]);
          assert (a, b) in layout <==> old(field[a, b]) == -1;
        }
      }
      SameMines(moved);
      SwapCard(layout, (x, y), target);
      Refresh();
      ValidIntro();
    }

    /** The REVEAL action on a cell of the grid. A mine on (x, y) first moves to
        a hidden safe cell chosen by `rand`; when there is none, every mine is
        shown and the game is won. */
    method RevealAction(x: int, y: int, rand: nat) returns (won: bool)
      requires Valid() && InGrid(size, x, y)
      modifies field, status
      ensures Valid()
      ensures won <==> old(field[x, y]) == -1 && old(Unrevealed() - Mines()) == {}
      ensures won ==>
        unchanged(field) && Unrevealed() == {} &&
        forall a, b :: InGrid(size, a, b) ==>
          status[a, b] == if field[a, b] == -1 then STATUS_REVEALED else old(status[a, b])
      ensures !won ==>
        field[x, y] != -1 && (x, y) !in Unrevealed() &&
        (old(field[x, y]) != -1 ==> unchanged(field)) &&
        (old(field[x, y]) == -1 ==>
          exists t :: t in old(Unrevealed() - Mines()) && Mines() == old(Mines()) - {(x, y)} + {t}) &&
        (forall a, b :: InGrid(size, a, b) ==> status[a, b] == STATUS_REVEALED || status[a, b] == old(status[a, b])) &&
        FloodClosed(size, old(Unrevealed()) - Unrevealed(), Zeros(), Unrevealed()) &&
        (old(status[x, y]) != STATUS_REVEALED ==>
          FloodFrom(size, old(Unrevealed()) - Unrevealed(), Zeros(), (x, y)) &&
          (field[x, y] != 0 ==> Unrevealed() == old(Unrevealed()) - {(x, y)}))
      ensures old(status[x, y]) == STATUS_REVEALED && old(field[x, y]) != -1 ==>
        !won && unchanged(field) && unchanged(status)
      ensures old(status[x, y]) == STATUS_REVEALED && !won ==> unchanged(status)
      ensures !won && old(MinesHidden()) ==> MinesHidden()
    {
      ghost var hidden0, mark0 := Unrevealed(), status[x, y];
      if field[x, y] == -1 {
        won := RevealMine(x, y, rand);
        if won {
          return;
        }
        assert Unrevealed() == hidden0 && status[x, y] == mark0;
      }
      RevealSafe(x, y);
      won := false;
    }

    /** The first half of REVEAL on the mine at (x, y): the mine moves to the
        hidden safe cell of index `rand` modulo their number in row-major
        order, or, when there is no such cell, every mine is shown and the game
        is won. */
    method RevealMine(x: int, y: int, rand: nat) returns (won: bool)
      requires Valid() && InGrid(size, x, y) && field[x, y] == -1
      modifies field, status
      ensures Valid()
      ensures won <==> old(Unrevealed() - Mines()) == {}
      ensures won ==>
        unchanged(field) && Unrevealed() == {} &&
        forall a, b :: InGrid(size, a, b) ==>
          status[a, b] == if field[a, b] == -1 then STATUS_REVEALED else old(status[a, b])
      ensures !won ==>
        unchanged(status) && field[x, y] != -1 &&
        exists t :: t in old(Unrevealed() - Mines()) && Mines() == old(Mines()) - {(x, y)} + {t}
    {
      ghost var hidden0, layout0 := Unrevealed(), Mines();
      var unrevealed := CollectCandidates();
      assert Unrevealed() == hidden0 && Mines() == layout0;
      if |unrevealed| > 0 {
        var index := rand % |unrevealed|;
        var target := unrevealed[index];
        assert target in unrevealed;
        MoveMine(x, y, target);
        assert Mines() == layout0 - {(x, y)} + {target};
        won := false;
      } else {
        assert hidden0 - layout0 == {} by {
          forall p | p in hidden0 - layout0
            ensures p in unrevealed
          {
          }
        }
        RevealAll();
        won := true;
      }
    }

    /** Reveals the safe cell (x, y) with its flood. The flood opens no mine,
        so a game in which no mine was shown stays so. */
    method RevealSafe(x: int, y: int)
      requires Valid() && InGrid(size, x, y) && field[x, y] != -1
      modifies status
      ensures Valid()
      ensures old(status[x, y]) == STATUS_REVEALED ==> unchanged(status)
      ensures (x, y) !in Unrevealed()
      ensures forall a, b :: InGrid(size, a, b) ==> status[a, b] == STATUS_REVEALED || status[a, b] == old(status[a, b])
      ensures FloodClosed(size, old(Unrevealed()) - Unrevealed(), Zeros(), Unrevealed())
      ensures old(status[x, y]) != STATUS_REVEALED ==>
        FloodFrom(size, old(Unrevealed()) - Unrevealed(), Zeros(), (x, y)) &&
        (field[x, y] != 0 ==> Unrevealed() == old(Unrevealed()) - {(x, y)})
      ensures old(Unrevealed()) - Unrevealed() !! Mines()
      ensures old(MinesHidden()) ==> MinesHidden()
    {
      ghost var hidden0, zeros, layout := Unrevealed(), Zeros(), Mines();
      ZerosAreClear();
      ghost var order := Reveal(x, y);
      assert Zeros() == zeros && Mines() == layout;
      assert (x, y) !in layout;
      if (x, y) in hidden0 {
        assert FloodChain(size, order, zeros) && |order| >= 1 && order[0] == (x, y) &&
          forall p :: p in order <==> p in hidden0 - Unrevealed();
        FloodAvoidsMines(size, hidden0 - Unrevealed(), zeros, layout, (x, y));
      }
    }

    /** The player's only entry point. `rand` stands for the value of rand()
        that picks where a revealed mine goes. Returns true exactly when a mine
        is revealed while no hidden safe cell is left: the game is won. */
    method Act(x: int, y: int, action: int, rand: nat) returns (won: bool)
      requires Valid()
      modifies field, status
      ensures Valid()
      // an invalid coordinate or action changes nothing
      ensures !InGrid(size, x, y) || action < ACTION_CLEAR || action > ACTION_QUESTION ==>
        !won && unchanged(field) && unchanged(status)
      // clear, flag and question set the status of a cell that is not revealed
      ensures InGrid(size, x, y) && action in {ACTION_CLEAR, ACTION_FLAG, ACTION_QUESTION} ==>
        !won && unchanged(field) &&
        forall a, b :: InGrid(size, a, b) ==>
          status[a, b] == if (a, b) == (x, y) && old(status[x, y]) != STATUS_REVEALED
                          then MarkFor(action) else old(status[a, b])
      // a reveal wins exactly when it hits a mine that has nowhere to go
      ensures InGrid(size, x, y) && action == ACTION_REVEAL ==>
        (won <==> old(field[x, y]) == -1 && old(Unrevealed() - Mines()) == {})
      ensures won ==>
        unchanged(field) && Unrevealed() == {} &&
        forall a, b :: InGrid(size, a, b) ==>
          status[a, b] == if field[a, b] == -1 then STATUS_REVEALED else old(status[a, b])
      // otherwise the target is safe and revealed, with its flood
      ensures InGrid(size, x, y) && action == ACTION_REVEAL && !won ==>
        field[x, y] != -1 && (x, y) !in Unrevealed() &&
        (old(field[x, y]) != -1 ==> unchanged(field)) &&
        (old(field[x, y]) == -1 ==>
          exists t :: t in old(Unrevealed() - Mines()) && Mines() == old(Mines()) - {(x, y)} + {t}) &&
        (forall a, b :: InGrid(size, a, b) ==> status[a, b] == STATUS_REVEALED || status[a, b] == old(status[a, b])) &&
        FloodClosed(size, old(Unrevealed()) - Unrevealed(), Zeros(), Unrevealed()) &&
        (old(status[x, y]) != STATUS_REVEALED ==>
          FloodFrom(size, old(Unrevealed()) - Unrevealed(), Zeros(), (x, y)) &&
          (field[x, y] != 0 ==> Unrevealed() == old(Unrevealed()) - {(x, y)}))
      // revealing a revealed safe cell changes nothing
      ensures InGrid(size, x, y) && action == ACTION_REVEAL && old(status[x, y]) == STATUS_REVEALED &&
              old(field[x, y]) != -1 ==>
        !won && unchanged(field) && unchanged(status)
      // revealing a revealed cell opens nothing, even when a mine moves away from it
      ensures InGrid(size, x, y) && action == ACTION_REVEAL && old(status[x, y]) == STATUS_REVEALED && !won ==>
        unchanged(status)
      // a revealed cell stays revealed
      ensures forall a, b :: InGrid(size, a, b) && old(status[a, b]) == STATUS_REVEALED ==>
        status[a, b] == STATUS_REVEALED
      // no mine is shown before the game is won
      ensures !won && old(MinesHidden()) ==> MinesHidden()
    {
      if x < 0 || x >= size || y < 0 || y >= size {
        return false;
      }
      if action < ACTION_CLEAR || action > ACTION_QUESTION {
        return false;
      }
      if action == ACTION_REVEAL {
        won := RevealAction(x, y, rand);
        return won;
      } else if action == ACTION_CLEAR {
        if status[x, y] == STATUS_REVEALED {
          return false;
        } else {
          status[x, y] := STATUS_NEW;
        }
      } else if action == ACTION_FLAG {
        if status[x, y] == STATUS_REVEALED {
          return false;
        } else {
          status[x, y] := STATUS_FLAGGED;
        }
      } else if action == ACTION_QUESTION {
        if status[x, y] == STATUS_REVEALED {
          return false;
        } else {
          status[x, y] := STATUS_QUESTION;
        }
      }
      return false;
    }
  }
}
