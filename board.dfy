/** The minesweeper board: cells, the freshly initialised grid, and the
    placement of mines by rejection sampling (one draw at a time). */
module Board {

  /** One grid position. `adjacentMines` is a plain number in the source;
      it is only meaningful for cells that are not mines. */
  datatype Cell = Cell(isMine: bool, isRevealed: bool, adjacentMines: int)

  /** Rows of cells, indexed `g[y][x]` as in the source. */
  type Grid = seq<seq<Cell>>

  /** A position (y, x): row first, then column. */
  type Pos = (int, int)

  /** One pair of random coordinates. The source draws x first, then y. */
  datatype Draw = Draw(x: int, y: int)

  /** The state every cell starts in. */
  const Hidden := Cell(false, false, 0)

  /** `g` is an n-by-n grid. */
  predicate IsSquare(g: Grid, n: nat)
  {
    |g| == n && forall y :: 0 <= y < n ==> |g[y]| == n
  }

  /** The board initialiser: an n-by-n grid of hidden, mine-free cells
      whose counts are all 0. */
  function InitialBoard(n: nat): (g: Grid)
    ensures IsSquare(g, n)
    ensures forall y, x :: 0 <= y < n && 0 <= x < n ==>
              !g[y][x].isMine && !g[y][x].isRevealed && g[y][x].adjacentMines == 0
  {
    seq(n, _ => seq(n, _ => Hidden))
  }

  /** Position p lies on the grid and holds a mine. */
  predicate MineAt(g: Grid, p: Pos)
  {
    0 <= p.0 < |g| && 0 <= p.1 < |g[p.0]| && g[p.0][p.1].isMine
  }

  /** The set of positions that hold a mine. */
  ghost function MinePositions(g: Grid): set<Pos>
  {
    set y, x | 0 <= y < |g| && 0 <= x < |g[y]| && g[y][x].isMine :: (y, x)
  }

  /** The set of positions whose cell is revealed. */
  ghost function RevealedPositions(g: Grid): set<Pos>
  {
    set y, x | 0 <= y < |g| && 0 <= x < |g[y]| && g[y][x].isRevealed :: (y, x)
  }

  lemma MinePositionsAre(g: Grid)
    ensures forall p :: p in MinePositions(g) <==> MineAt(g, p)
  {
    forall p | MineAt(g, p) ensures p in MinePositions(g) {
      var (y, x) := p;
      assert (y, x) in MinePositions(g);
    }
  }

  /** Every position of an n-by-n board, rows below `rows` only. */
  ghost function Block(rows: nat, n: nat): set<Pos>
  {
    set y, x | 0 <= y < rows && 0 <= x < n :: (y, x)
  }

  /** Row y, columns below `cols`. */
  ghost function RowPart(y: int, cols: nat): set<Pos>
  {
    set x | 0 <= x < cols :: (y, x)
  }

  lemma {:induction false} RowPartSize(y: int, cols: nat)
    ensures |RowPart(y, cols)| == cols
  {
    if cols > 0 {
      RowPartSize(y, cols - 1);
      assert RowPart(y, cols) == RowPart(y, cols - 1) + {(y, cols - 1)};
    } else {
      assert RowPart(y, cols) == {};
    }
  }

  /** The block of r + 1 rows is the block of r rows plus row r. */
  lemma BlockSplit(r: nat, n: nat)
    ensures Block(r + 1, n) == Block(r, n) + RowPart(r, n)
    ensures Block(r, n) !! RowPart(r, n)
  {
    forall p | p in Block(r + 1, n) ensures p in Block(r, n) + RowPart(r, n) {
      var y, x :| 0 <= y < r + 1 && 0 <= x < n && p == (y, x);
      if y < r {
        assert p in Block(r, n);
      } else {
        assert p in RowPart(r, n);
      }
    }
    forall p | p in Block(r, n) + RowPart(r, n) ensures p in Block(r + 1, n) {
      if p in Block(r, n) {
        var y, x :| 0 <= y < r && 0 <= x < n && p == (y, x);
        assert (y, x) in Block(r + 1, n);
      } else {
        var x :| 0 <= x < n && p == (r, x);
        assert (r, x) in Block(r + 1, n);
      }
    }
  }

  lemma {:induction false} BlockSize(rows: nat, n: nat)
    ensures |Block(rows, n)| == rows * n
  {
    if rows == 0 {
      assert Block(rows, n) == {};
    } else {
      var r := rows - 1;
      BlockSize(r, n);
      RowPartSize(r, n);
      BlockSplit(r, n);
      DisjointUnionSize(Block(r, n), RowPart(r, n));
      MulStep(r, n);
    }
  }

  lemma MulStep(r: nat, n: nat)
    ensures (r + 1) * n == r * n + n
  {
  }

  lemma DisjointUnionSize<T>(a: set<T>, b: set<T>)
    requires a !! b
    ensures |a + b| == |a| + |b|
  {
    assert a * b == {};
  }

  lemma SubsetSize<T>(a: set<T>, b: set<T>)
    requires a <= b
    ensures |a| <= |b|
  {
    assert b == a + (b - a);
  }

  /** An n-by-n board never holds more than n*n mines. */
  lemma MinesAtMostCells(g: Grid, n: nat)
    requires IsSquare(g, n)
    ensures |MinePositions(g)| <= n * n
  {
    assert MinePositions(g) <= Block(n, n);
    SubsetSize(MinePositions(g), Block(n, n));
    BlockSize(n, n);
  }

  /** A freshly initialised board holds no mine and no revealed cell. */
  lemma InitialBoardEmpty(n: nat)
    ensures MinePositions(InitialBoard(n)) == {}
    ensures RevealedPositions(InitialBoard(n)) == {}
  {
  }

  /** All draws are in range for an n-by-n board, as `Math.floor(Math.random() * n)`
      guarantees. */
  predicate DrawsIn(ds: seq<Draw>, n: nat)
  {
    forall i :: 0 <= i < |ds| ==> 0 <= ds[i].x < n && 0 <= ds[i].y < n
  }

  /** The set of positions named by the draws. */
  ghost function Drawn(ds: seq<Draw>): set<Pos>
  {
    set i | 0 <= i < |ds| :: (ds[i].y, ds[i].x)
  }

  /** One iteration of the placement loop: the drawn cell becomes a mine
      unless it already is one. */
  function Mark(g: Grid, d: Draw): (r: Grid)
    requires 0 <= d.y < |g| && 0 <= d.x < |g[d.y]|
    ensures |r| == |g| && forall y :: 0 <= y < |g| ==> |r[y]| == |g[y]|
    ensures r[d.y][d.x] == g[d.y][d.x].(isMine := true)
    ensures forall y, x :: 0 <= y < |g| && 0 <= x < |g[y]| && (y, x) != (d.y, d.x) ==> r[y][x] == g[y][x]
  {
    if g[d.y][d.x].isMine then g
    else g[d.y := g[d.y][d.x := g[d.y][d.x].(isMine := true)]]
  }

  /** What one iteration does: the drawn position joins the mines, the mine
      count rises by one exactly when it was not a mine, and nothing else
      about the grid changes. */
  lemma MarkEffect(g: Grid, n: nat, d: Draw)
    requires IsSquare(g, n) && 0 <= d.y < n && 0 <= d.x < n
    ensures IsSquare(Mark(g, d), n)
    ensures MinePositions(Mark(g, d)) == MinePositions(g) + {(d.y, d.x)}
    ensures |MinePositions(Mark(g, d))| == |MinePositions(g)| + (if g[d.y][d.x].isMine then 0 else 1)
    ensures forall y, x :: 0 <= y < n && 0 <= x < n ==>
              Mark(g, d)[y][x].isRevealed == g[y][x].isRevealed &&
              Mark(g, d)[y][x].adjacentMines == g[y][x].adjacentMines &&
              ((y, x) != (d.y, d.x) ==> Mark(g, d)[y][x] == g[y][x])
  {
    var r: Grid := Mark(g, d);
    forall y: int, x: int | 0 <= y < n && 0 <= x < n
      ensures r[y][x].isRevealed == g[y][x].isRevealed
      ensures r[y][x].adjacentMines == g[y][x].adjacentMines
      ensures (y, x) != (d.y, d.x) ==> r[y][x] == g[y][x]
    {
      if !g[d.y][d.x].isMine && y == d.y {
        assert r[y] == g[y][d.x := g[y][d.x].(isMine := true)];
      }
    }
    MinePositionsAre(g);
    MinePositionsAre(r);
    assert MinePositions(r) == MinePositions(g) + {(d.y, d.x)} by {
      forall p ensures p in MinePositions(r) <==> p in MinePositions(g) + {(d.y, d.x)} {
        assert MineAt(r, p) <==> MineAt(g, p) || p == (d.y, d.x);
      }
    }
    if !g[d.y][d.x].isMine {
      assert (d.y, d.x) !in MinePositions(g);
    } else {
      assert (d.y, d.x) in MinePositions(g);
    }
  }

  /** The board after the given draws have all been processed. */
  function MarkAll(g: Grid, ds: seq<Draw>): (r: Grid)
    requires IsSquare(g, |g|) && DrawsIn(ds, |g|)
    ensures IsSquare(r, |g|)
    ensures MinePositions(r) == MinePositions(g) + Drawn(ds)
    ensures forall y, x :: 0 <= y < |g| && 0 <= x < |g| ==>
              r[y][x].isRevealed == g[y][x].isRevealed &&
              r[y][x].adjacentMines == g[y][x].adjacentMines
    decreases |ds|
  {
    if ds == [] then
      assert Drawn(ds) == {};
      g
    else
      var front, last := ds[..|ds| - 1], ds[|ds| - 1];
      var prev := MarkAll(g, front);
      MarkAllEffect(g, prev, last);
      DrawnSnoc(ds);
      Mark(prev, last)
  }

  /** The step of MarkAll: marking one more draw keeps what MarkAll promises. */
  lemma MarkAllEffect(g: Grid, prev: Grid, d: Draw)
    requires IsSquare(g, |g|) && IsSquare(prev, |g|)
    requires 0 <= d.y < |g| && 0 <= d.x < |g|
    requires forall y, x :: 0 <= y < |g| && 0 <= x < |g| ==>
               prev[y][x].isRevealed == g[y][x].isRevealed &&
               prev[y][x].adjacentMines == g[y][x].adjacentMines
    ensures IsSquare(Mark(prev, d), |g|)
    ensures MinePositions(Mark(prev, d)) == MinePositions(prev) + {(d.y, d.x)}
    ensures forall y, x :: 0 <= y < |g| && 0 <= x < |g| ==>
              Mark(prev, d)[y][x].isRevealed == g[y][x].isRevealed &&
              Mark(prev, d)[y][x].adjacentMines == g[y][x].adjacentMines
  {
    MarkEffect(prev, |g|, d);
  }

  lemma DrawnSnoc(ds: seq<Draw>)
    requires ds != []
    ensures Drawn(ds) == Drawn(ds[..|ds| - 1]) + {(ds[|ds| - 1].y, ds[|ds| - 1].x)}
  {
    var front := ds[..|ds| - 1];
    forall p | p in Drawn(ds) ensures p in Drawn(front) + {(ds[|ds| - 1].y, ds[|ds| - 1].x)} {
      var i :| 0 <= i < |ds| && p == (ds[i].y, ds[i].x);
      if i < |ds| - 1 {
        assert p == (front[i].y, front[i].x);
      }
    }
    forall p | p in Drawn(front) ensures p in Drawn(ds) {
      var i :| 0 <= i < |front| && p == (front[i].y, front[i].x);
      assert p == (ds[i].y, ds[i].x);
    }
  }

  /** Processing one more draw is one more iteration of the loop. */
  lemma MarkAllStep(g: Grid, ds: seq<Draw>, i: nat)
    requires IsSquare(g, |g|) && DrawsIn(ds, |g|) && i < |ds|
    ensures MarkAll(g, ds[..i + 1]) == Mark(MarkAll(g, ds[..i]), ds[i])
  {
    assert ds[..i + 1][..i] == ds[..i];
  }

  /** The placement loop's guard before draw k: fewer than m mines have
      been added to g by the first k draws. */
  ghost predicate StillPlacing(g: Grid, ds: seq<Draw>, k: nat, m: nat)
    requires IsSquare(g, |g|) && DrawsIn(ds, |g|) && k <= |ds|
  {
    |MinePositions(MarkAll(g, ds[..k]))| < |MinePositions(g)| + m
  }

  /** Appending a draw is one more iteration. */
  lemma MarkAllSnoc(g: Grid, ds: seq<Draw>, d: Draw)
    requires IsSquare(g, |g|) && DrawsIn(ds, |g|) && 0 <= d.x < |g| && 0 <= d.y < |g|
    ensures DrawsIn(ds + [d], |g|)
    ensures MarkAll(g, ds + [d]) == Mark(MarkAll(g, ds), d)
  {
    var e := ds + [d];
    forall i | 0 <= i < |e| ensures 0 <= e[i].x < |g| && 0 <= e[i].y < |g| {
      if i < |ds| {
        assert e[i] == ds[i];
      }
    }
    assert e[..|e| - 1] == ds;
  }

  /** On an n-by-n board with k < n*n mines some position is still free. */
  lemma FreeCellExists(g: Grid, n: nat) returns (d: Draw)
    requires IsSquare(g, n) && |MinePositions(g)| < n * n
    ensures 0 <= d.x < n && 0 <= d.y < n && !g[d.y][d.x].isMine
  {
    assert MinePositions(g) <= Block(n, n);
    BlockSize(n, n);
    if Block(n, n) <= MinePositions(g) {
      SubsetSize(Block(n, n), MinePositions(g));
      assert false;
    }
    var p :| p in Block(n, n) && p !in MinePositions(g);
    MinePositionsAre(g);
    d := Draw(p.1, p.0);
  }

  /** When m <= n*n, some sequence of in-range draws places m mines on a
      fresh board: the placement loop can finish. */
  lemma {:induction false} PlacementCanFinish(n: nat, m: nat) returns (ds: seq<Draw>)
    requires m <= n * n
    ensures DrawsIn(ds, n)
    ensures |MinePositions(MarkAll(InitialBoard(n), ds))| == m
    ensures |ds| == m
  {
    if m == 0 {
      ds := [];
      InitialBoardEmpty(n);
    } else {
      var init := InitialBoard(n);
      var front := PlacementCanFinish(n, m - 1);
      var g := MarkAll(init, front);
      var d := FreeCellExists(g, n);
      ds := front + [d];
      MarkAllSnoc(init, front, d);
      MarkEffect(g, n, d);
    }
  }

  /** When m > n*n, no sequence of draws ever places m mines: the
      placement loop of the source never ends for such a configuration. */
  lemma PlacementNeverFinishes(n: nat, m: nat, ds: seq<Draw>)
    requires m > n * n && DrawsIn(ds, n)
    ensures |MinePositions(MarkAll(InitialBoard(n), ds))| < m
  {
    MinesAtMostCells(MarkAll(InitialBoard(n), ds), n);
  }
}
