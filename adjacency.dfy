/** Adjacent-mine counts: the bounds-clipped 3-by-3 neighbourhood of a cell,
    the count the source writes into every non-mine cell, and the loop that
    computes one such count. */
module Adjacency {
  import opened Board

  /** The 3-by-3 block of positions centred on (y, x), the centre included. */
  function Window(y: int, x: int): set<Pos>
  {
    {(y - 1, x - 1), (y - 1, x), (y - 1, x + 1),
     (y, x - 1),     (y, x),     (y, x + 1),
     (y + 1, x - 1), (y + 1, x), (y + 1, x + 1)}
  }

  /** The mines at in-bounds positions (ny, nx) with |ny - y| <= 1 and
      |nx - x| <= 1. */
  ghost function NeighbourMines(g: Grid, y: int, x: int): set<Pos>
  {
    set p | p in Window(y, x) && MineAt(g, p)
  }

  /** The order in which the source's `dy`/`dx` loops visit the window:
      0 for (y - 1, x - 1) up to 8 for (y + 1, x + 1). */
  function Rank(y: int, x: int, p: Pos): int
  {
    3 * (p.0 - y + 1) + (p.1 - x + 1)
  }

  /** The mines of the window among the first k positions visited. */
  ghost function Scanned(g: Grid, y: int, x: int, k: int): set<Pos>
  {
    set p | p in NeighbourMines(g, y, x) && Rank(y, x, p) < k
  }

  /** Visiting offset (dy, dx), the k-th position, adds that position to
      the scanned mines exactly when it holds an in-bounds mine. */
  lemma ScanSet(g: Grid, y: int, x: int, dy: int, dx: int, k: int)
    requires -1 <= dy <= 1 && -1 <= dx <= 1 && k == 3 * (dy + 1) + (dx + 1)
    ensures Scanned(g, y, x, k + 1) ==
            Scanned(g, y, x, k) + (if MineAt(g, (y + dy, x + dx)) then {(y + dy, x + dx)} else {})
  {
    var q := (y + dy, x + dx);
    var before, after := Scanned(g, y, x, k), Scanned(g, y, x, k + 1);
    forall p | p in after ensures p in before || (p == q && MineAt(g, q)) {
      if Rank(y, x, p) == k {
        RankAt(y, x, p, dy, dx);
      }
    }
  }

  /** The same step, counted: the tally rises by one exactly at an
      in-bounds mine. */
  lemma ScanStep(g: Grid, y: int, x: int, dy: int, dx: int, k: int)
    requires -1 <= dy <= 1 && -1 <= dx <= 1 && k == 3 * (dy + 1) + (dx + 1)
    ensures |Scanned(g, y, x, k + 1)| == |Scanned(g, y, x, k)| + (if MineAt(g, (y + dy, x + dx)) then 1 else 0)
  {
    ScanSet(g, y, x, dy, dx, k);
    var q := (y + dy, x + dx);
    assert Rank(y, x, q) == k;
    assert q !in Scanned(g, y, x, k);
  }

  /** Rank tells the positions of the window apart. */
  lemma RankAt(y: int, x: int, p: Pos, dy: int, dx: int)
    requires -1 <= dy <= 1 && -1 <= dx <= 1
    requires p in Window(y, x) && Rank(y, x, p) == 3 * (dy + 1) + (dx + 1)
    ensures p == (y + dy, x + dx)
  {
    assert y - 1 <= p.0 <= y + 1 && x - 1 <= p.1 <= x + 1;
  }

  lemma ScanStart(g: Grid, y: int, x: int)
    ensures Scanned(g, y, x, 0) == {}
  {
  }

  lemma ScanEnd(g: Grid, y: int, x: int)
    ensures Scanned(g, y, x, 9) == NeighbourMines(g, y, x)
  {
  }

  /** Each visited position adds at most one mine to the tally. */
  lemma ScanGrowsByAtMostOne(g: Grid, y: int, x: int, k: int)
    requires 0 <= k < 9
    ensures |Scanned(g, y, x, k + 1)| <= |Scanned(g, y, x, k)| + 1
    ensures k == 4 && !MineAt(g, (y, x)) ==> |Scanned(g, y, x, k + 1)| == |Scanned(g, y, x, k)|
  {
    var dy, dx := k / 3 - 1, k % 3 - 1;
    ScanStep(g, y, x, dy, dx, k);
  }

  /** A cell that is not a mine has between 0 and 8 mine neighbours. */
  lemma NeighbourBound(g: Grid, y: int, x: int)
    requires !MineAt(g, (y, x))
    ensures |NeighbourMines(g, y, x)| <= 8
  {
    ScanStart(g, y, x);
    var k := 0;
    while k < 9
      invariant 0 <= k <= 9
      invariant |Scanned(g, y, x, k)| <= (if k <= 4 then k else k - 1)
    {
      ScanGrowsByAtMostOne(g, y, x, k);
      k := k + 1;
    }
    ScanEnd(g, y, x);
  }

  /** The innermost two loops of `calculateAdjacentMines`: count the mines
      among the in-bounds cells of the 3-by-3 block around (y, x). */
  method CountNeighbourMines(g: Grid, n: nat, y: int, x: int) returns (count: nat)
    requires IsSquare(g, n)
    ensures count == |NeighbourMines(g, y, x)|
  {
    count := 0;
    ghost var k := 0;
    ScanStart(g, y, x);
    var dy := -1;
    while dy <= 1
      invariant -1 <= dy <= 2 && k == 3 * (dy + 1)
      invariant count == |Scanned(g, y, x, k)|
    {
      var dx := -1;
      while dx <= 1
        invariant -1 <= dx <= 2 && k == 3 * (dy + 1) + (dx + 1)
        invariant count == |Scanned(g, y, x, k)|
      {
        var ny := y + dy;
        var nx := x + dx;
        ScanStep(g, y, x, dy, dx, k);
        if ny >= 0 && ny < n && nx >= 0 && nx < n {
          if g[ny][nx].isMine {
            count := count + 1;
          }
        }
        dx := dx + 1;
        k := k + 1;
      }
      dy := dy + 1;
    }
    ScanEnd(g, y, x);
  }

  /** Two grids of the same shape with mines at the same places. */
  predicate SameLayout(g: Grid, h: Grid)
  {
    |g| == |h| &&
    forall y :: 0 <= y < |g| ==>
      |g[y]| == |h[y]| && forall x :: 0 <= x < |g[y]| ==> g[y][x].isMine == h[y][x].isMine
  }

  /** Neighbour counts depend on the mine layout only. */
  lemma SameLayoutSameNeighbours(g: Grid, h: Grid, y: int, x: int)
    requires SameLayout(g, h)
    ensures NeighbourMines(g, y, x) == NeighbourMines(h, y, x)
  {
    forall p | p in Window(y, x) ensures MineAt(g, p) == MineAt(h, p) {
    }
  }

  lemma SameLayoutSameMines(g: Grid, h: Grid)
    requires SameLayout(g, h)
    ensures MinePositions(g) == MinePositions(h)
  {
    MinePositionsAre(g);
    MinePositionsAre(h);
  }

  /** One cell after `calculateAdjacentMines`: a non-mine gets its count,
      a mine is left as it was. */
  ghost function AnnotateCell(g: Grid, y: int, x: int): Cell
    requires 0 <= y < |g| && 0 <= x < |g[y]|
  {
    if g[y][x].isMine then g[y][x]
    else g[y][x].(adjacentMines := |NeighbourMines(g, y, x)|)
  }

  /** The whole grid after `calculateAdjacentMines`. */
  ghost function Annotate(g: Grid): (r: Grid)
    ensures |r| == |g| && forall y :: 0 <= y < |g| ==> |r[y]| == |g[y]|
    ensures forall y, x :: 0 <= y < |g| && 0 <= x < |g[y]| && g[y][x].isMine ==> r[y][x] == g[y][x]
    ensures forall y, x :: 0 <= y < |g| && 0 <= x < |g[y]| && !g[y][x].isMine ==>
              r[y][x] == g[y][x].(adjacentMines := |NeighbourMines(g, y, x)|)
  {
    seq(|g|, y requires 0 <= y < |g| =>
      seq(|g[y]|, x requires 0 <= x < |g[y]| => AnnotateCell(g, y, x)))
  }

  /** Every non-mine cell holds the number of its mine neighbours. */
  ghost predicate CountsCorrect(g: Grid)
  {
    forall y, x :: 0 <= y < |g| && 0 <= x < |g[y]| && !g[y][x].isMine ==>
      g[y][x].adjacentMines == |NeighbourMines(g, y, x)|
  }

  /** What `calculateAdjacentMines` achieves: the mine layout and every
      reveal flag are unchanged, mine cells are untouched, every non-mine
      cell holds its exact neighbour count, and that count is in 0..8. */
  lemma AnnotateCorrect(g: Grid)
    ensures SameLayout(Annotate(g), g)
    ensures MinePositions(Annotate(g)) == MinePositions(g)
    ensures RevealedPositions(Annotate(g)) == RevealedPositions(g)
    ensures CountsCorrect(Annotate(g))
    ensures forall y, x :: 0 <= y < |g| && 0 <= x < |g[y]| ==>
              (g[y][x].isMine ==> Annotate(g)[y][x] == g[y][x]) &&
              (!g[y][x].isMine ==> 0 <= Annotate(g)[y][x].adjacentMines <= 8)
  {
    var a := Annotate(g);
    assert SameLayout(a, g);
    SameLayoutSameMines(a, g);
    forall y, x | 0 <= y < |a| && 0 <= x < |a[y]| && !a[y][x].isMine
      ensures a[y][x].adjacentMines == |NeighbourMines(a, y, x)|
    {
      SameLayoutSameNeighbours(a, g, y, x);
    }
    forall y, x | 0 <= y < |g| && 0 <= x < |g[y]| && !g[y][x].isMine
      ensures 0 <= a[y][x].adjacentMines <= 8
    {
      NeighbourBound(g, y, x);
    }
  }

  /** Recomputing the counts of a board whose counts are right changes
      nothing: the annotation is idempotent. */
  lemma AnnotateIdempotent(g: Grid)
    ensures Annotate(Annotate(g)) == Annotate(g)
  {
    AnnotateCorrect(g);
    var a := Annotate(g);
    forall y | 0 <= y < |a| ensures Annotate(a)[y] == a[y] {
    }
  }
}
