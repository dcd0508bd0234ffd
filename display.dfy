/** The glyph a cell shows in `renderCell`. */
module Display {
  import opened Board
  import opened Adjacency

  /** A covered cell is a clickable button; a revealed one shows the bomb,
      its count, or nothing. */
  datatype Glyph = Button | Bomb | Number(n: int) | Blank

  /** The display rule: a covered cell gives away nothing of its contents;
      a revealed mine shows the bomb; a revealed non-mine shows its count
      when that count is nonzero (JavaScript's `count || ''`) and blank
      when it is zero. */
  function RenderCell(c: Cell): (r: Glyph)
    ensures r == Button <==> !c.isRevealed
    ensures r == Bomb <==> c.isRevealed && c.isMine
    ensures r.Number? <==> c.isRevealed && !c.isMine && c.adjacentMines != 0
    ensures r.Number? ==> r.n == c.adjacentMines
    ensures r == Blank <==> c.isRevealed && !c.isMine && c.adjacentMines == 0
  {
    if !c.isRevealed then Button
    else if c.isMine then Bomb
    else if c.adjacentMines != 0 then Number(c.adjacentMines)
    else Blank
  }

  /** On a board with correct counts a blank cell has no mine among its
      in-bounds neighbours. */
  lemma BlankHasNoMineNeighbours(g: Grid, y: int, x: int)
    requires CountsCorrect(g)
    requires 0 <= y < |g| && 0 <= x < |g[y]| && RenderCell(g[y][x]) == Blank
    ensures forall ny, nx ::
              0 <= ny < |g| && 0 <= nx < |g[ny]| && y - 1 <= ny <= y + 1 && x - 1 <= nx <= x + 1
              ==> !g[ny][nx].isMine
  {
    assert NeighbourMines(g, y, x) == {};
    forall ny, nx | 0 <= ny < |g| && 0 <= nx < |g[ny]| && y - 1 <= ny <= y + 1 && x - 1 <= nx <= x + 1
      ensures !g[ny][nx].isMine
    {
      assert (ny, nx) in Window(y, x);
      assert (ny, nx) !in NeighbourMines(g, y, x);
    }
  }

  /** On a board with correct counts a number shown is between 1 and 8
      and is the number of mines around the cell. */
  lemma NumberIsNeighbourCount(g: Grid, y: int, x: int)
    requires CountsCorrect(g)
    requires 0 <= y < |g| && 0 <= x < |g[y]| && RenderCell(g[y][x]).Number?
    ensures 1 <= RenderCell(g[y][x]).n <= 8
    ensures RenderCell(g[y][x]).n == |NeighbourMines(g, y, x)|
  {
    NeighbourBound(g, y, x);
  }
}
