/** The `MinesweeperCard` component's state and the steps that change it:
    the board initialiser, mine placement, adjacency counting and the click
    handler. The random source is a sequence of draws passed in. */
module Engine {
  import opened Board
  import opened Adjacency
  import opened Reveal

  class MinesweeperCard {
    /** BOARD_SIZE and MINE_COUNT of the configuration. */
    const size: nat
    const mineCount: nat

    /** The two state hooks: the board and the game-over flag. */
    var board: Grid
    var gameOver: bool

    ghost predicate Valid()
      reads this
    {
      IsSquare(board, size)
    }

    /** The `useState` initialisers: a fresh board and a game not over. */
    constructor (size: nat, mineCount: nat)
      ensures Valid()
      ensures this.size == size && this.mineCount == mineCount
      ensures board == InitialBoard(size) && !gameOver
    {
      this.size := size;
      this.mineCount := mineCount;
      board := InitialBoard(size);
      gameOver := false;
    }

    /** `generateMines`: draw coordinates and mark the drawn cell when it is
        not yet a mine, until `mineCount` mines have been placed or the
        draws run out. `used` draws were consumed and `placed` mines added;
        the loop went on while fewer than `mineCount` had been placed. */
    method GenerateMines(draws: seq<Draw>) returns (placed: nat, used: nat)
      requires Valid() && DrawsIn(draws, size)
      modifies this`board
      ensures Valid()
      ensures used <= |draws| && board == MarkAll(old(board), draws[..used])
      ensures |MinePositions(board)| == |MinePositions(old(board))| + placed
      ensures placed <= mineCount
      ensures placed < mineCount ==> used == |draws|
      ensures forall k :: 0 <= k < used ==> StillPlacing(old(board), draws, k, mineCount)
    {
      ghost var start := board;
      var minesPlaced := 0;
      var i := 0;
      assert draws[..0] == [];
      while minesPlaced < mineCount && i < |draws|
        invariant 0 <= i <= |draws|
        invariant IsSquare(start, |start|) && |start| == size && DrawsIn(draws, |start|)
        invariant IsSquare(board, size)
        invariant board == MarkAll(start, draws[..i])
        invariant |MinePositions(board)| == |MinePositions(start)| + minesPlaced
        invariant minesPlaced <= mineCount
        invariant forall k :: 0 <= k < i ==> StillPlacing(start, draws, k, mineCount)
      {
        var d := draws[i];
        ghost var before := board;
        assert StillPlacing(start, draws, i, mineCount);
        MarkAllStep(start, draws, i);
        MarkEffect(before, size, d);
        if !board[d.y][d.x].isMine {
          board := board[d.y := board[d.y][d.x := board[d.y][d.x].(isMine := true)]];
          minesPlaced := minesPlaced + 1;
        }
        assert board == Mark(before, d);
        forall k | 0 <= k < i + 1 ensures StillPlacing(start, draws, k, mineCount) {
        }
        i := i + 1;
      }
      placed, used := minesPlaced, i;
    }

    /** `calculateAdjacentMines`: every non-mine cell gets the number of
        mines around it; mine cells are left alone. */
    method CalculateAdjacentMines()
      requires Valid()
      modifies this`board
      ensures Valid()
      ensures board == Annotate(old(board))
    {
      ghost var start := board;
      ghost var goal := Annotate(start);
      var y := 0;
      while y < size
        invariant 0 <= y <= size
        invariant IsSquare(board, size) && SameLayout(board, start)
        invariant forall r :: 0 <= r < y ==> board[r] == goal[r]
        invariant forall r :: y <= r < size ==> board[r] == start[r]
      {
        var x := 0;
        while x < size
          invariant 0 <= x <= size
          invariant IsSquare(board, size) && SameLayout(board, start)
          invariant forall r :: 0 <= r < y ==> board[r] == goal[r]
          invariant forall r :: y < r < size ==> board[r] == start[r]
          invariant forall c :: 0 <= c < x ==> board[y][c] == goal[y][c]
          invariant forall c :: x <= c < size ==> board[y][c] == start[y][c]
        {
          if !board[y][x].isMine {
            SameLayoutSameNeighbours(board, start, y, x);
            var count := CountNeighbourMines(board, size, y, x);
            SetCountKeepsLayout(board, start, size, y, x, count);
            board := board[y := board[y][x := board[y][x].(adjacentMines := count)]];
          }
          x := x + 1;
        }
        assert board[y] == goal[y];
        y := y + 1;
      }
    }

    /** The mount effect: place the mines, then count neighbours. On a fresh
        board it yields a board whose counts are right, where nothing is
        revealed and mine cells keep the count 0 they started with. It
        finishes placing exactly when `mineCount` mines are on the board,
        which needs `mineCount <= size * size`. */
    method InitializeMines(draws: seq<Draw>) returns (finished: bool)
      requires Valid() && board == InitialBoard(size) && DrawsIn(draws, size)
      modifies this`board
      ensures Valid()
      ensures finished <==> |MinePositions(board)| == mineCount
      ensures |MinePositions(board)| <= mineCount
      ensures finished ==> mineCount <= size * size
      ensures MinePositions(board) <= Drawn(draws)
      ensures !finished ==> MinePositions(board) == Drawn(draws)
      ensures CountsCorrect(board)
      ensures RevealedPositions(board) == {}
      ensures forall y, x :: 0 <= y < size && 0 <= x < size && board[y][x].isMine ==> board[y][x].adjacentMines == 0
    {
      InitialBoardEmpty(size);
      var placed, used := GenerateMines(draws);
      ghost var placedBoard := board;
      if placed < mineCount {
        assert draws[..used] == draws;
      }
      CalculateAdjacentMines();
      MountEffect(size, draws, used);
      finished := placed == mineCount;
    }

    /** `handleCellClick`: the state after the click is `Click` of the state
        before it. */
    method HandleCellClick(y: int, x: int)
      requires Valid() && 0 <= y < size && 0 <= x < size
      modifies this`board, this`gameOver
      ensures Valid()
      ensures State(board, gameOver) == Click(old(State(board, gameOver)), y, x)
    {
      if gameOver || board[y][x].isRevealed {
        return;
      }
      board := board[y := board[y][x := board[y][x].(isRevealed := true)]];
      if board[y][x].isMine {
        gameOver := true;
      }
    }
  }

  /** The board the mount effect leaves after `used` draws: its mines are
      the drawn positions, its counts are right, nothing is revealed and
      mine cells keep count 0. */
  lemma MountEffect(n: nat, draws: seq<Draw>, used: nat)
    requires DrawsIn(draws, n) && used <= |draws|
    ensures IsSquare(Annotate(MarkAll(InitialBoard(n), draws[..used])), n)
    ensures MinePositions(Annotate(MarkAll(InitialBoard(n), draws[..used]))) == Drawn(draws[..used])
    ensures Drawn(draws[..used]) <= Drawn(draws)
    ensures |Drawn(draws[..used])| <= n * n
    ensures CountsCorrect(Annotate(MarkAll(InitialBoard(n), draws[..used])))
    ensures RevealedPositions(Annotate(MarkAll(InitialBoard(n), draws[..used]))) == {}
    ensures forall y, x :: 0 <= y < n && 0 <= x < n && Annotate(MarkAll(InitialBoard(n), draws[..used]))[y][x].isMine ==>
              Annotate(MarkAll(InitialBoard(n), draws[..used]))[y][x].adjacentMines == 0
  {
    var init := InitialBoard(n);
    InitialBoardEmpty(n);
    assert DrawsIn(draws[..used], n);
    var p := MarkAll(init, draws[..used]);
    AnnotateUnrevealed(p, n);
    DrawnPrefix(draws, used);
    MinesAtMostCells(p, n);
  }

  /** The counting pass on a board with nothing revealed and every count 0
      gives right counts, nothing revealed, and count 0 on mine cells. */
  lemma AnnotateUnrevealed(p: Grid, n: nat)
    requires IsSquare(p, n)
    requires forall y, x :: 0 <= y < n && 0 <= x < n ==> !p[y][x].isRevealed && p[y][x].adjacentMines == 0
    ensures IsSquare(Annotate(p), n)
    ensures MinePositions(Annotate(p)) == MinePositions(p)
    ensures CountsCorrect(Annotate(p))
    ensures RevealedPositions(Annotate(p)) == {}
    ensures forall y, x :: 0 <= y < n && 0 <= x < n && Annotate(p)[y][x].isMine ==> Annotate(p)[y][x].adjacentMines == 0
  {
    AnnotateCorrect(p);
    InitialBoardEmpty(n);
    RevealedUnchanged(InitialBoard(n), p, n);
  }

  /** Writing a count keeps the shape and the mine layout. */
  lemma SetCountKeepsLayout(g: Grid, start: Grid, n: nat, y: int, x: int, count: int)
    requires IsSquare(g, n) && SameLayout(g, start) && 0 <= y < n && 0 <= x < n
    ensures IsSquare(g[y := g[y][x := g[y][x].(adjacentMines := count)]], n)
    ensures SameLayout(g[y := g[y][x := g[y][x].(adjacentMines := count)]], start)
  {
  }

  lemma DrawnPrefix(ds: seq<Draw>, k: nat)
    requires k <= |ds|
    ensures Drawn(ds[..k]) <= Drawn(ds)
  {
    forall p | p in Drawn(ds[..k]) ensures p in Drawn(ds) {
      var i :| 0 <= i < k && p == (ds[..k][i].y, ds[..k][i].x);
      assert p == (ds[i].y, ds[i].x);
    }
  }

  lemma RevealedUnchanged(g: Grid, h: Grid, n: nat)
    requires IsSquare(g, n) && IsSquare(h, n)
    requires forall y, x :: 0 <= y < n && 0 <= x < n ==>
               h[y][x].isRevealed == g[y][x].isRevealed && h[y][x].adjacentMines == g[y][x].adjacentMines
    ensures RevealedPositions(h) == RevealedPositions(g)
  {
    forall p | p in RevealedPositions(h) ensures p in RevealedPositions(g) {
      var y, x :| 0 <= y < n && 0 <= x < n && h[y][x].isRevealed && p == (y, x);
      assert g[y][x].isRevealed;
    }
    forall p | p in RevealedPositions(g) ensures p in RevealedPositions(h) {
      var y, x :| 0 <= y < n && 0 <= x < n && g[y][x].isRevealed && p == (y, x);
      assert h[y][x].isRevealed;
    }
  }
}
