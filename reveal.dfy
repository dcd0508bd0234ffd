/** The reveal step of `handleCellClick`: a single-cell reveal guarded by
    the game-over flag, with no flood fill and no win detection. */
module Reveal {
  import opened Board
  import opened Adjacency

  /** What the component keeps in its two state hooks. */
  datatype State = State(board: Grid, gameOver: bool)

  /** One click on (y, x). */
  function Click(s: State, y: int, x: int): (r: State)
    requires 0 <= y < |s.board| && 0 <= x < |s.board[y]|
    ensures |r.board| == |s.board| && forall ny :: 0 <= ny < |s.board| ==> |r.board[ny]| == |s.board[ny]|
    ensures r.board[y][x] == s.board[y][x].(isRevealed := s.board[y][x].isRevealed || !s.gameOver)
    ensures forall ny, nx :: 0 <= ny < |s.board| && 0 <= nx < |s.board[ny]| && (ny, nx) != (y, x) ==>
              r.board[ny][nx] == s.board[ny][nx]
    ensures r.gameOver <==> s.gameOver || (!s.board[y][x].isRevealed && s.board[y][x].isMine)
  {
    if s.gameOver || s.board[y][x].isRevealed then s
    else
      var b := s.board[y := s.board[y][x := s.board[y][x].(isRevealed := true)]];
      State(b, if b[y][x].isMine then true else s.gameOver)
  }

  /** A click that finds the game over, or the cell already revealed,
      changes nothing; so a second click on the same cell is a no-op. */
  lemma ClickIgnored(s: State, y: int, x: int)
    requires 0 <= y < |s.board| && 0 <= x < |s.board[y]|
    ensures s.gameOver || s.board[y][x].isRevealed ==> Click(s, y, x) == s
    ensures Click(Click(s, y, x), y, x) == Click(s, y, x)
  {
  }

  /** A click that is not ignored reveals (y, x) and nothing else: the set
      of revealed positions grows by exactly that one, every other cell is
      untouched, and the mine flag and count of (y, x) stay; the game is
      over afterwards exactly when (y, x) is a mine. */
  lemma ClickRevealsOne(s: State, y: int, x: int)
    requires 0 <= y < |s.board| && 0 <= x < |s.board[y]|
    requires !s.gameOver && !s.board[y][x].isRevealed
    ensures RevealedPositions(Click(s, y, x).board) == RevealedPositions(s.board) + {(y, x)}
    ensures (y, x) !in RevealedPositions(s.board)
    ensures Click(s, y, x).board[y][x] == s.board[y][x].(isRevealed := true)
    ensures forall ny, nx :: 0 <= ny < |s.board| && 0 <= nx < |s.board[ny]| && (ny, nx) != (y, x) ==>
              Click(s, y, x).board[ny][nx] == s.board[ny][nx]
    ensures Click(s, y, x).gameOver <==> s.board[y][x].isMine
  {
    var b := Click(s, y, x).board;
    forall p | p in RevealedPositions(b) ensures p in RevealedPositions(s.board) + {(y, x)} {
      var ny, nx :| 0 <= ny < |b| && 0 <= nx < |b[ny]| && b[ny][nx].isRevealed && p == (ny, nx);
      if p != (y, x) {
        assert s.board[ny][nx].isRevealed;
      }
    }
    forall p | p in RevealedPositions(s.board) + {(y, x)} ensures p in RevealedPositions(b) {
      if p == (y, x) {
        assert b[y][x].isRevealed;
      } else {
        var ny, nx :| 0 <= ny < |s.board| && 0 <= nx < |s.board[ny]| && s.board[ny][nx].isRevealed && p == (ny, nx);
        assert b[ny][nx].isRevealed;
      }
    }
  }

  /** A click never moves a mine or changes a count: the layout, the mine
      positions and the correctness of every count stay as they were. */
  lemma ClickKeepsLayout(s: State, y: int, x: int)
    requires 0 <= y < |s.board| && 0 <= x < |s.board[y]|
    ensures SameLayout(Click(s, y, x).board, s.board)
    ensures MinePositions(Click(s, y, x).board) == MinePositions(s.board)
    ensures forall ny, nx :: 0 <= ny < |s.board| && 0 <= nx < |s.board[ny]| ==>
              Click(s, y, x).board[ny][nx].adjacentMines == s.board[ny][nx].adjacentMines
    ensures CountsCorrect(s.board) ==> CountsCorrect(Click(s, y, x).board)
  {
    var b := Click(s, y, x).board;
    assert SameLayout(b, s.board);
    SameLayoutSameMines(b, s.board);
    if CountsCorrect(s.board) {
      forall ny, nx | 0 <= ny < |b| && 0 <= nx < |b[ny]| && !b[ny][nx].isMine
        ensures b[ny][nx].adjacentMines == |NeighbourMines(b, ny, nx)|
      {
        SameLayoutSameNeighbours(b, s.board, ny, nx);
      }
    }
  }

  /** Some mine has been revealed. */
  ghost predicate MineRevealed(g: Grid)
  {
    MinePositions(g) * RevealedPositions(g) != {}
  }

  /** The flag is honest: the game is over exactly when a mine is showing.
      A click keeps that true. */
  lemma ClickKeepsFlagHonest(s: State, y: int, x: int)
    requires 0 <= y < |s.board| && 0 <= x < |s.board[y]|
    requires s.gameOver <==> MineRevealed(s.board)
    ensures Click(s, y, x).gameOver <==> MineRevealed(Click(s, y, x).board)
  {
    if !s.gameOver && !s.board[y][x].isRevealed {
      ClickRevealsOne(s, y, x);
      ClickKeepsLayout(s, y, x);
      var b := Click(s, y, x).board;
      assert MinePositions(b) * RevealedPositions(b) ==
             MinePositions(s.board) * RevealedPositions(s.board) +
             (if s.board[y][x].isMine then {(y, x)} else {}) by {
        MinePositionsAre(s.board);
      }
    }
  }

  /** All clicks fall on the board. */
  predicate ClicksIn(cs: seq<Pos>, n: nat)
  {
    forall i :: 0 <= i < |cs| ==> 0 <= cs[i].0 < n && 0 <= cs[i].1 < n
  }

  /** The state after a sequence of clicks. */
  function Play(s: State, cs: seq<Pos>): (r: State)
    requires IsSquare(s.board, |s.board|) && ClicksIn(cs, |s.board|)
    ensures IsSquare(r.board, |s.board|)
    decreases |cs|
  {
    if cs == [] then s
    else Play(Click(s, cs[0].0, cs[0].1), cs[1..])
  }

  /** Over any run of clicks reveal flags only go from false to true, and
      once the game is over nothing changes. */
  lemma {:induction false} PlayMonotone(s: State, cs: seq<Pos>)
    requires IsSquare(s.board, |s.board|) && ClicksIn(cs, |s.board|)
    ensures RevealedPositions(s.board) <= RevealedPositions(Play(s, cs).board)
    ensures s.gameOver ==> Play(s, cs) == s
    decreases |cs|
  {
    if cs != [] {
      var (y, x) := cs[0];
      if !s.gameOver && !s.board[y][x].isRevealed {
        ClickRevealsOne(s, y, x);
      }
      assert ClicksIn(cs[1..], |s.board|);
      PlayMonotone(Click(s, y, x), cs[1..]);
    }
  }

  /** Over any run of clicks the mine layout and the counts never change,
      and correct counts stay correct. */
  lemma {:induction false} PlayKeepsLayout(s: State, cs: seq<Pos>)
    requires IsSquare(s.board, |s.board|) && ClicksIn(cs, |s.board|)
    ensures SameLayout(Play(s, cs).board, s.board)
    ensures MinePositions(Play(s, cs).board) == MinePositions(s.board)
    ensures CountsCorrect(s.board) ==> CountsCorrect(Play(s, cs).board)
    decreases |cs|
  {
    if cs != [] {
      var (y, x) := cs[0];
      var t := Click(s, y, x);
      ClickKeepsLayout(s, y, x);
      assert ClicksIn(cs[1..], |s.board|);
      PlayKeepsLayout(t, cs[1..]);
      var r := Play(t, cs[1..]);
      assert SameLayout(r.board, s.board) by {
        assert SameLayout(r.board, t.board);
      }
    }
  }

  /** Over any run of clicks the game-over flag stays honest: the game is
      over exactly when a mine is showing. */
  lemma {:induction false} PlayKeepsFlagHonest(s: State, cs: seq<Pos>)
    requires IsSquare(s.board, |s.board|) && ClicksIn(cs, |s.board|)
    requires s.gameOver <==> MineRevealed(s.board)
    ensures Play(s, cs).gameOver <==> MineRevealed(Play(s, cs).board)
    decreases |cs|
  {
    if cs != [] {
      var (y, x) := cs[0];
      ClickKeepsFlagHonest(s, y, x);
      assert ClicksIn(cs[1..], |s.board|);
      PlayKeepsFlagHonest(Click(s, y, x), cs[1..]);
    }
  }
}
