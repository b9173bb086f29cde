/** The running game: a mutable board of HEIGHT x WIDTH cells, the player to
 *  move and the input lock, updated in place by each click. Every operation
 *  is proved against the value-level definitions of Board, WinDetector and Engine. */
module Connect4 {
  import opened Board
  import opened WinDetector
  import opened Engine

  /** Builds the board of a new game: HEIGHT rows of WIDTH empty cells. */
  method MakeBoard() returns (b: array2<int>)
    ensures fresh(b)
    ensures b.Length0 == HEIGHT && b.Length1 == WIDTH
    ensures forall y, x :: 0 <= y < HEIGHT && 0 <= x < WIDTH ==> b[y, x] == EMPTY
  {
    b := new int[HEIGHT, WIDTH];
    var y := 0;
    while y < HEIGHT
      invariant 0 <= y <= HEIGHT
      invariant forall i, j :: 0 <= i < y && 0 <= j < WIDTH ==> b[i, j] == EMPTY
    {
      var x := 0;
      while x < WIDTH
        invariant 0 <= x <= WIDTH
        invariant forall i, j :: 0 <= i < y && 0 <= j < WIDTH ==> b[i, j] == EMPTY
        invariant forall j :: 0 <= j < x ==> b[y, j] == EMPTY
      {
        b[y, x] := EMPTY;
        x := x + 1;
      }
      y := y + 1;
    }
  }

  class Game {
    var board: array2<int>
    var currPlayer: int
    /** Set once a win or a tie has ended the game; every later click is ignored. */
    var gameOver: bool

    predicate Shaped()
      reads this`board
    {
      board.Length0 == HEIGHT && board.Length1 == WIDTH
    }

    /** The board as a grid value. */
    ghost function Cells(): (g: Grid)
      reads this`board, board
      requires Shaped()
      ensures WellFormed(g)
      ensures forall y, x :: InBounds(y, x) ==> g[y][x] == board[y, x]
    {
      var b := board;
      seq(HEIGHT, y reads b requires 0 <= y < HEIGHT =>
        seq(WIDTH, x reads b requires 0 <= x < WIDTH => b[y, x]))
    }

    ghost function State(): GameState
      reads this, board
      requires Shaped()
    {
      GameState(Cells(), currPlayer, gameOver)
    }

    ghost predicate Valid()
      reads this, board
    {
      Shaped() && Consistent(State())
    }

    /** A new game, which is also what a reset produces. */
    constructor ()
      ensures Valid() && fresh(board)
      ensures State() == Initial()
    {
      var b := MakeBoard();
      board := b;
      currPlayer := 1;
      gameOver := false;
      new;
      assert Cells() == EmptyGrid() by {
        forall y | 0 <= y < HEIGHT
          ensures Cells()[y] == EmptyGrid()[y]
        {
        }
      }
      InitialConsistent();
    }

    /** The lowest empty row of column x, scanning from the bottom row up; None
     *  when the column is full. */
    method FindSpotForCol(x: int) returns (r: Option<nat>)
      requires Shaped() && 0 <= x < WIDTH
      ensures r == LandingRow(Cells(), x)
    {
      var y := HEIGHT - 1;
      while y >= 0
        invariant -1 <= y < HEIGHT
        invariant forall i :: y < i < HEIGHT ==> board[i, x] != EMPTY
      {
        if board[y, x] == EMPTY {
          return Some(y);
        }
        y := y - 1;
      }
      return None;
    }

    /** Whether every cell of the run holds an on-board piece of player p. */
    predicate IsRunOf(cells: seq<(int, int)>, p: int)
      reads this, board
      requires Shaped()
      ensures IsRunOf(cells, p) <==> AllMatch(Cells(), cells, p)
    {
      forall i :: 0 <= i < |cells| ==>
        InBounds(cells[i].0, cells[i].1) && board[cells[i].0, cells[i].1] == p
    }

    /** Whether every cell of the board is occupied. */
    predicate IsFull()
      reads this, board
      requires Shaped()
      ensures IsFull() <==> Full(Cells())
    {
      forall y, x :: 0 <= y < HEIGHT && 0 <= x < WIDTH ==> board[y, x] != EMPTY
    }

    /** Scans every start cell, row by row, in the four directions and reports
     *  whether player p has four in a row. */
    method CheckForWin(p: int) returns (won: bool)
      requires Shaped()
      ensures won <==> HasWin(Cells(), p)
    {
      var y := 0;
      while y < HEIGHT
        invariant 0 <= y <= HEIGHT
        invariant forall i, j, d :: 0 <= i < y && 0 <= j < WIDTH ==> !IsRunOf(Line(i, j, d), p)
      {
        var x := 0;
        while x < WIDTH
          invariant 0 <= x <= WIDTH
          invariant forall i, j, d :: 0 <= i < y && 0 <= j < WIDTH ==> !IsRunOf(Line(i, j, d), p)
          invariant forall j, d :: 0 <= j < x ==> !IsRunOf(Line(y, j, d), p)
        {
          if IsRunOf(Line(y, x, Right), p) || IsRunOf(Line(y, x, Down), p)
            || IsRunOf(Line(y, x, DownRight), p) || IsRunOf(Line(y, x, DownLeft), p)
          {
            assert exists d :: AllMatch(Cells(), Line(y, x, d), p);
            return true;
          }
          forall d
            ensures !IsRunOf(Line(y, x, d), p)
          {
            match d
            case Right =>
            case Down =>
            case DownRight =>
            case DownLeft =>
          }
          x := x + 1;
        }
        y := y + 1;
      }
      return false;
    }

    /** Writes player p's piece into cell (y, x), changing no other cell. */
    method Drop(y: nat, x: nat, p: int)
      requires Shaped() && InBounds(y, x)
      modifies board
      ensures Cells() == Place(old(Cells()), y, x, p)
    {
      board[y, x] := p;
      forall i | 0 <= i < HEIGHT
        ensures Cells()[i] == Place(old(Cells()), y, x, p)[i]
      {
      }
    }

    /** Settles the turn after a piece landed in row y: a win ends the game,
     *  else a full board ends it in a tie, else the turn passes to the other player. */
    method EndTurn(y: nat) returns (res: MoveResult)
      requires Shaped() && !gameOver
      modifies this`currPlayer, this`gameOver
      ensures (State(), res) == Settle(Cells(), old(currPlayer), y)
    {
      var won := CheckForWin(currPlayer);
      if won {
        gameOver := true;
        return Placed(y, Win);
      }
      if IsFull() {
        gameOver := true;
        return Placed(y, Tie);
      }
      currPlayer := Other(currPlayer);
      return Placed(y, Continues);
    }

    /** A click on column x: ignored once the game is over or when the column is
     *  full; otherwise the current player's piece is written into the landing
     *  cell and the turn is settled. */
    method HandleClick(x: int) returns (res: MoveResult)
      requires Valid() && 0 <= x < WIDTH
      modifies this, board
      ensures Valid() && board == old(board)
      ensures (State(), res) == Click(old(State()), x)
    {
      ghost var s := State();
      ClickConsistent(s, x);
      if gameOver {
        return Locked;
      }
      var spot := FindSpotForCol(x);
      if spot.None? {
        return ColumnIsFull;
      }
      var y := spot.value;
      Drop(y, x, currPlayer);
      res := EndTurn(y);
    }
  }
}
