/** The turn state machine: what one click on a column does to the game, and
 *  what a whole sequence of clicks does. */
module Engine {
  import opened Board
  import opened WinDetector

  /** The game's state: the board, the player to move (1 or 2), and whether the
   *  game is over, which is the input lock that is never released after a win or tie. */
  datatype GameState = GameState(grid: Grid, player: int, over: bool)

  /** How a placed piece ended the turn. */
  datatype Outcome = Continues | Win | Tie

  /** What a click did: ignored because the game is over, ignored because the
   *  column is full, or a piece placed in the given row. */
  datatype MoveResult = Locked | ColumnIsFull | Placed(row: nat, outcome: Outcome)

  predicate IsPlayer(p: int) {
    p == 1 || p == 2
  }

  /** The player who moves after p. */
  function Other(p: int): (q: int)
    ensures IsPlayer(q)
    ensures IsPlayer(p) ==> q != p
  {
    if p == 1 then 2 else 1
  }

  /** A new game: empty board, player 1 to move, input accepted. */
  function Initial(): GameState
  {
    GameState(EmptyGrid(), 1, false)
  }

  /** Every state a game can reach satisfies this: the board has the right
   *  shape, holds only pieces of players 1 and 2 with no floating piece, a game
   *  in progress has no winner and an open cell, and a finished game was won
   *  by the player whose turn it was or has a full board. */
  ghost predicate Consistent(s: GameState)
  {
    && WellFormed(s.grid)
    && IsPlayer(s.player)
    && (forall y, x :: InBounds(y, x) ==> s.grid[y][x] == EMPTY || IsPlayer(s.grid[y][x]))
    && Gravity(s.grid)
    && (!s.over ==> !HasWin(s.grid, 1) && !HasWin(s.grid, 2) && !Full(s.grid))
    && (s.over ==> HasWin(s.grid, s.player) || Full(s.grid))
  }

  /** One click on column x: the game-logic part of the click handler. A click
   *  after the game is over, or on a full column, changes nothing. Otherwise
   *  the current player's piece lands in the lowest empty cell and the turn
   *  is settled on the new board. */
  ghost function Click(s: GameState, x: int): (r: (GameState, MoveResult))
    requires WellFormed(s.grid) && 0 <= x < WIDTH
    ensures WellFormed(r.0.grid)
  {
    if s.over then (s, Locked)
    else match LandingRow(s.grid, x)
      case None => (s, ColumnIsFull)
      case Some(y) => Settle(Place(s.grid, y, x, s.player), s.player, y)
  }

  /** Ends the turn of player p, whose piece has just landed in row y of grid g:
   *  a win is checked first, then a tie, and only if neither happened does the
   *  turn pass to the other player. */
  ghost function Settle(g: Grid, p: int, y: nat): (r: (GameState, MoveResult))
    requires WellFormed(g)
    ensures r.0.grid == g
  {
    if HasWin(g, p) then (GameState(g, p, true), Placed(y, Win))
    else if Full(g) then (GameState(g, p, true), Placed(y, Tie))
    else (GameState(g, Other(p), false), Placed(y, Continues))
  }

  predicate ValidColumns(xs: seq<int>) {
    forall i :: 0 <= i < |xs| ==> 0 <= xs[i] < WIDTH
  }

  /** The state after clicking the columns xs in order. */
  ghost function Play(s: GameState, xs: seq<int>): (r: GameState)
    requires WellFormed(s.grid) && ValidColumns(xs)
    ensures WellFormed(r.grid)
    decreases |xs|
  {
    if xs == [] then s else Play(Click(s, xs[0]).0, xs[1..])
  }

  /** How many of the clicks xs placed a piece. */
  ghost function Accepted(s: GameState, xs: seq<int>): nat
    requires WellFormed(s.grid) && ValidColumns(xs)
    decreases |xs|
  {
    if xs == [] then 0
    else (if Click(s, xs[0]).1.Placed? then 1 else 0) + Accepted(Click(s, xs[0]).0, xs[1..])
  }

  // ---------------------------------------------------------------------
  // One click

  /** A click is rejected exactly when the game is over or the column is full,
   *  and a rejected click leaves board, player and lock as they were. */
  lemma ClickRejected(s: GameState, x: int)
    requires WellFormed(s.grid) && 0 <= x < WIDTH
    ensures Click(s, x).1 == Locked <==> s.over
    ensures Click(s, x).1 == ColumnIsFull <==> !s.over && ColumnFull(s.grid, x)
    ensures !Click(s, x).1.Placed? ==> Click(s, x).0 == s
  {
  }

  /** An accepted click changes exactly one cell: the landing cell of column x,
   *  which was empty, all cells below it being occupied, and now holds the
   *  piece of the player who clicked. */
  lemma ClickChangesOneCell(s: GameState, x: int)
    requires WellFormed(s.grid) && 0 <= x < WIDTH
    requires Click(s, x).1.Placed?
    ensures var y, g := Click(s, x).1.row, Click(s, x).0.grid;
      && y < HEIGHT
      && s.grid[y][x] == EMPTY
      && (forall i :: y < i < HEIGHT ==> s.grid[i][x] != EMPTY)
      && g[y][x] == s.player
      && (forall i, j :: InBounds(i, j) && (i != y || j != x) ==> g[i][j] == s.grid[i][j])
  {
  }

  /** The outcome of an accepted click: a win for the mover whenever the new
   *  board has four in a row for them, even if it is also full; a tie only on a
   *  full board without such a win; otherwise the turn passes to the other player. */
  lemma ClickOutcome(s: GameState, x: int)
    requires WellFormed(s.grid) && IsPlayer(s.player) && 0 <= x < WIDTH
    requires Click(s, x).1.Placed?
    ensures var (t, res) := Click(s, x);
      && (res.outcome == Win <==> HasWin(t.grid, s.player))
      && (res.outcome == Tie <==> !HasWin(t.grid, s.player) && Full(t.grid))
      && (res.outcome == Continues <==> !t.over)
      && (t.over ==> t.player == s.player)
      && (!t.over ==> t.player == Other(s.player))
  {
  }

  /** A new game is consistent. */
  lemma InitialConsistent()
    ensures Consistent(Initial())
  {
    var g := EmptyGrid();
    forall p, y, x, d | IsPlayer(p) && 0 <= y < HEIGHT && 0 <= x < WIDTH
      ensures !AllMatch(g, Line(y, x, d), p)
    {
      assert g[y][x] == EMPTY;
    }
    assert g[0][0] == EMPTY;
  }

  /** Every click keeps the game consistent. */
  lemma ClickConsistent(s: GameState, x: int)
    requires Consistent(s) && 0 <= x < WIDTH
    ensures Consistent(Click(s, x).0)
  {
    if !s.over && LandingRow(s.grid, x).Some? {
      var y := LandingRow(s.grid, x).value;
      var g := Place(s.grid, y, x, s.player);
      PlaceKeepsGravity(s.grid, x, s.player);
      if !HasWin(g, s.player) && !Full(g) {
        if HasWin(g, Other(s.player)) {
          PlaceKeepsOtherWins(s.grid, y, x, s.player, Other(s.player));
          assert false;
        }
      }
    }
  }

  // ---------------------------------------------------------------------
  // Sequences of clicks

  /** Once the game is over, no click changes anything and none is accepted. */
  lemma {:induction false} GameOverIsFinal(s: GameState, xs: seq<int>)
    requires WellFormed(s.grid) && ValidColumns(xs) && s.over
    ensures Play(s, xs) == s
    ensures Accepted(s, xs) == 0
    decreases |xs|
  {
    if xs != [] {
      GameOverIsFinal(s, xs[1..]);
    }
  }

  /** Every state reached by clicks from a consistent state is consistent. */
  lemma {:induction false} PlayConsistent(s: GameState, xs: seq<int>)
    requires Consistent(s) && ValidColumns(xs)
    ensures Consistent(Play(s, xs))
    decreases |xs|
  {
    if xs != [] {
      ClickConsistent(s, xs[0]);
      PlayConsistent(Click(s, xs[0]).0, xs[1..]);
    }
  }

  /** Turns alternate strictly: while the game goes on, after an even number of
   *  accepted clicks the same player is to move again, after an odd number the other. */
  lemma {:induction false} TurnsAlternate(s: GameState, xs: seq<int>)
    requires WellFormed(s.grid) && IsPlayer(s.player) && ValidColumns(xs)
    ensures !Play(s, xs).over ==>
      Play(s, xs).player == if Accepted(s, xs) % 2 == 0 then s.player else Other(s.player)
    decreases |xs|
  {
    if xs != [] {
      var t := Click(s, xs[0]).0;
      if t.over {
        GameOverIsFinal(t, xs[1..]);
      } else {
        TurnsAlternate(t, xs[1..]);
      }
    }
  }

  /** From a new game, player 1 is to move after an even number of accepted
   *  clicks and player 2 after an odd number, as long as the game goes on. */
  lemma PlayerOneStarts(xs: seq<int>)
    requires ValidColumns(xs)
    ensures !Play(Initial(), xs).over ==>
      Play(Initial(), xs).player == if Accepted(Initial(), xs) % 2 == 0 then 1 else 2
  {
    TurnsAlternate(Initial(), xs);
  }

  /** Each accepted click adds exactly one piece to the board. */
  lemma {:induction false} PlayCount(s: GameState, xs: seq<int>)
    requires Consistent(s) && ValidColumns(xs)
    ensures Count(Play(s, xs).grid) == Count(s.grid) + Accepted(s, xs)
    decreases |xs|
  {
    if xs != [] {
      var (t, res) := Click(s, xs[0]);
      if res.Placed? {
        PlaceCount(s.grid, res.row, xs[0], s.player);
      }
      ClickConsistent(s, xs[0]);
      PlayCount(t, xs[1..]);
    }
  }

  /** A game accepts at most HEIGHT * WIDTH clicks, however many clicks are made. */
  lemma GameLength(xs: seq<int>)
    requires ValidColumns(xs)
    ensures Accepted(Initial(), xs) <= HEIGHT * WIDTH
  {
    InitialConsistent();
    PlayCount(Initial(), xs);
    CountRange(Play(Initial(), xs).grid);
  }
}
