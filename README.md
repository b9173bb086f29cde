# Connect Four game engine, modelled in Dafny

This project models the game-state engine of a browser Connect Four game
(`connect4.js`). Two players take turns dropping pieces into the seven columns
of a six-row board. A piece settles in the lowest empty cell of its column. The
first player with four pieces in a row (horizontally, vertically or on either
diagonal) wins. If the board fills with no winner, the game is a tie.

The model has four modules, one file each:

- `board.dfy`, module `Board`: the board as a value (`Grid`, rows of cells,
  `EMPTY` or a player number), a new board, the landing-row search, writing one
  piece, the full-board test, the no-floating-piece property and a piece count.
- `win.dfy`, module `WinDetector`: the four-cell runs scanned from every start
  cell in four directions (`Line`), the per-run test (`AllMatch`, `connect4.js`'s
  `_win`) and the existential win predicate `HasWin`.
- `engine.dfy`, module `Engine`: the game state (board, player to move, the
  input lock that a win or tie leaves set), the pure transition for one click
  (`Click`, with `Settle` for the win/tie/turn decision), the result of playing
  a sequence of clicks, the state invariant `Consistent`, and the lemmas about
  them.
- `game.dfy`, module `Connect4`: the imperative engine. A `Game` object holds an
  `array2<int>` board, `currPlayer` and `gameOver`, and updates them in place.
  `MakeBoard`, `FindSpotForCol`, `CheckForWin` and `HandleClick` keep the
  loops of `connect4.js`. Each is proved against the value-level functions above, and
  `HandleClick` keeps the object invariant `Valid()`.

Conventions:

- An empty cell is `EMPTY` (0), which stands for JavaScript's `undefined`. The
  game tests cells for truthiness. Pieces are 1 or 2, so a cell is truthy
  exactly when it is not `EMPTY`.
- The subject player of the win check is a parameter, not the global.
- The input lock `noClicking` is set when a piece is accepted. It is released by
  a timer only when the game goes on, so after a win or a tie it stays set.
  The model keeps only that lasting effect, as the flag `gameOver`, which is set
  exactly on a win or a tie. On the continuing path, the model treats the timer
  as having fired before the next click.
- Columns are integers with `0 <= x < WIDTH`. `connect4.js` does not validate the
  column either.
- A reset reloads the page. In the model, a reset is the construction of a
  fresh `Game`.

## Model

| member | source | states |
|---|---|---|
| `Connect4.MakeBoard` | connect4.js:22-27 | returns a new HEIGHT x WIDTH board whose every cell is empty |
| `Connect4.Game.constructor` | connect4.js:8-27 | a new game has an empty board, player 1 to move and input accepted (`State() == Initial()`), and satisfies the invariant |
| `Board.EmptyGrid` | connect4.js:22-27 | the new board has HEIGHT rows of WIDTH cells, all empty |
| `Board.ScanUp` | connect4.js:63-68 | scanning column x from row n-1 upwards returns the first empty row, with every cell between it and row n-1 occupied; it returns None only if rows 0..n-1 of the column are all occupied |
| `Board.LandingRow` | connect4.js:61-69 | the landing row is empty and every cell below it is occupied, so it is the largest empty row; the result is None exactly when the column is full |
| `Connect4.Game.FindSpotForCol` | connect4.js:61-69 | the bottom-up loop with early return yields exactly `LandingRow` of the current board |
| `Board.LandingRowSplitsColumn` | connect4.js:61-69 | on a board without floating pieces, every cell at or above the landing row is empty |
| `Board.Place` | connect4.js:112 | writing a piece changes exactly the one cell (y, x), to p; every other cell keeps its value |
| `Board.PlaceKeepsGravity` | connect4.js:103-112 | dropping a piece at the landing row keeps each column's occupied cells one run that ends at the bottom row |
| `Board.PlaceCount` | connect4.js:112 | writing a piece into an empty cell raises the piece count by exactly one |
| `Board.CountRange` | connect4.js:22-27 | a board holds between 0 and HEIGHT*WIDTH pieces, and a new board holds none |
| `WinDetector.Line` | connect4.js:159-162 | each run has four coordinates and starts at its start cell |
| `Connect4.Game.IsRunOf` | connect4.js:148-154 | the `_win` test on the array holds iff all four coordinates are on the board and hold the player (`AllMatch` on the board's value) |
| `Connect4.Game.CheckForWin` | connect4.js:147-169 | the row-by-row scan over every start cell and the four directions returns true iff `HasWin`: some start cell and direction give four on-board cells all equal to the player |
| `WinDetector.FourInALineWins` | connect4.js:156-166 | any four on-board cells of the player along one of the four directions are a win |
| `WinDetector.PlaceKeepsOtherWins` | connect4.js:153 | writing p's piece cannot create a win for any other player: runs with a cell of another player never count |
| `WinDetector.NewWinRunsThroughLastPiece` | connect4.js:112-118 | a win that appears after a piece is placed uses that piece's cell, so the check never credits a line that existed before the move |
| `WinDetector.BottomRowExample` | connect4.js:156-166 | three pieces in a row on the bottom row are not a win, and adding the fourth makes one |
| `Connect4.Game.IsFull` | connect4.js:124 | the tie test on the array holds iff every cell of the board is occupied |
| `Connect4.Game.Drop` | connect4.js:112 | the array write changes the board's value to `Place(old board, y, x, p)` |
| `Connect4.Game.EndTurn` | connect4.js:117-130 | after a piece lands: a win sets the lock and keeps the player; otherwise a full board sets the lock (tie); otherwise the player toggles; the new state equals `Settle` |
| `Connect4.Game.HandleClick` | connect4.js:97-143 | the new state and the reported result equal the pure transition `Click` of the old state, and the invariant `Valid()` is preserved |
| `Engine.Other` | connect4.js:130 | the next player is always 1 or 2, and differs from the current one when that is 1 or 2 |
| `Engine.ClickRejected` | connect4.js:99-106 | a click is rejected exactly when the game is over or the column is full; a rejected click leaves the board, the player and the lock unchanged |
| `Engine.ClickChangesOneCell` | connect4.js:103-112 | an accepted click changes exactly one cell: the landing cell of the column, which was empty with everything below it occupied, now holds the mover's piece |
| `Engine.ClickOutcome` | connect4.js:117-130 | the outcome is a win iff the new board has four in a row for the mover, even when the board is also full; a tie iff it is full without such a win; the player toggles only when the game goes on |
| `Engine.InitialConsistent` | connect4.js:8-27 | a new game satisfies the invariant: no floating pieces, no winner, an open cell, player 1 or 2 |
| `Engine.ClickConsistent` | connect4.js:97-143 | every click keeps the invariant: no floating pieces; while the game goes on neither player has a win and the board is not full; once over, the mover has won or the board is full |
| `Engine.PlayConsistent` | connect4.js:97-143 | every state reached by a sequence of clicks satisfies the invariant |
| `Engine.GameOverIsFinal` | connect4.js:99-126 | after a win or tie, no sequence of clicks changes the state or places a piece |
| `Engine.TurnsAlternate` | connect4.js:128-130 | while the game goes on, after an even number of accepted clicks the same player is to move, after an odd number the other |
| `Engine.PlayerOneStarts` | connect4.js:11 | from a new game, player 1 is to move after an even number of accepted clicks and player 2 after an odd number |
| `Engine.PlayCount` | connect4.js:103-112 | each accepted click adds exactly one piece to the board |
| `Engine.GameLength` | connect4.js:103-126 | a game accepts at most HEIGHT*WIDTH clicks, however many are made |

## Left out

- Rendering: `makeHtmlBoard` and `placeInTable` build and update the HTML table. They are UI only.
- `endGame`: the delayed alert and page reload are browser I/O and timing. The model reports the outcome as a `MoveResult` instead.
- Sound: the `sound` constructor and the calls to play the piece and winner sounds are audio side effects.
- The timer that releases `noClicking` 1.5 s after a continuing move is animation timing. During that window `connect4.js` ignores clicks; the model assumes the window has passed before the next click.
- `currPlayerColor` and the player indicator text and classes are presentation state.
- Reading the column from the clicked element's id: the model takes the column as an integer in `0 .. WIDTH-1`. A click whose id is not a column index is not modelled.
- `resetGame` reloads the page. The model covers reset as constructing a fresh `Game`.
- Board dimensions are the game's constants (7 wide, 6 high); the lemmas hold for these values only.
