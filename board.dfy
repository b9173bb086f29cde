/** The in-memory board of a Connect Four game, as values.
 *
 *  A grid is a sequence of HEIGHT rows of WIDTH cells, indexed `g[y][x]`;
 *  row 0 is the top and pieces settle towards row HEIGHT - 1. A cell holds
 *  EMPTY or the number of the player whose piece is there (1 or 2).
 */
module Board {

  const WIDTH: nat := 7
  const HEIGHT: nat := 6

  /** The value of a cell nobody has played in (the JavaScript board leaves it undefined). */
  const EMPTY: int := 0

  datatype Option<T> = None | Some(value: T)

  type Grid = seq<seq<int>>

  /** HEIGHT rows, each of WIDTH cells. */
  predicate WellFormed(g: Grid) {
    |g| == HEIGHT && forall y :: 0 <= y < HEIGHT ==> |g[y]| == WIDTH
  }

  predicate InBounds(y: int, x: int) {
    0 <= y < HEIGHT && 0 <= x < WIDTH
  }

  /** The board a new game starts with: every cell empty. */
  function EmptyGrid(): (g: Grid)
    ensures WellFormed(g)
    ensures forall y, x :: InBounds(y, x) ==> g[y][x] == EMPTY
  {
    seq(HEIGHT, _ => seq(WIDTH, _ => EMPTY))
  }

  /** Every cell of column x is occupied. */
  predicate ColumnFull(g: Grid, x: int)
    requires WellFormed(g) && 0 <= x < WIDTH
  {
    forall y :: 0 <= y < HEIGHT ==> g[y][x] != EMPTY
  }

  /** Every cell of the grid is occupied: the tie test. */
  predicate Full(g: Grid)
    requires WellFormed(g)
  {
    forall y, x :: 0 <= y < HEIGHT && 0 <= x < WIDTH ==> g[y][x] != EMPTY
  }

  /** The row a piece dropped into column x comes to rest in: the lowest
   *  empty cell of the column, or None when the column is full. */
  function LandingRow(g: Grid, x: int): (r: Option<nat>)
    requires WellFormed(g) && 0 <= x < WIDTH
    ensures r.Some? ==> r.value < HEIGHT && g[r.value][x] == EMPTY
    ensures r.Some? ==> forall y :: r.value < y < HEIGHT ==> g[y][x] != EMPTY
    ensures r.None? <==> ColumnFull(g, x)
  {
    ScanUp(g, x, HEIGHT)
  }

  /** The lowest empty cell of column x among rows 0 .. n-1, scanning from row n-1 upwards. */
  function ScanUp(g: Grid, x: int, n: nat): (r: Option<nat>)
    requires WellFormed(g) && 0 <= x < WIDTH && n <= HEIGHT
    ensures r.Some? ==> r.value < n && g[r.value][x] == EMPTY
    ensures r.Some? ==> forall y :: r.value < y < n ==> g[y][x] != EMPTY
    ensures r.None? ==> forall y :: 0 <= y < n ==> g[y][x] != EMPTY
  {
    if n == 0 then None
    else if g[n - 1][x] == EMPTY then Some(n - 1)
    else ScanUp(g, x, n - 1)
  }

  /** The grid with player p's piece written into cell (y, x). */
  function Place(g: Grid, y: int, x: int, p: int): (r: Grid)
    requires WellFormed(g) && InBounds(y, x)
    ensures WellFormed(r)
    ensures r[y][x] == p
    ensures forall i, j :: InBounds(i, j) && (i != y || j != x) ==> r[i][j] == g[i][j]
  {
    g[y := g[y][x := p]]
  }

  /** No floating pieces: in every column the occupied cells form one run
   *  that reaches the bottom row, so below an occupied cell all are occupied. */
  predicate Gravity(g: Grid)
    requires WellFormed(g)
  {
    forall y, y', x :: 0 <= y <= y' < HEIGHT && 0 <= x < WIDTH && g[y][x] != EMPTY ==> g[y'][x] != EMPTY
  }

  /** Under gravity, every cell at or above the landing row is empty, so the
   *  landing row splits the column into an empty top and an occupied bottom. */
  lemma LandingRowSplitsColumn(g: Grid, x: int)
    requires WellFormed(g) && Gravity(g) && 0 <= x < WIDTH
    requires LandingRow(g, x).Some?
    ensures forall y :: 0 <= y <= LandingRow(g, x).value ==> g[y][x] == EMPTY
  {
  }

  /** Dropping a piece at the landing row keeps every column free of floating pieces. */
  lemma PlaceKeepsGravity(g: Grid, x: int, p: int)
    requires WellFormed(g) && Gravity(g) && 0 <= x < WIDTH && p != EMPTY
    requires LandingRow(g, x).Some?
    ensures Gravity(Place(g, LandingRow(g, x).value, x, p))
  {
  }

  // ---------------------------------------------------------------------
  // Counting pieces

  /** The number of occupied cells in a row. */
  function CountRow(row: seq<int>): (n: nat)
    ensures n <= |row|
  {
    if row == [] then 0
    else (if row[0] != EMPTY then 1 else 0) + CountRow(row[1..])
  }

  /** The number of occupied cells in a grid. */
  function Count(g: Grid): nat
  {
    if g == [] then 0 else CountRow(g[0]) + Count(g[1..])
  }

  lemma {:induction false} CountRowUpdate(row: seq<int>, x: int, p: int)
    requires 0 <= x < |row| && row[x] == EMPTY && p != EMPTY
    ensures CountRow(row[x := p]) == CountRow(row) + 1
  {
    if x == 0 {
      assert row[x := p][1..] == row[1..];
    } else {
      assert row[x := p][1..] == row[1..][x - 1 := p];
      CountRowUpdate(row[1..], x - 1, p);
    }
  }

  lemma {:induction false} CountUpdate(g: Grid, y: int, row: seq<int>)
    requires 0 <= y < |g|
    ensures Count(g[y := row]) == Count(g) - CountRow(g[y]) + CountRow(row)
  {
    if y == 0 {
      assert g[y := row][1..] == g[1..];
    } else {
      assert g[y := row][1..] == g[1..][y - 1 := row];
      CountUpdate(g[1..], y - 1, row);
    }
  }

  /** Placing a piece into an empty cell adds exactly one piece to the board. */
  lemma PlaceCount(g: Grid, y: int, x: int, p: int)
    requires WellFormed(g) && InBounds(y, x) && g[y][x] == EMPTY && p != EMPTY
    ensures Count(Place(g, y, x, p)) == Count(g) + 1
  {
    CountRowUpdate(g[y], x, p);
    CountUpdate(g, y, g[y][x := p]);
  }

  lemma {:induction false} CountBound(g: Grid)
    requires forall y :: 0 <= y < |g| ==> |g[y]| == WIDTH
    ensures Count(g) <= |g| * WIDTH
  {
    if g != [] {
      CountBound(g[1..]);
    }
  }

  lemma {:induction false} CountZero(g: Grid)
    requires forall y, x :: 0 <= y < |g| && 0 <= x < |g[y]| ==> g[y][x] == EMPTY
    ensures Count(g) == 0
  {
    if g != [] {
      CountRowZero(g[0]);
      CountZero(g[1..]);
    }
  }

  lemma {:induction false} CountRowZero(row: seq<int>)
    requires forall x :: 0 <= x < |row| ==> row[x] == EMPTY
    ensures CountRow(row) == 0
  {
    if row != [] {
      CountRowZero(row[1..]);
    }
  }

  /** A board holds at most HEIGHT * WIDTH pieces; a new board holds none. */
  lemma CountRange(g: Grid)
    requires WellFormed(g)
    ensures Count(g) <= HEIGHT * WIDTH
    ensures Count(EmptyGrid()) == 0
  {
    CountBound(g);
    CountZero(EmptyGrid());
  }
}
