/** Win detection: does a player have four pieces in a line anywhere on the grid? */
module WinDetector {
  import opened Board

  /** The four directions a run is scanned in from its start cell. */
  datatype Direction = Right | Down | DownRight | DownLeft

  /** The (row, column) step of a direction. */
  function Delta(d: Direction): (int, int)
  {
    match d
    case Right => (0, 1)
    case Down => (1, 0)
    case DownRight => (1, 1)
    case DownLeft => (1, -1)
  }

  /** The four coordinates of the run that starts at (y, x) and steps along d.
   *  Coordinates may fall outside the grid. */
  function Line(y: int, x: int, d: Direction): (cells: seq<(int, int)>)
    ensures |cells| == 4 && cells[0] == (y, x)
  {
    var (dy, dx) := Delta(d);
    [(y, x), (y + dy, x + dx), (y + 2 * dy, x + 2 * dx), (y + 3 * dy, x + 3 * dx)]
  }

  /** Every coordinate in cells lies on the grid and holds a piece of player p. */
  predicate AllMatch(g: Grid, cells: seq<(int, int)>, p: int)
    requires WellFormed(g)
  {
    forall i :: 0 <= i < |cells| ==> InBounds(cells[i].0, cells[i].1) && g[cells[i].0][cells[i].1] == p
  }

  /** Player p has four in a row: some start cell and some direction give a
   *  run of four on-grid cells all holding p. */
  ghost predicate HasWin(g: Grid, p: int)
    requires WellFormed(g)
  {
    exists y, x, d :: 0 <= y < HEIGHT && 0 <= x < WIDTH && AllMatch(g, Line(y, x, d), p)
  }

  /** Any four on-grid cells in a line holding p are a win for p, wherever the
   *  run starts and whichever way it points. */
  lemma FourInALineWins(g: Grid, p: int, y: int, x: int, d: Direction)
    requires WellFormed(g)
    requires forall k :: 0 <= k < 4 ==>
      InBounds(y + k * Delta(d).0, x + k * Delta(d).1) && g[y + k * Delta(d).0][x + k * Delta(d).1] == p
    ensures HasWin(g, p)
  {
    var cells := Line(y, x, d);
    assert AllMatch(g, cells, p) by {
      forall i | 0 <= i < 4
        ensures InBounds(cells[i].0, cells[i].1) && g[cells[i].0][cells[i].1] == p
      {
        assert cells[i] == (y + i * Delta(d).0, x + i * Delta(d).1);
      }
    }
  }

  /** Writing p into one cell cannot give any other player a win they did not already have. */
  lemma PlaceKeepsOtherWins(g: Grid, y: int, x: int, p: int, q: int)
    requires WellFormed(g) && InBounds(y, x) && q != p
    requires HasWin(Place(g, y, x, p), q)
    ensures HasWin(g, q)
  {
    var g' := Place(g, y, x, p);
    var y0, x0, d :| 0 <= y0 < HEIGHT && 0 <= x0 < WIDTH && AllMatch(g', Line(y0, x0, d), q);
    var cells := Line(y0, x0, d);
    forall i | 0 <= i < |cells|
      ensures InBounds(cells[i].0, cells[i].1) && g[cells[i].0][cells[i].1] == q
    {
      assert g'[cells[i].0][cells[i].1] == q;
    }
    assert AllMatch(g, cells, q);
  }

  /** A win that appears when p's piece is written into (y, x) runs through (y, x):
   *  win detection never credits a line that was complete before the move. */
  lemma NewWinRunsThroughLastPiece(g: Grid, y: int, x: int, p: int)
    requires WellFormed(g) && InBounds(y, x)
    requires !HasWin(g, p) && HasWin(Place(g, y, x, p), p)
    ensures exists y0, x0, d, k ::
              && 0 <= y0 < HEIGHT && 0 <= x0 < WIDTH && 0 <= k < 4
              && AllMatch(Place(g, y, x, p), Line(y0, x0, d), p)
              && Line(y0, x0, d)[k] == (y, x)
  {
    var g' := Place(g, y, x, p);
    var y0, x0, d :| 0 <= y0 < HEIGHT && 0 <= x0 < WIDTH && AllMatch(g', Line(y0, x0, d), p);
    var cells := Line(y0, x0, d);
    if forall k :: 0 <= k < 4 ==> cells[k] != (y, x) {
      forall i | 0 <= i < |cells|
        ensures InBounds(cells[i].0, cells[i].1) && g[cells[i].0][cells[i].1] == p
      {
        assert g'[cells[i].0][cells[i].1] == p;
      }
      assert AllMatch(g, cells, p);
      assert false;
    }
  }

  /** Three pieces in a row on the bottom row are not a win; the fourth makes one. */
  lemma BottomRowExample()
    ensures var three := Place(Place(Place(EmptyGrid(), 5, 0, 1), 5, 1, 1), 5, 2, 1);
      && !HasWin(three, 1)
      && HasWin(Place(three, 5, 3, 1), 1)
  {
    var three := Place(Place(Place(EmptyGrid(), 5, 0, 1), 5, 1, 1), 5, 2, 1);
    assert forall i, j :: InBounds(i, j) && three[i][j] == 1 ==> i == 5 && 0 <= j <= 2;
    forall y, x, d | 0 <= y < HEIGHT && 0 <= x < WIDTH
      ensures !AllMatch(three, Line(y, x, d), 1)
    {
      var c := Line(y, x, d);
      assert !(InBounds(c[0].0, c[0].1) && three[c[0].0][c[0].1] == 1 &&
               InBounds(c[3].0, c[3].1) && three[c[3].0][c[3].1] == 1);
    }
    var four := Place(three, 5, 3, 1);
    assert AllMatch(four, Line(5, 0, Right), 1);
  }
}
