/** The game window, its cells and the invariants a snake body keeps inside it. */
module Grid {

  /** The window is WinHeight rows by WinWidth columns; the outer ring is the frame. */
  const WinHeight: int := 24
  const WinWidth: int := 80

  /** Largest interior row and column (the literals 22 and 78 of the move checks). */
  const MaxRow: int := WinHeight - 2
  const MaxCol: int := WinWidth - 2

  /** One grid square, by value (the row and column of a list node). */
  datatype Cell = Cell(row: int, col: int)

  /** The four arrow keys that move the snake. */
  datatype Direction = Left | Right | Up | Down

  /** A key read from the terminal: an arrow key, 'q', or any other key, which the
      game loop ignores (Other never stands for an arrow key, 'q' or 'r'). */
  datatype Key = Arrow(dir: Direction) | Quit | Other

  predicate InInterior(c: Cell) {
    1 <= c.row <= MaxRow && 1 <= c.col <= MaxCol
  }

  function Abs(x: int): nat {
    if x < 0 then -x else x
  }

  /** Orthogonal neighbours: Manhattan distance exactly 1. */
  predicate Adjacent(a: Cell, b: Cell) {
    Abs(a.row - b.row) + Abs(a.col - b.col) == 1
  }

  /** The cell one step from c in direction d (rows grow downwards). */
  function Shift(c: Cell, d: Direction): Cell {
    match d
    case Left => Cell(c.row, c.col - 1)
    case Right => Cell(c.row, c.col + 1)
    case Up => Cell(c.row - 1, c.col)
    case Down => Cell(c.row + 1, c.col)
  }

  function Opposite(d: Direction): Direction {
    match d
    case Left => Right
    case Right => Left
    case Up => Down
    case Down => Up
  }

  lemma ShiftAdjacent(c: Cell, d: Direction)
    ensures Adjacent(c, Shift(c, d)) && Shift(c, d) != c
  {
  }

  /** Stepping back the opposite way undoes a step. */
  lemma ShiftOpposite(c: Cell, d: Direction)
    ensures Shift(Shift(c, d), Opposite(d)) == c
  {
  }

  /** Different directions lead to different cells, and every neighbour is reached by one. */
  lemma ShiftCoversNeighbours(c: Cell, n: Cell)
    ensures Adjacent(c, n) <==> exists d: Direction :: Shift(c, d) == n
  {
    if Adjacent(c, n) {
      if n.row == c.row - 1 {
        assert Shift(c, Up) == n;
      } else if n.row == c.row + 1 {
        assert Shift(c, Down) == n;
      } else if n.col == c.col - 1 {
        assert Shift(c, Left) == n;
      } else {
        assert Shift(c, Right) == n;
      }
    }
  }

  /** No two segments share a cell. */
  predicate NoDuplicates(body: seq<Cell>) {
    forall i, j :: 0 <= i < j < |body| ==> body[i] != body[j]
  }

  predicate AllInInterior(body: seq<Cell>) {
    forall i :: 0 <= i < |body| ==> InInterior(body[i])
  }

  /** Consecutive segments are orthogonal neighbours. */
  predicate Connected(body: seq<Cell>) {
    forall i :: 0 <= i < |body| - 1 ==> Adjacent(body[i], body[i + 1])
  }

  /** The invariant of a head-first snake body. */
  predicate ValidBody(body: seq<Cell>) {
    |body| >= 1 && NoDuplicates(body) && AllInInterior(body) && Connected(body)
  }
}
