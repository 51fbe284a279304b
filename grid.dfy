/** The playing field: a TILE_COUNT x TILE_COUNT board of integer cells, and the
    direction vectors the snake moves by. */
module Grid {

  /** Number of tiles across and down the board. */
  const TILE_COUNT: int := 30

  /** A board position, compared by value like the source's `{ x, y }` objects. */
  datatype Cell = Cell(x: int, y: int)

  /** A direction as the source keeps it: a change in x and a change in y. */
  datatype Dir = Dir(dx: int, dy: int)

  const Zero: Dir := Dir(0, 0)
  const Up: Dir := Dir(0, -1)
  const Down: Dir := Dir(0, 1)
  const Left: Dir := Dir(-1, 0)
  const Right: Dir := Dir(1, 0)

  predicate InBounds(c: Cell) {
    0 <= c.x < TILE_COUNT && 0 <= c.y < TILE_COUNT
  }

  /** A unit step: each component in -1..1 and exactly one of them zero (stated
      arithmetically; UnitSteps shows it is one of Up, Down, Left, Right). */
  predicate IsUnit(d: Dir) {
    -1 <= d.dx <= 1 && -1 <= d.dy <= 1 && d.dx != d.dy && d.dx != -d.dy
  }

  /** Every value the direction variables can hold: a unit step or standing
      still. */
  predicate IsDirection(d: Dir) {
    -1 <= d.dx <= 1 && -1 <= d.dy <= 1 && (d.dx == 0 || d.dy == 0)
  }

  /** The unit steps are exactly the four named ones, and the direction values
      are those and Zero. */
  lemma UnitSteps(d: Dir)
    ensures IsUnit(d) <==> d == Up || d == Down || d == Left || d == Right
    ensures IsDirection(d) <==> d == Zero || IsUnit(d)
  {
  }

  /** The opposite direction: it takes each unit step to a different unit step. */
  function Reverse(d: Dir): (r: Dir)
    ensures IsUnit(d) ==> IsUnit(r) && r != d
  {
    Dir(-d.dx, -d.dy)
  }

  /** The cell one step from `c` in direction `d`: for a unit step, one of the
      four orthogonal neighbours of `c`. */
  function Move(c: Cell, d: Dir): Cell {
    Cell(c.x + d.dx, c.y + d.dy)
  }

  /** Standing still stays on the cell; a unit step reaches an orthogonal
      neighbour. */
  lemma MoveMeaning(c: Cell, d: Dir)
    ensures d == Zero ==> Move(c, d) == c
    ensures IsUnit(d) ==> Adjacent(c, Move(c, d))
  {
  }

  /** `a` and `b` are one orthogonal step apart. */
  predicate Adjacent(a: Cell, b: Cell) {
    (a.x == b.x && (a.y - b.y == 1 || b.y - a.y == 1)) ||
    (a.y == b.y && (a.x - b.x == 1 || b.x - a.x == 1))
  }

  predicate AllInBounds(s: seq<Cell>) {
    forall i | 0 <= i < |s| :: InBounds(s[i])
  }

  /** No two segments share a cell. */
  predicate Distinct(s: seq<Cell>) {
    forall i, j | 0 <= i < j < |s| :: s[i] != s[j]
  }

  /** The cells of the first `rows` rows of the board. */
  ghost function Rows(rows: nat): set<Cell> {
    set x, y | 0 <= x < TILE_COUNT && 0 <= y < rows :: Cell(x, y)
  }

  /** The first `n` cells of row `y`. */
  ghost function RowPrefix(y: int, n: nat): set<Cell> {
    set x | 0 <= x < n :: Cell(x, y)
  }

  /** Every cell of the board. */
  ghost function Board(): set<Cell> {
    Rows(TILE_COUNT)
  }

  lemma {:induction false} RowPrefixSize(y: int, n: nat)
    ensures |RowPrefix(y, n)| == n
  {
    if n == 0 {
      assert RowPrefix(y, 0) == {};
    } else {
      RowPrefixSize(y, n - 1);
      assert RowPrefix(y, n) == RowPrefix(y, n - 1) + {Cell(n - 1, y)};
    }
  }

  lemma {:induction false} RowsSize(rows: nat)
    ensures |Rows(rows)| == TILE_COUNT * rows
  {
    if rows == 0 {
      assert Rows(0) == {};
    } else {
      RowsSize(rows - 1);
      RowPrefixSize(rows - 1, TILE_COUNT);
      assert Rows(rows) == Rows(rows - 1) + RowPrefix(rows - 1, TILE_COUNT);
      assert Rows(rows - 1) * RowPrefix(rows - 1, TILE_COUNT) == {};
    }
  }

  lemma BoardMembers(c: Cell)
    ensures c in Board() <==> InBounds(c)
  {
    if InBounds(c) {
      assert c == Cell(c.x, c.y);
    }
  }

  lemma SubsetSize<T>(a: set<T>, b: set<T>)
    requires a <= b
    ensures |a| <= |b|
  {
    assert b == a + (b - a);
  }

  /** A segment list without repeats occupies exactly as many cells as it is long. */
  lemma {:induction false} DistinctCells(s: seq<Cell>)
    requires Distinct(s)
    ensures |set c | c in s| == |s|
  {
    if s != [] {
      DistinctCells(s[1..]);
      assert (set c | c in s) == {s[0]} + (set c | c in s[1..]);
      assert s[0] !in s[1..];
    } else {
      assert (set c | c in s) == {};
    }
  }

  /** A snake that stays on the board and never overlaps itself leaves some cell
      free exactly when it is shorter than the board has cells. */
  lemma FreeCellIff(body: seq<Cell>)
    requires AllInBounds(body) && Distinct(body)
    ensures (exists c :: InBounds(c) && c !in body) <==> |body| < TILE_COUNT * TILE_COUNT
  {
    var occupied := set c | c in body;
    DistinctCells(body);
    RowsSize(TILE_COUNT);
    forall c | c in occupied ensures c in Board() {
      BoardMembers(c);
    }
    if |body| < TILE_COUNT * TILE_COUNT {
      if Board() <= occupied {
        SubsetSize(Board(), occupied);
      }
      var c :| c in Board() && c !in occupied;
      BoardMembers(c);
    }
    if c :| InBounds(c) && c !in body {
      BoardMembers(c);
      SubsetSize(occupied, Board() - {c});
    }
  }
}
