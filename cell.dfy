/** One square of the grid: fixed pixel coordinates and a mutable `alive` flag,
    and the neighbour count the engine asks each cell for. */
module Cells {
  import opened Arith
  import opened Rules

  class Cell {
    /** Pixel coordinates of the cell's lower-left corner; they never change. */
    const x: int
    const y: int
    /** The only mutable state of a cell. */
    var alive: bool

    constructor (x: int, y: int, alive: bool)
      ensures this.x == x && this.y == y && this.alive == alive
    {
      this.x := x;
      this.y := y;
      this.alive := alive;
    }

    /** Flips the cell's state in place. */
    method ChangeState()
      modifies this
      ensures alive == !old(alive)
    {
      alive := !alive;
    }

    /** Counts the live cells on the eight positions around this cell's grid index
        (x / cellLength, y / cellLength). A position off the grid is skipped rather
        than failing, and the cell's own position is skipped too. */
    method GetAliveNeighbors(cells: array2<Cell?>, cellLength: int) returns (an: int)
      requires 0 < cellLength
      requires forall r, c :: 0 <= r < cells.Length0 && 0 <= c < cells.Length1 ==> cells[r, c] != null
      ensures an == NeighbourCount(Snapshot(cells), TruncDiv(y, cellLength), TruncDiv(x, cellLength))
      ensures 0 <= an <= 8
    {
      an := 0;
      var x := TruncDiv(this.x, cellLength);
      var y := TruncDiv(this.y, cellLength);
      ghost var b := Snapshot(cells);
      for r := y - 1 to y + 2
        invariant an == WindowPrefix(b, y, x, r - (y - 1))
      {
        for c := x - 1 to x + 2
          invariant an == WindowPrefix(b, y, x, r - (y - 1)) + RowPrefix(b, y, x, r, c - (x - 1))
        {
          if c == x && r == y {
            continue;
          }
          if 0 <= r < cells.Length0 && 0 <= c < cells.Length1 && cells[r, c].alive {
            an := an + 1;
          }
        }
      }
      WindowPrefixComplete(b, y, x);
    }
  }

  /** Flipping a cell twice restores its state. */
  method ChangeStateTwice(cell: Cell)
    modifies cell
    ensures cell.alive == old(cell.alive)
  {
    cell.ChangeState();
    cell.ChangeState();
  }

  /** The cells held by a grid. */
  ghost function Objects(a: array2<Cell?>): set<Cell?>
    reads a
  {
    set r, c | 0 <= r < a.Length0 && 0 <= c < a.Length1 :: a[r, c]
  }

  /** The live cells held by a grid. */
  ghost function LiveCells(a: array2<Cell?>): set<Cell?>
    reads a, Objects(a)
  {
    set r, c | 0 <= r < a.Length0 && 0 <= c < a.Length1 && a[r, c] != null && a[r, c].alive :: a[r, c]
  }

  /** The `alive` flags of a grid, row by row; an empty slot reads as dead. */
  ghost function Snapshot(a: array2<Cell?>): (b: Board)
    reads a, Objects(a)
    ensures IsGrid(b, a.Length0, a.Length1)
    ensures forall r, c :: 0 <= r < a.Length0 && 0 <= c < a.Length1 ==> b[r][c] == (a[r, c] != null && a[r, c].alive)
  {
    seq(a.Length0, r requires 0 <= r < a.Length0 reads a, Objects(a) =>
      seq(a.Length1, c requires 0 <= c < a.Length1 reads a, Objects(a) => a[r, c] != null && a[r, c].alive))
  }

  /** A grid whose cells carry the flags of `b` has `b` as its snapshot. */
  lemma SnapshotOf(a: array2<Cell?>, b: Board)
    requires IsGrid(b, a.Length0, a.Length1)
    requires forall r, c :: 0 <= r < a.Length0 && 0 <= c < a.Length1 ==> a[r, c] != null && a[r, c].alive == b[r][c]
    ensures Snapshot(a) == b
  {
    SameCells(Snapshot(a), b, a.Length0, a.Length1);
  }

  /** Live positions of row r at columns x - 1 .. x - 2 + k, skipping the cell's own position (y, x). */
  ghost function RowPrefix(b: Board, y: int, x: int, r: int, k: nat): nat
  {
    if k == 0 then 0
    else RowPrefix(b, y, x, r, k - 1) + (if r == y && x - 2 + k == x then 0 else Live(b, r, x - 2 + k))
  }

  /** Live positions of the window around (y, x) in rows y - 1 .. y - 2 + k. */
  ghost function WindowPrefix(b: Board, y: int, x: int, k: nat): nat
  {
    if k == 0 then 0 else WindowPrefix(b, y, x, k - 1) + RowPrefix(b, y, x, y - 2 + k, 3)
  }

  lemma WindowPrefixComplete(b: Board, y: int, x: int)
    ensures WindowPrefix(b, y, x, 3) == NeighbourCount(b, y, x)
  {
    NeighbourCountSum(b, y, x);
    RowPrefixComplete(b, y, x, y - 1);
    RowPrefixComplete(b, y, x, y);
    RowPrefixComplete(b, y, x, y + 1);
    assert WindowPrefix(b, y, x, 1) == RowPrefix(b, y, x, y - 1, 3);
    assert WindowPrefix(b, y, x, 2) == WindowPrefix(b, y, x, 1) + RowPrefix(b, y, x, y, 3);
  }

  lemma RowPrefixComplete(b: Board, y: int, x: int, r: int)
    ensures RowPrefix(b, y, x, r, 3) ==
      (if r == y then 0 else Live(b, r, x)) + Live(b, r, x - 1) + Live(b, r, x + 1)
  {
    assert RowPrefix(b, y, x, r, 1) == Live(b, r, x - 1);
    assert RowPrefix(b, y, x, r, 2) == RowPrefix(b, y, x, r, 1) + (if r == y then 0 else Live(b, r, x));
  }
}
