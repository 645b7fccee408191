/** The engine: the grid of cells, the generation step that replaces it, and the two
    user mutations (clearing the board and flipping the clicked cell). */
module Engine {
  import opened Arith
  import opened Rules
  import opened Cells

  /** The grid index (row, column) that a click at cursor pixel (px, py) selects.
      The cursor's y axis points down from the top of the window while grid rows
      count up from the bottom, hence the flip against `height`. */
  function ClickIndex(px: int, py: int, height: int, cellLength: int): (rc: (int, int))
    requires 0 < cellLength
    ensures 0 <= height - py ==> rc.0 * cellLength <= height - py < rc.0 * cellLength + cellLength
    ensures 0 <= px ==> rc.1 * cellLength <= px < rc.1 * cellLength + cellLength
    ensures height - py < 0 ==> rc.0 <= 0
    ensures px < 0 ==> rc.1 <= 0
  {
    (TruncDiv(height - py, cellLength), TruncDiv(px, cellLength))
  }

  /** A click inside the square where cell (r, c) is drawn selects that cell. */
  lemma ClickSelectsDrawnCell(px: int, py: int, height: int, cellLength: int, r: int, c: int)
    requires 0 < cellLength && 0 <= r && 0 <= c
    requires c * cellLength <= px < c * cellLength + cellLength
    requires r * cellLength <= height - py < r * cellLength + cellLength
    ensures ClickIndex(px, py, height, cellLength) == (r, c)
  {
    DivUnique(height - py, cellLength, r);
    DivUnique(px, cellLength, c);
  }

  /** Because the quotient is truncated toward zero, a cursor less than one cell
      to the left of the window, or below it, still selects column 0, or row 0. */
  lemma ClickJustOutsideSelectsEdge(px: int, py: int, height: int, cellLength: int)
    requires 0 < cellLength
    ensures -cellLength < px < cellLength ==> ClickIndex(px, py, height, cellLength).1 == 0
    ensures -cellLength < height - py < cellLength ==> ClickIndex(px, py, height, cellLength).0 == 0
  {
    if -cellLength < px < cellLength {
      TruncDivSmall(px, cellLength);
    }
    if -cellLength < height - py < cellLength {
      TruncDivSmall(height - py, cellLength);
    }
  }

  /** Whether the step keeps the old cell object at (r, c): it is neither killed
      nor re-created by the birth branch, which fires on three neighbours even for
      a cell already alive. */
  predicate Reused(b: Board, r: int, c: int)
    requires InRange(b, r, c)
  {
    var n := NeighbourCount(b, r, c);
    !(b[r][c] && n != 2 && n != 3) && n != 3
  }

  /** `cell` is a cell at pixel (c * cellLength, r * cellLength) in state `alive`. */
  ghost predicate Placed(cell: Cell?, r: int, c: int, cellLength: int, alive: bool)
    reads cell
  {
    cell != null && cell.x == c * cellLength && cell.y == r * cellLength && cell.alive == alive
  }

  /** Every slot of the grid holds a cell, and the cell at [r, c] sits at pixel
      (c * cellLength, r * cellLength). */
  ghost predicate Laid(grid: array2<Cell?>, cellLength: int)
    reads grid
  {
    forall r, c :: 0 <= r < grid.Length0 && 0 <= c < grid.Length1 ==>
      grid[r, c] != null && grid[r, c].x == c * cellLength && grid[r, c].y == r * cellLength
  }

  /** The next generation of `b` and which of its cells the step keeps, handed out as
      two boards whose cells are tied to `Step` and `Reused` one position at a time. */
  lemma Plan(b: Board) returns (next: Board, keep: Board)
    ensures |next| == |keep| == |b| && forall i :: 0 <= i < |b| ==> |next[i]| == |keep[i]| == |b[i]|
    ensures forall i, j {:trigger Step(b)[i][j]} :: InRange(b, i, j) ==> next[i][j] == Step(b)[i][j]
    ensures forall i, j {:trigger Reused(b, i, j)} :: InRange(b, i, j) ==> keep[i][j] == Reused(b, i, j)
  {
    next := Step(b);
    keep := seq(|b|, i requires 0 <= i < |b| => seq(|b[i]|, j requires 0 <= j < |b[i]| => Reused(b, i, j)));
  }

  class Game {
    /** Window size in pixels and the side of one cell in pixels. */
    const width: int
    const height: int
    const cellLength: int
    /** cells[r, c] is the cell in row r (counted from the bottom) and column c. */
    var cells: array2<Cell?>

    /** The grid has width / cellLength rows of height / cellLength cells (the
        window is square) and is laid out as `Laid` says. */
    ghost predicate Valid()
      reads this, cells
    {
      0 < cellLength && 0 <= width && width == height &&
      cells.Length0 == width / cellLength && cells.Length1 == height / cellLength &&
      Laid(cells, cellLength)
    }

    /** Sets up the window size and fills the grid, drawing each cell's state from
        `seed` where `initCells` draws a random bit. */
    constructor (width: int, height: int, cellLength: int, seed: Board)
      requires 0 < cellLength && 0 <= width && width == height
      requires IsGrid(seed, width / cellLength, height / cellLength)
      ensures this.width == width && this.height == height && this.cellLength == cellLength
      ensures Valid() && fresh(cells) && Snapshot(cells) == seed
      ensures forall r, c :: 0 <= r < cells.Length0 && 0 <= c < cells.Length1 ==> fresh(cells[r, c])
    {
      this.width := width;
      this.height := height;
      this.cellLength := cellLength;
      var a := new Cell?[width / cellLength, height / cellLength];
      for r := 0 to a.Length0
        invariant forall i, j :: 0 <= i < r && 0 <= j < a.Length1 ==>
          a[i, j] != null && a[i, j].x == j * cellLength && a[i, j].y == i * cellLength && a[i, j].alive == seed[i][j]
        invariant forall i, j :: 0 <= i < r && 0 <= j < a.Length1 ==> fresh(a[i, j])
      {
        for c := 0 to a.Length1
          invariant forall i, j :: 0 <= i < r && 0 <= j < a.Length1 ==>
            a[i, j] != null && a[i, j].x == j * cellLength && a[i, j].y == i * cellLength && a[i, j].alive == seed[i][j]
          invariant forall j :: 0 <= j < c ==>
            a[r, j] != null && a[r, j].x == j * cellLength && a[r, j].y == r * cellLength && a[r, j].alive == seed[r][j]
          invariant forall i, j :: (0 <= i < r && 0 <= j < a.Length1) || (i == r && 0 <= j < c) ==> fresh(a[i, j])
        {
          a[r, c] := new Cell(c * cellLength, r * cellLength, seed[r][c]);
        }
      }
      cells := a;
      new;
      SameCells(Snapshot(cells), seed, cells.Length0, cells.Length1);
    }

    /** Different slots hold different cells: the coordinates tell them apart. */
    lemma CellsDistinct()
      requires Valid()
      ensures forall r, c, r', c' ::
        (0 <= r < cells.Length0 && 0 <= c < cells.Length1 && 0 <= r' < cells.Length0 && 0 <= c' < cells.Length1 &&
         cells[r, c] == cells[r', c']) ==> r == r' && c == c'
    {
      forall r, c, r', c' |
        0 <= r < cells.Length0 && 0 <= c < cells.Length1 && 0 <= r' < cells.Length0 && 0 <= c' < cells.Length1 &&
        cells[r, c] == cells[r', c']
        ensures r == r' && c == c'
      {
        MulMonotone(r, r', cellLength);
        MulMonotone(r', r, cellLength);
        MulMonotone(c, c', cellLength);
        MulMonotone(c', c, cellLength);
      }
    }

    /** Computes the next generation into a fresh grid, reading only the current one,
        and then replaces the current grid with it. */
    method Iterate()
      requires Valid()
      modifies this
      ensures Valid() && fresh(cells)
      ensures cells.Length0 == old(cells.Length0) && cells.Length1 == old(cells.Length1)
      ensures Snapshot(cells) == Step(old(Snapshot(cells)))
      ensures forall r, c {:trigger cells[r, c]} :: 0 <= r < cells.Length0 && 0 <= c < cells.Length1 ==>
        if Reused(old(Snapshot(cells)), r, c) then cells[r, c] == old(cells[r, c]) else fresh(cells[r, c])
    {
      var grid := cells;
      ghost var before := Snapshot(grid);
      ghost var next, keep := Plan(before);
      var iterated := new Cell?[height / cellLength, width / cellLength];
      for r := 0 to grid.Length0
        invariant forall i, j {:trigger grid[i, j]} :: 0 <= i < grid.Length0 && 0 <= j < grid.Length1 ==>
          grid[i, j].alive == before[i][j]
        invariant forall i, j {:trigger iterated[i, j]} :: 0 <= i < r && 0 <= j < grid.Length1 ==>
          Placed(iterated[i, j], i, j, cellLength, next[i][j])
        invariant forall i, j {:trigger iterated[i, j]} :: 0 <= i < r && 0 <= j < grid.Length1 ==>
          if keep[i][j] then iterated[i, j] == grid[i, j] else fresh(iterated[i, j])
      {
        NextRow(grid, iterated, r, before, next[r], keep[r]);
      }
      cells := iterated;
      SnapshotOf(cells, Step(before));
    }

    /** One pass of the inner loop: fills row r of `iterated` with the cells of that row
        in the generation after `b`, the board the grid shows, and leaves the other
        rows alone. `next` is that row of the next generation and `keep` tells which of
        its cells stay the same object. */
    method NextRow(grid: array2<Cell?>, iterated: array2<Cell?>, r: int, ghost b: Board, ghost next: seq<bool>, ghost keep: seq<bool>)
      requires 0 < cellLength && Laid(grid, cellLength)
      requires IsGrid(b, grid.Length0, grid.Length1)
      requires forall i, j {:trigger grid[i, j]} :: 0 <= i < grid.Length0 && 0 <= j < grid.Length1 ==> grid[i, j].alive == b[i][j]
      requires iterated != grid && iterated.Length0 == grid.Length0 && iterated.Length1 == grid.Length1
      requires 0 <= r < grid.Length0
      requires |next| == |keep| == grid.Length1
      requires forall j {:trigger Step(b)[r][j]} :: 0 <= j < grid.Length1 ==> next[j] == Step(b)[r][j]
      requires forall j {:trigger Reused(b, r, j)} :: 0 <= j < grid.Length1 ==> keep[j] == Reused(b, r, j)
      modifies iterated
      ensures forall i, j {:trigger iterated[i, j]} :: 0 <= i < iterated.Length0 && 0 <= j < iterated.Length1 && i != r ==>
        iterated[i, j] == old(iterated[i, j])
      ensures forall j {:trigger iterated[r, j]} :: 0 <= j < grid.Length1 ==>
        Placed(iterated[r, j], r, j, cellLength, next[j])
      ensures forall j {:trigger iterated[r, j]} :: 0 <= j < grid.Length1 ==>
        if keep[j] then iterated[r, j] == grid[r, j] else fresh(iterated[r, j])
    {
      for c := 0 to grid.Length1
        invariant forall i, j {:trigger iterated[i, j]} :: 0 <= i < iterated.Length0 && 0 <= j < iterated.Length1 && i != r ==>
          iterated[i, j] == old(iterated[i, j])
        invariant forall j {:trigger iterated[r, j]} :: 0 <= j < c ==>
          Placed(iterated[r, j], r, j, cellLength, next[j])
        invariant forall j {:trigger iterated[r, j]} :: 0 <= j < c ==>
          if keep[j] then iterated[r, j] == grid[r, j] else fresh(iterated[r, j])
      {
        var cell := NextCell(grid, r, c, b);
        iterated[r, c] := cell;
      }
    }

    /** The cell that occupies [r, c] in the generation after `b`, the board the grid
        shows: a new dead cell when a live cell has neither two nor three live
        neighbours, a new live cell when it has three, and otherwise the current cell
        object itself. */
    method NextCell(grid: array2<Cell?>, r: int, c: int, ghost b: Board) returns (cell: Cell)
      requires 0 < cellLength && Laid(grid, cellLength)
      requires IsGrid(b, grid.Length0, grid.Length1)
      requires forall i, j {:trigger grid[i, j]} :: 0 <= i < grid.Length0 && 0 <= j < grid.Length1 ==> grid[i, j].alive == b[i][j]
      requires 0 <= r < grid.Length0 && 0 <= c < grid.Length1
      ensures Placed(cell, r, c, cellLength, Step(b)[r][c])
      ensures if Reused(b, r, c) then cell == grid[r, c] else fresh(cell)
    {
      SnapshotOf(grid, b);
      ghost var objects := Objects(grid);
      var current := grid[r, c];
      var aliveNeighbors := current.GetAliveNeighbors(grid, cellLength);
      assert Objects(grid) == objects && Snapshot(grid) == b;
      MulDivCancel(r, cellLength);
      MulDivCancel(c, cellLength);
      if current.alive && aliveNeighbors != 2 && aliveNeighbors != 3 {
        cell := new Cell(c * cellLength, r * cellLength, false);
      } else if aliveNeighbors == 3 {
        cell := new Cell(c * cellLength, r * cellLength, true);
      } else {
        cell := current;
      }
    }

    /** Clears the board in place: every live cell is flipped, dead cells are left alone
        (the method may write to the cells that were alive and to nothing else). */
    method KillCells()
      requires Valid()
      modifies LiveCells(cells)
      ensures Valid()
      ensures Snapshot(cells) == Dead(cells.Length0, cells.Length1)
    {
      CellsDistinct();
      for r := 0 to cells.Length0
        invariant forall i, j :: 0 <= i < r && 0 <= j < cells.Length1 ==> !cells[i, j].alive
        invariant forall i, j :: r <= i < cells.Length0 && 0 <= j < cells.Length1 ==> cells[i, j].alive == old(cells[i, j].alive)
      {
        for c := 0 to cells.Length1
          invariant forall i, j :: 0 <= i < r && 0 <= j < cells.Length1 ==> !cells[i, j].alive
          invariant forall j :: 0 <= j < c ==> !cells[r, j].alive
          invariant forall j :: c <= j < cells.Length1 ==> cells[r, j].alive == old(cells[r, j].alive)
          invariant forall i, j :: r < i < cells.Length0 && 0 <= j < cells.Length1 ==> cells[i, j].alive == old(cells[i, j].alive)
        {
          if cells[r, c].alive {
            cells[r, c].ChangeState();
          }
        }
      }
      SameCells(Snapshot(cells), Dead(cells.Length0, cells.Length1), cells.Length0, cells.Length1);
    }

    /** The mouse handler after the cursor has been read: maps cursor pixel (px, py)
        to a grid index and flips that cell, ignoring a click off the grid. */
    method Click(px: int, py: int)
      requires Valid()
      modifies Objects(cells)
      ensures Valid()
      ensures var (row, col) := ClickIndex(px, py, height, cellLength);
        Snapshot(cells) == Toggle(old(Snapshot(cells)), row, col)
    {
      CellsDistinct();
      ghost var before := Snapshot(cells);
      var x := TruncDiv(px, cellLength);
      var y := TruncDiv(height - py, cellLength);
      if 0 <= y < cells.Length0 && 0 <= x < cells.Length1 {
        cells[y, x].ChangeState();
      }
      SameCells(Snapshot(cells), Toggle(before, y, x), cells.Length0, cells.Length1);
    }
  }
}
