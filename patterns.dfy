/** Known patterns of the Life rule, as consequences of the generation step:
    a lone cell dies, the block is a still life and the blinker has period two. */
module Patterns {
  import opened Rules

  /** A rows x cols board whose live cells are exactly those satisfying `live`. */
  function Pattern(rows: nat, cols: nat, live: (int, int) -> bool): (b: Board)
    ensures IsGrid(b, rows, cols)
    ensures forall r, c :: 0 <= r < rows && 0 <= c < cols ==> b[r][c] == live(r, c)
  {
    seq(rows, r => seq(cols, c => live(r, c)))
  }

  /** What position (r, c) adds to a count on `Pattern(rows, cols, live)`. */
  function LiveIn(rows: nat, cols: nat, live: (int, int) -> bool, r: int, c: int): nat
  {
    if 0 <= r < rows && 0 <= c < cols && live(r, c) then 1 else 0
  }

  /** The neighbour count on a pattern, read off its defining predicate. */
  lemma PatternCount(rows: nat, cols: nat, live: (int, int) -> bool, r: int, c: int)
    ensures NeighbourCount(Pattern(rows, cols, live), r, c) ==
      LiveIn(rows, cols, live, r - 1, c - 1) + LiveIn(rows, cols, live, r - 1, c) + LiveIn(rows, cols, live, r - 1, c + 1) +
      LiveIn(rows, cols, live, r, c - 1) + LiveIn(rows, cols, live, r, c + 1) +
      LiveIn(rows, cols, live, r + 1, c - 1) + LiveIn(rows, cols, live, r + 1, c) + LiveIn(rows, cols, live, r + 1, c + 1)
  {
    var b := Pattern(rows, cols, live);
    NeighbourCountSum(b, r, c);
    forall i, j ensures Live(b, i, j) == LiveIn(rows, cols, live, i, j) { }
  }

  /** Only the cell at (r0, c0) is alive. */
  function Lone(rows: nat, cols: nat, r0: int, c0: int): Board
  {
    Pattern(rows, cols, (r, c) => r == r0 && c == c0)
  }

  /** The 2x2 block whose top-left cell is (r0, c0). */
  function Block(rows: nat, cols: nat, r0: int, c0: int): Board
  {
    Pattern(rows, cols, (r, c) => r0 <= r <= r0 + 1 && c0 <= c <= c0 + 1)
  }

  /** Three live cells in row r0, centred on column c0. */
  function HorizontalBlinker(rows: nat, cols: nat, r0: int, c0: int): Board
  {
    Pattern(rows, cols, (r, c) => r == r0 && c0 - 1 <= c <= c0 + 1)
  }

  /** Three live cells in column c0, centred on row r0. */
  function VerticalBlinker(rows: nat, cols: nat, r0: int, c0: int): Board
  {
    Pattern(rows, cols, (r, c) => r0 - 1 <= r <= r0 + 1 && c == c0)
  }

  /** A lone live cell dies and no cell is born around it: the board is cleared. */
  lemma {:induction false} LoneCellDies(rows: nat, cols: nat, r0: int, c0: int)
    requires 0 <= r0 < rows && 0 <= c0 < cols
    ensures Lone(rows, cols, r0, c0)[r0][c0]
    ensures Step(Lone(rows, cols, r0, c0)) == Dead(rows, cols)
  {
    var b, d := Lone(rows, cols, r0, c0), Dead(rows, cols);
    var s := Step(b);
    forall r, c | 0 <= r < rows && 0 <= c < cols
      ensures s[r][c] == d[r][c]
    {
      LoneCount(rows, cols, r0, c0, r, c);
    }
    SameCells(s, d, rows, cols);
  }

  /** Around a lone cell every position sees at most that cell, and the cell sees none. */
  lemma LoneCount(rows: nat, cols: nat, r0: int, c0: int, r: int, c: int)
    ensures NeighbourCount(Lone(rows, cols, r0, c0), r, c) <= 1
    ensures r == r0 && c == c0 ==> NeighbourCount(Lone(rows, cols, r0, c0), r, c) == 0
  {
    PatternCount(rows, cols, (r, c) => r == r0 && c == c0, r, c);
  }

  /** The block is a still life, wherever it sits on the board (also against an edge). */
  lemma {:induction false} BlockIsStill(rows: nat, cols: nat, r0: int, c0: int)
    requires 0 <= r0 && r0 + 2 <= rows && 0 <= c0 && c0 + 2 <= cols
    ensures Step(Block(rows, cols, r0, c0)) == Block(rows, cols, r0, c0)
  {
    var b := Block(rows, cols, r0, c0);
    var s := Step(b);
    forall r, c | 0 <= r < rows && 0 <= c < cols
      ensures s[r][c] == b[r][c]
    {
      BlockCell(rows, cols, r0, c0, r, c);
    }
    SameCells(s, b, rows, cols);
  }

  /** A block cell has three live neighbours and survives; a cell outside it has at
      most two and stays dead. */
  lemma BlockCell(rows: nat, cols: nat, r0: int, c0: int, r: int, c: int)
    requires 0 <= r0 && r0 + 2 <= rows && 0 <= c0 && c0 + 2 <= cols
    requires 0 <= r < rows && 0 <= c < cols
    ensures Step(Block(rows, cols, r0, c0))[r][c] == Block(rows, cols, r0, c0)[r][c]
  {
    var b := Block(rows, cols, r0, c0);
    PatternCount(rows, cols, (r, c) => r0 <= r <= r0 + 1 && c0 <= c <= c0 + 1, r, c);
    if b[r][c] {
      assert NeighbourCount(b, r, c) == 3;
    } else {
      assert NeighbourCount(b, r, c) <= 2;
    }
  }

  /** A horizontal blinker away from the edges turns into the vertical one. */
  lemma {:induction false} BlinkerTurnsVertical(rows: nat, cols: nat, r0: int, c0: int)
    requires 1 <= r0 && r0 + 1 < rows && 1 <= c0 && c0 + 1 < cols
    ensures Step(HorizontalBlinker(rows, cols, r0, c0)) == VerticalBlinker(rows, cols, r0, c0)
  {
    var b, v := HorizontalBlinker(rows, cols, r0, c0), VerticalBlinker(rows, cols, r0, c0);
    var s := Step(b);
    forall r, c | 0 <= r < rows && 0 <= c < cols
      ensures s[r][c] == v[r][c]
    {
      HorizontalCell(rows, cols, r0, c0, r, c);
    }
    SameCells(s, v, rows, cols);
  }

  /** The centre of a horizontal blinker has two live neighbours and survives, the cells
      above and below it have three and are born, its ends have one and die, and every
      other cell has at most two and stays dead. */
  lemma HorizontalCell(rows: nat, cols: nat, r0: int, c0: int, r: int, c: int)
    requires 1 <= r0 && r0 + 1 < rows && 1 <= c0 && c0 + 1 < cols
    requires 0 <= r < rows && 0 <= c < cols
    ensures Step(HorizontalBlinker(rows, cols, r0, c0))[r][c] == VerticalBlinker(rows, cols, r0, c0)[r][c]
  {
    var b, v := HorizontalBlinker(rows, cols, r0, c0), VerticalBlinker(rows, cols, r0, c0);
    PatternCount(rows, cols, (r, c) => r == r0 && c0 - 1 <= c <= c0 + 1, r, c);
    if r == r0 && c == c0 {
      assert NeighbourCount(b, r, c) == 2;
    } else if v[r][c] {
      assert NeighbourCount(b, r, c) == 3;
    } else if b[r][c] {
      assert NeighbourCount(b, r, c) == 1;
    } else {
      assert NeighbourCount(b, r, c) <= 2;
    }
  }

  /** The vertical blinker turns back into the horizontal one. */
  lemma {:induction false} BlinkerTurnsHorizontal(rows: nat, cols: nat, r0: int, c0: int)
    requires 1 <= r0 && r0 + 1 < rows && 1 <= c0 && c0 + 1 < cols
    ensures Step(VerticalBlinker(rows, cols, r0, c0)) == HorizontalBlinker(rows, cols, r0, c0)
  {
    var v, h := VerticalBlinker(rows, cols, r0, c0), HorizontalBlinker(rows, cols, r0, c0);
    var s := Step(v);
    forall r, c | 0 <= r < rows && 0 <= c < cols
      ensures s[r][c] == h[r][c]
    {
      VerticalCell(rows, cols, r0, c0, r, c);
    }
    SameCells(s, h, rows, cols);
  }

  /** The same count, turned by a quarter: the vertical blinker's sides are born and
      its ends die. */
  lemma VerticalCell(rows: nat, cols: nat, r0: int, c0: int, r: int, c: int)
    requires 1 <= r0 && r0 + 1 < rows && 1 <= c0 && c0 + 1 < cols
    requires 0 <= r < rows && 0 <= c < cols
    ensures Step(VerticalBlinker(rows, cols, r0, c0))[r][c] == HorizontalBlinker(rows, cols, r0, c0)[r][c]
  {
    var v, h := VerticalBlinker(rows, cols, r0, c0), HorizontalBlinker(rows, cols, r0, c0);
    PatternCount(rows, cols, (r, c) => r0 - 1 <= r <= r0 + 1 && c == c0, r, c);
    if r == r0 && c == c0 {
      assert NeighbourCount(v, r, c) == 2;
    } else if h[r][c] {
      assert NeighbourCount(v, r, c) == 3;
    } else if v[r][c] {
      assert NeighbourCount(v, r, c) == 1;
    } else {
      assert NeighbourCount(v, r, c) <= 2;
    }
  }

  /** Hence the blinker has period two. */
  lemma BlinkerPeriodTwo(rows: nat, cols: nat, r0: int, c0: int)
    requires 1 <= r0 && r0 + 1 < rows && 1 <= c0 && c0 + 1 < cols
    ensures Step(HorizontalBlinker(rows, cols, r0, c0)) != HorizontalBlinker(rows, cols, r0, c0)
    ensures Step(Step(HorizontalBlinker(rows, cols, r0, c0))) == HorizontalBlinker(rows, cols, r0, c0)
  {
    BlinkerTurnsVertical(rows, cols, r0, c0);
    BlinkerTurnsHorizontal(rows, cols, r0, c0);
    assert VerticalBlinker(rows, cols, r0, c0)[r0 - 1][c0] != HorizontalBlinker(rows, cols, r0, c0)[r0 - 1][c0];
  }
}
