/** The rules of the engine stated on values: a generation is a board of `alive`
    flags, indexed board[row][column], and the functions here are the specification
    that the imperative `Cell` and `Game` classes are proved against. */
module Rules {

  /** One generation: board[r][c] is the `alive` flag of the cell in row r, column c. */
  type Board = seq<seq<bool>>

  /** The board has `rows` rows of `cols` cells each. */
  predicate IsGrid(b: Board, rows: int, cols: int)
  {
    |b| == rows && forall r :: 0 <= r < |b| ==> |b[r]| == cols
  }

  /** Position (r, c) holds a cell of the board. */
  predicate InRange(b: Board, r: int, c: int)
  {
    0 <= r < |b| && 0 <= c < |b[r]|
  }

  /** What position (r, c) adds to a neighbour count: one for a live cell, nothing for a
      dead cell or for a position off the board (the grid does not wrap around). */
  function Live(b: Board, r: int, c: int): nat
  {
    if InRange(b, r, c) && b[r][c] then 1 else 0
  }

  /** The eight positions around (r, c) in the order the engine visits them: row by
      row, columns left to right, the centre skipped. */
  function Window(r: int, c: int): seq<(int, int)>
  {
    [(r - 1, c - 1), (r - 1, c), (r - 1, c + 1), (r, c - 1), (r, c + 1), (r + 1, c - 1), (r + 1, c), (r + 1, c + 1)]
  }

  /** The number of live on-board positions in `ps`, counted along the sequence. */
  function CountLive(b: Board, ps: seq<(int, int)>): (n: nat)
    ensures n <= |ps|
  {
    if ps == [] then 0 else Live(b, ps[0].0, ps[0].1) + CountLive(b, ps[1..])
  }

  /** The number of live cells among the eight positions around (r, c). */
  function NeighbourCount(b: Board, r: int, c: int): (n: nat)
    ensures n <= 8
  {
    CountLive(b, Window(r, c))
  }

  /** The positions on the board, around (r, c) and other than (r, c) itself, that hold a live cell. */
  ghost function LiveNeighbours(b: Board, r: int, c: int): set<(int, int)>
  {
    set i, j | r - 1 <= i <= r + 1 && c - 1 <= j <= c + 1 && (i != r || j != c) && InRange(b, i, j) && b[i][j] :: (i, j)
  }

  /** The state a cell takes in the next generation, given its state and its neighbour
      count, decided in the order the engine tests the cases. */
  function NextState(alive: bool, n: int): (next: bool)
    ensures next <==> n == 3 || (alive && n == 2)
  {
    if alive && n != 2 && n != 3 then false
    else if n == 3 then true
    else alive
  }

  /** The next generation: every cell decided from the counts of the given board only. */
  function Step(b: Board): (s: Board)
    ensures |s| == |b| && forall r :: 0 <= r < |b| ==> |s[r]| == |b[r]|
    ensures forall r, c {:trigger s[r][c]} :: InRange(b, r, c) ==>
      (s[r][c] <==> NeighbourCount(b, r, c) == 3 || (b[r][c] && NeighbourCount(b, r, c) == 2))
  {
    seq(|b|, r requires 0 <= r < |b| =>
      seq(|b[r]|, c requires 0 <= c < |b[r]| => NextState(b[r][c], NeighbourCount(b, r, c))))
  }

  /** Every cell of the board is dead. */
  predicate NoneAlive(b: Board)
  {
    forall r, c :: 0 <= r < |b| && 0 <= c < |b[r]| ==> !b[r][c]
  }

  /** The cleared board of the given shape. */
  function Dead(rows: nat, cols: nat): (b: Board)
    ensures IsGrid(b, rows, cols) && NoneAlive(b)
  {
    seq(rows, r => seq(cols, c => false))
  }

  /** The board with the cell at (r, c) flipped; a position off the board changes nothing. */
  function Toggle(b: Board, r: int, c: int): (t: Board)
    ensures |t| == |b| && forall i :: 0 <= i < |b| ==> |t[i]| == |b[i]|
    ensures forall i, j :: InRange(b, i, j) ==> t[i][j] == (if i == r && j == c then !b[i][j] else b[i][j])
  {
    if InRange(b, r, c) then b[r := b[r][c := !b[r][c]]] else b
  }

  /** Two boards of one shape are equal when they agree cell by cell. */
  lemma SameCells(a: Board, b: Board, rows: nat, cols: nat)
    requires IsGrid(a, rows, cols) && IsGrid(b, rows, cols)
    requires forall r, c :: 0 <= r < rows && 0 <= c < cols ==> a[r][c] == b[r][c]
    ensures a == b
  {
    forall r | 0 <= r < rows
      ensures a[r] == b[r]
    {
    }
  }

  // ---------------------------------------------------------------------------
  // The neighbour count

  /** The count is the number of live positions in the 3x3 window around (r, c),
      the centre excluded, that lie on the board. */
  lemma {:induction false} NeighbourCountIsCardinality(b: Board, r: int, c: int)
    ensures NeighbourCount(b, r, c) == |LiveNeighbours(b, r, c)|
  {
    var w := Window(r, c);
    assert LiveNeighbours(b, r, c) == LiveAmong(b, w);
    CountIsCardinality(b, w);
  }

  /** The live on-board positions in `ps`, as a set. */
  ghost function LiveAmong(b: Board, ps: seq<(int, int)>): set<(int, int)>
  {
    set q | q in ps && InRange(b, q.0, q.1) && b[q.0][q.1]
  }

  /** The count written out as the sum over the eight positions. */
  lemma {:induction false} NeighbourCountSum(b: Board, r: int, c: int)
    ensures NeighbourCount(b, r, c) ==
      Live(b, r - 1, c - 1) + Live(b, r - 1, c) + Live(b, r - 1, c + 1) +
      Live(b, r, c - 1) + Live(b, r, c + 1) +
      Live(b, r + 1, c - 1) + Live(b, r + 1, c) + Live(b, r + 1, c + 1)
  {
    var w := Window(r, c);
    assert CountLive(b, w[7..]) == Live(b, r + 1, c + 1) by { assert w[7..][1..] == []; }
    assert CountLive(b, w[6..]) == Live(b, r + 1, c) + CountLive(b, w[7..]) by { assert w[6..][1..] == w[7..]; }
    assert CountLive(b, w[5..]) == Live(b, r + 1, c - 1) + CountLive(b, w[6..]) by { assert w[5..][1..] == w[6..]; }
    assert CountLive(b, w[4..]) == Live(b, r, c + 1) + CountLive(b, w[5..]) by { assert w[4..][1..] == w[5..]; }
    assert CountLive(b, w[3..]) == Live(b, r, c - 1) + CountLive(b, w[4..]) by { assert w[3..][1..] == w[4..]; }
    assert CountLive(b, w[2..]) == Live(b, r - 1, c + 1) + CountLive(b, w[3..]) by { assert w[2..][1..] == w[3..]; }
    assert CountLive(b, w[1..]) == Live(b, r - 1, c) + CountLive(b, w[2..]) by { assert w[1..][1..] == w[2..]; }
    assert CountLive(b, w) == Live(b, r - 1, c - 1) + CountLive(b, w[1..]);
  }

  /** Counting along a sequence without repetitions gives the size of the set. */
  lemma {:induction false} CountIsCardinality(b: Board, ps: seq<(int, int)>)
    requires forall k, l :: 0 <= k < l < |ps| ==> ps[k] != ps[l]
    ensures CountLive(b, ps) == |LiveAmong(b, ps)|
  {
    if ps != [] {
      var q, rest := ps[0], ps[1..];
      CountIsCardinality(b, rest);
      var head: set<(int, int)> := if InRange(b, q.0, q.1) && b[q.0][q.1] then {q} else {};
      LiveAmongSplit(b, ps, head);
      assert q !in rest;
      DisjointSize(head, LiveAmong(b, rest));
    }
  }

  lemma LiveAmongSplit(b: Board, ps: seq<(int, int)>, head: set<(int, int)>)
    requires ps != []
    requires head == if InRange(b, ps[0].0, ps[0].1) && b[ps[0].0][ps[0].1] then {ps[0]} else {}
    ensures LiveAmong(b, ps) == head + LiveAmong(b, ps[1..])
  {
    forall q ensures q in LiveAmong(b, ps) <==> q in head + LiveAmong(b, ps[1..])
    {
      assert q in ps <==> q == ps[0] || q in ps[1..];
    }
  }

  lemma DisjointSize<T>(a: set<T>, b: set<T>)
    requires a !! b
    ensures |a + b| == |a| + |b|
  {
  }

  /** The cell's own state never enters its count. */
  lemma SelfNotCounted(b: Board, r: int, c: int)
    ensures NeighbourCount(Toggle(b, r, c), r, c) == NeighbourCount(b, r, c)
  {
    CountAvoidsToggle(b, r, c, Window(r, c));
  }

  /** A cell outside the 3x3 window around (r, c) does not affect the count at (r, c);
      in particular the first and last column (or row) of a board more than two wide
      do not see each other: there is no wrap-around. */
  lemma OutsideWindowNotCounted(b: Board, r: int, c: int, i: int, j: int)
    requires i < r - 1 || r + 1 < i || j < c - 1 || c + 1 < j
    ensures NeighbourCount(Toggle(b, i, j), r, c) == NeighbourCount(b, r, c)
  {
    CountAvoidsToggle(b, i, j, Window(r, c));
  }

  /** Flipping a position that `ps` does not list leaves the count along `ps` as it was. */
  lemma {:induction false} CountAvoidsToggle(b: Board, i: int, j: int, ps: seq<(int, int)>)
    requires (i, j) !in ps
    ensures CountLive(Toggle(b, i, j), ps) == CountLive(b, ps)
  {
    if ps != [] {
      assert ps[0] != (i, j);
      CountAvoidsToggle(b, i, j, ps[1..]);
    }
  }

  /** A board framed by a one-cell border of dead cells, so that every neighbour of an
      original cell is on the framed board. */
  function Framed(b: Board, cols: nat): (f: Board)
    requires IsGrid(b, |b|, cols)
    ensures IsGrid(f, |b| + 2, cols + 2)
    ensures forall r, c :: InRange(f, r, c) ==>
      f[r][c] == (1 <= r <= |b| && 1 <= c <= cols && b[r - 1][c - 1])
  {
    seq(|b| + 2, r requires 0 <= r < |b| + 2 =>
      seq(cols + 2, c requires 0 <= c < cols + 2 => 1 <= r <= |b| && 1 <= c <= cols && b[r - 1][c - 1]))
  }

  /** Treating off-board positions as contributing nothing is the same as surrounding the
      board with dead cells: the count at (r, c) equals the count at (r + 1, c + 1) on the
      framed board, where all eight neighbours exist. */
  lemma {:induction false} OffBoardIsDeadBorder(b: Board, cols: nat, r: int, c: int)
    requires IsGrid(b, |b|, cols) && 0 <= r < |b| && 0 <= c < cols
    ensures forall i, j :: r <= i <= r + 2 && c <= j <= c + 2 ==> InRange(Framed(b, cols), i, j)
    ensures NeighbourCount(b, r, c) == NeighbourCount(Framed(b, cols), r + 1, c + 1)
  {
    var f := Framed(b, cols);
    forall i, j | r - 1 <= i <= r + 1 && c - 1 <= j <= c + 1
      ensures Live(b, i, j) == Live(f, i + 1, j + 1)
    {
    }
    NeighbourCountSum(b, r, c);
    NeighbourCountSum(f, r + 1, c + 1);
  }

  /** At a corner at most three of the eight positions lie on the board. */
  lemma CornerCount(b: Board, rows: nat, cols: nat)
    requires IsGrid(b, rows, cols) && 0 < rows && 0 < cols
    ensures NeighbourCount(b, 0, 0) <= 3
    ensures NeighbourCount(b, 0, cols - 1) <= 3
    ensures NeighbourCount(b, rows - 1, 0) <= 3
    ensures NeighbourCount(b, rows - 1, cols - 1) <= 3
  {
    NeighbourCountSum(b, 0, 0);
    NeighbourCountSum(b, 0, cols - 1);
    NeighbourCountSum(b, rows - 1, 0);
    NeighbourCountSum(b, rows - 1, cols - 1);
  }

  /** The only cell of a 1x1 board has no neighbours. */
  lemma SingleCellBoard(b: Board)
    requires IsGrid(b, 1, 1)
    ensures NeighbourCount(b, 0, 0) == 0
  {
    NeighbourCountSum(b, 0, 0);
  }

  // ---------------------------------------------------------------------------
  // The generation step

  /** No spontaneous life: a board without live cells steps to a board without live cells. */
  lemma {:induction false} DeadStaysDead(b: Board)
    requires NoneAlive(b)
    ensures NoneAlive(Step(b))
  {
    var s := Step(b);
    forall r, c | InRange(s, r, c)
      ensures !s[r][c]
    {
      NeighbourCountSum(b, r, c);
    }
  }

  /** The cleared board is a fixed point of the step. */
  lemma {:induction false} DeadIsFixed(rows: nat, cols: nat)
    ensures Step(Dead(rows, cols)) == Dead(rows, cols)
  {
    var d := Dead(rows, cols);
    DeadStaysDead(d);
    var s := Step(d);
    forall r | 0 <= r < rows
      ensures s[r] == d[r]
    {
    }
  }

  /** A live cell with no live neighbour dies. */
  lemma IsolatedCellDies(b: Board, r: int, c: int)
    requires InRange(b, r, c) && b[r][c] && NeighbourCount(b, r, c) == 0
    ensures !Step(b)[r][c]
  {
  }

  /** The step keeps the shape of a grid. */
  lemma StepKeepsShape(b: Board, rows: int, cols: int)
    requires IsGrid(b, rows, cols)
    ensures IsGrid(Step(b), rows, cols)
  {
  }

  // ---------------------------------------------------------------------------
  // Toggling one cell

  /** Flipping the same cell twice restores the board. */
  lemma {:induction false} ToggleTwice(b: Board, r: int, c: int)
    ensures Toggle(Toggle(b, r, c), r, c) == b
  {
    if InRange(b, r, c) {
      var t := Toggle(Toggle(b, r, c), r, c);
      assert t[r] == b[r];
    }
  }

  /** A flip of an on-board position changes exactly that one cell. */
  lemma {:induction false} ToggleChangesOneCell(b: Board, r: int, c: int)
    requires InRange(b, r, c)
    ensures Toggle(b, r, c) != b
    ensures forall i, j :: InRange(b, i, j) && Toggle(b, r, c)[i][j] != b[i][j] ==> i == r && j == c
  {
    assert Toggle(b, r, c)[r][c] != b[r][c];
  }
}
