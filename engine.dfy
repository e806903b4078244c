/**
 * The transition engine: counting live neighbours on a bounded board (hard
 * edges, no wrap-around), the two-check form of Conway's rule, and the
 * cell-by-cell comparison the stability search uses.
 */
module Engine {
  import opened Grids

  // ----- specification -------------------------------------------------------

  /** Cell `(r, c)` lies on the board and is alive; positions off the board are dead. */
  predicate IsLive(g: Grid, r: int, c: int)
    requires Rectangular(g)
  {
    0 <= r < |g| && 0 <= c < |g[0]| && g[r][c]
  }

  /** 1 for a live on-board cell, 0 otherwise. */
  function Bit(g: Grid, r: int, c: int): nat
    requires Rectangular(g)
  {
    if IsLive(g, r, c) then 1 else 0
  }

  /** The positions of the 3x3 window around `(row, col)` other than the centre. */
  function Window(row: int, col: int): set<(int, int)> {
    {(row - 1, col - 1), (row - 1, col), (row - 1, col + 1),
     (row, col - 1),                     (row, col + 1),
     (row + 1, col - 1), (row + 1, col), (row + 1, col + 1)}
  }

  /** The live on-board cells of that window; positions off the board count as dead, nothing wraps around. */
  function LiveNeighbors(g: Grid, row: int, col: int): set<(int, int)>
    requires Rectangular(g)
  {
    set p | p in Window(row, col) && IsLive(g, p.0, p.1)
  }

  function NeighborCount(g: Grid, row: int, col: int): nat
    requires Rectangular(g)
  {
    |LiveNeighbors(g, row, col)|
  }

  /** The rule as the code writes it: a live cell lives on with 2 or 3 neighbours, a dead one is born with exactly 3. */
  function Rule(alive: bool, n: int): bool {
    if alive then n == 2 || n == 3 else n == 3
  }

  /** Row `r` of the next generation: each cell by the rule from its own state and its neighbour count. */
  function NextRowOf(g: Grid, r: int): seq<bool>
    requires Rectangular(g) && 0 <= r < |g|
  {
    seq(|g[0]|, c requires 0 <= c < |g[0]| => Rule(g[r][c], NeighborCount(g, r, c)))
  }

  /** The first `n` rows of the next generation. */
  function NextRows(g: Grid, n: nat): (rows: Grid)
    requires Rectangular(g) && n <= |g|
    ensures |rows| == n
    decreases n
  {
    if n == 0 then [] else NextRows(g, n - 1) + [NextRowOf(g, n - 1)]
  }

  lemma {:induction false} NextRowsAt(g: Grid, n: nat)
    requires Rectangular(g) && n <= |g|
    ensures forall r :: 0 <= r < n ==> NextRows(g, n)[r] == NextRowOf(g, r)
    decreases n
  {
    if n > 0 {
      NextRowsAt(g, n - 1);
    }
  }

  /** The next generation, computed from the previous one only. */
  function NextGeneration(g: Grid): (h: Grid)
    requires Rectangular(g)
    ensures SameShape(g, h)
  {
    NextRowsAt(g, |g|);
    NextRows(g, |g|)
  }

  lemma NextGenerationRow(g: Grid, r: int)
    requires Rectangular(g) && 0 <= r < |g|
    ensures NextGeneration(g)[r] == NextRowOf(g, r)
    ensures |NextGeneration(g)[r]| == |g[0]|
    ensures forall c :: 0 <= c < |g[0]| ==> NextGeneration(g)[r][c] == Rule(g[r][c], NeighborCount(g, r, c))
  {
    NextRowsAt(g, |g|);
  }

  /** A grid of the same shape whose every cell follows the rule is the next generation. */
  lemma NextGenerationIs(g: Grid, h: Grid)
    requires Rectangular(g) && |h| == |g|
    requires forall r :: 0 <= r < |h| ==> |h[r]| == |g[0]|
    requires forall r, c :: 0 <= r < |g| && 0 <= c < |g[0]| ==> h[r][c] == Rule(g[r][c], NeighborCount(g, r, c))
    ensures NextGeneration(g) == h
  {
    forall r | 0 <= r < |g|
      ensures NextGeneration(g)[r] == h[r]
    {
      NextGenerationRow(g, r);
    }
  }

  /** A board that maps to itself under one transition. */
  predicate IsFixedPoint(g: Grid)
    requires Rectangular(g)
  {
    NextGeneration(g) == g
  }

  /** `k` transitions in a row. */
  function Iterate(g: Grid, k: nat): (h: Grid)
    requires Rectangular(g)
    ensures SameShape(g, h)
    decreases k
  {
    if k == 0 then g else NextGeneration(Iterate(g, k - 1))
  }

  /** Every cell of `a` equals the cell at the same place in `b` (`b` may be larger). */
  predicate SameCells(a: Grid, b: Grid)
    requires Rectangular(a)
    requires |b| >= |a| && forall r :: 0 <= r < |a| ==> |b[r]| >= |a[0]|
  {
    forall r, c :: 0 <= r < |a| && 0 <= c < |a[0]| ==> a[r][c] == b[r][c]
  }

  // ----- lemmas --------------------------------------------------------------

  /** The live neighbours found before position `(r, c)` in the row-major scan of the window. */
  function Scanned(g: Grid, row: int, col: int, r: int, c: int): set<(int, int)>
    requires Rectangular(g)
  {
    set p | p in LiveNeighbors(g, row, col) && (p.0 < r || (p.0 == r && p.1 < c))
  }

  lemma ScanStart(g: Grid, row: int, col: int)
    requires Rectangular(g)
    ensures Scanned(g, row, col, row - 1, col - 1) == {}
  {
  }

  lemma ScanStep(g: Grid, row: int, col: int, r: int, c: int)
    requires Rectangular(g)
    requires row - 1 <= r <= row + 1 && col - 1 <= c <= col + 1
    ensures |Scanned(g, row, col, r, c + 1)| ==
            |Scanned(g, row, col, r, c)| + (if (r != row || c != col) then Bit(g, r, c) else 0)
  {
    if (r != row || c != col) && IsLive(g, r, c) {
      ScanTakes(g, row, col, r, c);
    } else {
      ScanSkips(g, row, col, r, c);
    }
  }

  lemma ScanTakes(g: Grid, row: int, col: int, r: int, c: int)
    requires Rectangular(g)
    requires row - 1 <= r <= row + 1 && col - 1 <= c <= col + 1
    requires (r != row || c != col) && IsLive(g, r, c)
    ensures Scanned(g, row, col, r, c + 1) == Scanned(g, row, col, r, c) + {(r, c)}
  {
  }

  lemma ScanSkips(g: Grid, row: int, col: int, r: int, c: int)
    requires Rectangular(g)
    requires !((r != row || c != col) && IsLive(g, r, c))
    ensures Scanned(g, row, col, r, c + 1) == Scanned(g, row, col, r, c)
  {
  }

  lemma ScanNextRow(g: Grid, row: int, col: int, r: int)
    requires Rectangular(g)
    ensures Scanned(g, row, col, r, col + 2) == Scanned(g, row, col, r + 1, col - 1)
  {
  }

  lemma ScanEnd(g: Grid, row: int, col: int)
    requires Rectangular(g)
    ensures Scanned(g, row, col, row + 2, col - 1) == LiveNeighbors(g, row, col)
  {
  }

  /** The count is the sum of the eight window positions, each 1 when on the board and alive. */
  lemma {:induction false} NeighborCountSum(g: Grid, row: int, col: int)
    requires Rectangular(g)
    ensures NeighborCount(g, row, col) ==
      Bit(g, row - 1, col - 1) + Bit(g, row - 1, col) + Bit(g, row - 1, col + 1) +
      Bit(g, row, col - 1)                            + Bit(g, row, col + 1) +
      Bit(g, row + 1, col - 1) + Bit(g, row + 1, col) + Bit(g, row + 1, col + 1)
  {
    ScanStart(g, row, col);
    for dr := -1 to 2
      invariant |Scanned(g, row, col, row + dr, col - 1)| ==
        (if dr > -1 then Bit(g, row - 1, col - 1) + Bit(g, row - 1, col) + Bit(g, row - 1, col + 1) else 0) +
        (if dr > 0 then Bit(g, row, col - 1) + Bit(g, row, col + 1) else 0) +
        (if dr > 1 then Bit(g, row + 1, col - 1) + Bit(g, row + 1, col) + Bit(g, row + 1, col + 1) else 0)
    {
      ScanStep(g, row, col, row + dr, col - 1);
      ScanStep(g, row, col, row + dr, col);
      ScanStep(g, row, col, row + dr, col + 1);
      ScanNextRow(g, row, col, row + dr);
    }
    ScanEnd(g, row, col);
  }

  /** No cell has more than eight live neighbours. */
  lemma NeighborCountBound(g: Grid, row: int, col: int)
    requires Rectangular(g)
    ensures 0 <= NeighborCount(g, row, col) <= 8
  {
    NeighborCountSum(g, row, col);
  }

  /** Hard edges: the top-left corner sees only its three on-board neighbours. */
  lemma CornerHasThreeNeighbors(g: Grid)
    requires Rectangular(g)
    ensures NeighborCount(g, 0, 0) == Bit(g, 0, 1) + Bit(g, 1, 0) + Bit(g, 1, 1)
  {
    NeighborCountSum(g, 0, 0);
  }

  /**
   * The two checks agree with Conway's four rules: underpopulation,
   * survival, overpopulation and reproduction.
   */
  lemma ConwayRules(g: Grid, r: int, c: int)
    requires Rectangular(g) && 0 <= r < |g| && 0 <= c < |g[0]|
    ensures var n := NeighborCount(g, r, c); var next := NextGeneration(g)[r][c];
      && (g[r][c] && n < 2 ==> !next)
      && (g[r][c] && 2 <= n <= 3 ==> next)
      && (g[r][c] && n > 3 ==> !next)
      && (!g[r][c] ==> (next <==> n == 3))
  {
    NextGenerationRow(g, r);
  }

  /** For boards of the same shape, cell-by-cell agreement is equality. */
  lemma SameCellsIsEquality(a: Grid, b: Grid)
    requires SameShape(a, b)
    ensures SameCells(a, b) <==> a == b
  {
    if SameCells(a, b) {
      forall r | 0 <= r < |a| ensures a[r] == b[r] {
      }
    }
  }

  /** Running `a + b` generations is running `a`, then `b` more. */
  lemma {:induction false} IterateAdds(g: Grid, a: nat, b: nat)
    requires Rectangular(g)
    ensures Iterate(g, a + b) == Iterate(Iterate(g, a), b)
    decreases b
  {
    if b > 0 {
      IterateAdds(g, a, b - 1);
    }
  }

  /** A fixed point stays put however often it is stepped. */
  lemma {:induction false} FixedPointStays(g: Grid, k: nat)
    requires Rectangular(g) && IsFixedPoint(g)
    ensures Iterate(g, k) == g
    decreases k
  {
    if k > 0 {
      FixedPointStays(g, k - 1);
    }
  }

  // ----- the engine ------------------------------------------------------------

  /** Counts live neighbours by scanning the 3x3 window row by row, skipping the centre. */
  method CountLiveNeighbors(board: array<array<bool>>, row: int, col: int) returns (n: int)
    requires Rectangular(Cells(board))
    ensures n == NeighborCount(Cells(board), row, col)
  {
    ghost var g := Cells(board);
    var rows := board.Length;
    var cols := board[0].Length;
    n := 0;
    ScanStart(g, row, col);
    for r := row - 1 to row + 2
      invariant n == |Scanned(g, row, col, r, col - 1)|
      invariant Cells(board) == g
    {
      for c := col - 1 to col + 2
        invariant n == |Scanned(g, row, col, r, c)|
        invariant Cells(board) == g
      {
        ScanCell(board, g, row, col, r, c);
        if r == row && c == col {
          continue;
        }
        if 0 <= r < rows && 0 <= c < cols && board[r][c] {
          n := n + 1;
        }
      }
      ScanNextRow(g, row, col, r);
    }
    ScanEnd(g, row, col);
  }

  /**
   * One step of the engine's scan over the array: the bounds-checked read it
   * performs at `(r, c)`, outside the centre, adds exactly that position's
   * live neighbour to the count.
   */
  lemma ScanCell(board: array<array<bool>>, g: Grid, row: int, col: int, r: int, c: int)
    requires g == Cells(board) && Rectangular(g)
    requires row - 1 <= r <= row + 1 && col - 1 <= c <= col + 1
    ensures 0 <= r < board.Length ==> board[r].Length == board[0].Length
    ensures |Scanned(g, row, col, r, c + 1)| == |Scanned(g, row, col, r, c)| +
      (if (r != row || c != col) && 0 <= r < board.Length && 0 <= c < board[0].Length && board[r][c] then 1 else 0)
  {
    ScanStep(g, row, col, r, c);
  }

  /** Allocates a new board of the same shape and fills it row by row from the old one. */
  method GetNextGeneration(board: array<array<bool>>) returns (next: array<array<bool>>)
    requires Rectangular(Cells(board))
    ensures fresh(next) && forall r :: 0 <= r < next.Length ==> fresh(next[r])
    ensures forall r, s :: 0 <= r < s < next.Length ==> next[r] != next[s]
    ensures Cells(next) == NextGeneration(old(Cells(board)))
    ensures Cells(board) == old(Cells(board))
  {
    ghost var g := Cells(board);
    var rows := board.Length;
    var placeholder := new bool[0];
    next := new array<bool>[rows](_ => placeholder);
    for i := 0 to rows
      modifies next
      invariant fresh(next)
      invariant forall k :: 0 <= k < i ==> fresh(next[k]) && next[k][..] == NextGeneration(g)[k]
      invariant forall k, l :: 0 <= k < l < i ==> next[k] != next[l]
    {
      var nextRow := NextRow(board, i);
      next[i] := nextRow;
    }
    assert Cells(next) == NextGeneration(g) by {
      forall k | 0 <= k < rows ensures Cells(next)[k] == NextGeneration(g)[k] { }
    }
  }

  /**
   * The inner loop of `GetNextGeneration`: row `i` of the next board, each
   * cell from its neighbour count by the two checks of the rule.
   */
  method NextRow(board: array<array<bool>>, i: int) returns (nextRow: array<bool>)
    requires Rectangular(Cells(board)) && 0 <= i < board.Length
    ensures fresh(nextRow)
    ensures nextRow[..] == NextGeneration(Cells(board))[i]
  {
    ghost var g := Cells(board);
    var cols := board[0].Length;
    nextRow := new bool[cols];
    for j := 0 to cols
      invariant forall c :: 0 <= c < j ==> nextRow[c] == Rule(g[i][c], NeighborCount(g, i, c))
    {
      var liveNeighbors := CountLiveNeighbors(board, i, j);
      if board[i][j] {
        nextRow[j] := liveNeighbors == 2 || liveNeighbors == 3;
      } else {
        nextRow[j] := liveNeighbors == 3;
      }
    }
    NextGenerationRow(g, i);
  }

  /** Compares the first board's cells with the second's, stopping at the first difference. */
  method AreBoardsEqual(board: array<array<bool>>, nextBoard: array<array<bool>>) returns (equal: bool)
    requires Rectangular(Cells(board))
    requires nextBoard.Length >= board.Length
    requires forall r :: 0 <= r < board.Length ==> nextBoard[r].Length >= board[0].Length
    ensures equal <==> SameCells(Cells(board), Cells(nextBoard))
  {
    var rows := board.Length;
    var cols := board[0].Length;
    for i := 0 to rows
      invariant forall r, c :: 0 <= r < i && 0 <= c < cols ==> board[r][c] == nextBoard[r][c]
    {
      for j := 0 to cols
        invariant forall c :: 0 <= c < j ==> board[i][c] == nextBoard[i][c]
      {
        if board[i][j] != nextBoard[i][j] {
          return false;
        }
      }
    }
    return true;
  }
}
