/**
 * The text rendering of a board: every cell is its glyph followed by one
 * space, and every row is followed by one line terminator.
 */
module Ascii {
  import opened Grids

  function Glyph(cell: bool, live: char, dead: char): char {
    if cell then live else dead
  }

  /** The text of one row, built cell by cell from the left. */
  function RenderRow(row: seq<bool>, live: char, dead: char): string
    decreases |row|
  {
    if row == [] then "" else RenderRow(row[..|row| - 1], live, dead) + [Glyph(row[|row| - 1], live, dead), ' ']
  }

  /** The text of a board, built row by row from the top. */
  function Render(g: Grid, live: char, dead: char, newline: string): string
    decreases |g|
  {
    if g == [] then "" else Render(g[..|g| - 1], live, dead, newline) + RenderRow(g[|g| - 1], live, dead) + newline
  }

  /** Every row has the same number of cells (rows may be zero). */
  predicate Uniform(g: Grid, cols: nat) {
    forall r :: 0 <= r < |g| ==> |g[r]| == cols
  }

  /** Cell `c` of a row is at offset `2c`, and the space after it at `2c + 1`. */
  lemma {:induction false} RenderRowAt(row: seq<bool>, live: char, dead: char)
    ensures |RenderRow(row, live, dead)| == 2 * |row|
    ensures forall c :: 0 <= c < |row| ==>
      RenderRow(row, live, dead)[2 * c] == Glyph(row[c], live, dead) && RenderRow(row, live, dead)[2 * c + 1] == ' '
    decreases |row|
  {
    if row != [] {
      var init := row[..|row| - 1];
      RenderRowAt(init, live, dead);
      forall c | 0 <= c < |row| - 1 ensures row[c] == init[c] { }
    }
  }

  /** An R x C board renders to R * (2C + |newline|) characters. */
  lemma {:induction false} RenderLength(g: Grid, cols: nat, live: char, dead: char, newline: string)
    requires Uniform(g, cols)
    ensures |Render(g, live, dead, newline)| == |g| * (2 * cols + |newline|)
    decreases |g|
  {
    if g != [] {
      var w := 2 * cols + |newline|;
      RenderLength(g[..|g| - 1], cols, live, dead, newline);
      RenderRowAt(g[|g| - 1], live, dead);
      assert (|g| - 1) * w + w == |g| * w;
    }
  }

  /**
   * Row-major order: every line of the text is `2 * cols + |newline|`
   * characters, and the `r`-th line is row `r`'s cells and one terminator.
   */
  lemma RenderLine(g: Grid, cols: nat, live: char, dead: char, newline: string, r: nat)
    requires Uniform(g, cols) && r < |g|
    ensures r * (2 * cols + |newline|) + (2 * cols + |newline|) <= |Render(g, live, dead, newline)|
    ensures Render(g, live, dead, newline)[r * (2 * cols + |newline|) .. (r + 1) * (2 * cols + |newline|)] ==
      RenderRow(g[r], live, dead) + newline
  {
    var w := 2 * cols + |newline|;
    RenderLineFrom(g, cols, live, dead, newline, w, r, r * w);
    assert (r + 1) * w == r * w + w;
  }

  /** `RenderLine` with the line width `w` and the line's offset `lo = r * w` named. */
  lemma {:induction false} RenderLineFrom(g: Grid, cols: nat, live: char, dead: char, newline: string, w: nat, r: nat, lo: nat)
    requires Uniform(g, cols) && w == 2 * cols + |newline| && r < |g| && lo == r * w
    ensures |Render(g, live, dead, newline)| == |g| * w
    ensures lo + w <= |Render(g, live, dead, newline)|
    ensures Render(g, live, dead, newline)[lo .. lo + w] == RenderRow(g[r], live, dead) + newline
    decreases |g|
  {
    if r == |g| - 1 {
      RenderLastLine(g, cols, live, dead, newline, w, lo);
    } else {
      var init := g[..|g| - 1];
      var prefix := Render(init, live, dead, newline);
      var last := RenderRow(g[|g| - 1], live, dead) + newline;
      RenderLength(g, cols, live, dead, newline);
      RenderLineFrom(init, cols, live, dead, newline, w, r, lo);
      assert init[r] == g[r];
      assert Render(g, live, dead, newline) == prefix + last;
      SliceOfPrefix(prefix, last, lo, lo + w);
    }
  }

  /** The last line of the text, from offset `lo`, is the last row. */
  lemma RenderLastLine(g: Grid, cols: nat, live: char, dead: char, newline: string, w: nat, lo: nat)
    requires Uniform(g, cols) && w == 2 * cols + |newline| && |g| > 0 && lo == (|g| - 1) * w
    ensures |Render(g, live, dead, newline)| == |g| * w
    ensures lo + w <= |Render(g, live, dead, newline)|
    ensures Render(g, live, dead, newline)[lo .. lo + w] == RenderRow(g[|g| - 1], live, dead) + newline
  {
    var init := g[..|g| - 1];
    var prefix := Render(init, live, dead, newline);
    var last := RenderRow(g[|g| - 1], live, dead) + newline;
    RenderLength(g, cols, live, dead, newline);
    RenderLength(init, cols, live, dead, newline);
    RenderRowAt(g[|g| - 1], live, dead);
    assert Render(g, live, dead, newline) == prefix + last;
    assert |prefix| == lo && |last| == w;
    SliceOfPrefix(prefix, last, lo, lo + w);
  }

  /** A slice of `a + b` that starts at or before the end of `a`. */
  lemma SliceOfPrefix(a: string, b: string, lo: nat, hi: nat)
    requires lo <= hi && (hi <= |a| || lo == |a|) && hi <= |a| + |b|
    ensures (a + b)[lo .. hi] == if hi <= |a| then a[lo .. hi] else b[.. hi - |a|]
  {
  }

  /** With a `"\n"` terminator and glyphs other than `'\n'`, the text holds exactly one line break per row. */
  lemma {:induction false} RenderLineBreaks(g: Grid, live: char, dead: char)
    requires live != '\n' && dead != '\n'
    ensures multiset(Render(g, live, dead, "\n"))['\n'] == |g|
    decreases |g|
  {
    if g != [] {
      RenderLineBreaks(g[..|g| - 1], live, dead);
      RowHasNoLineBreak(g[|g| - 1], live, dead);
    }
  }

  lemma {:induction false} RowHasNoLineBreak(row: seq<bool>, live: char, dead: char)
    requires live != '\n' && dead != '\n'
    ensures multiset(RenderRow(row, live, dead))['\n'] == 0
    decreases |row|
  {
    if row != [] {
      RowHasNoLineBreak(row[..|row| - 1], live, dead);
    }
  }

  /**
   * Appends each cell's glyph and a space, and a terminator after each row.
   * The terminator is a parameter: the source appends the platform's line
   * separator.
   */
  method ParseToAscii(board: array<array<bool>>, live: char, dead: char, newline: string) returns (text: string)
    ensures text == Render(Cells(board), live, dead, newline)
  {
    ghost var g := Cells(board);
    text := "";
    for i := 0 to board.Length
      invariant text == Render(g[..i], live, dead, newline)
    {
      var row := board[i];
      ghost var before := text;
      for j := 0 to row.Length
        invariant text == before + RenderRow(row[..j], live, dead)
      {
        assert row[..j + 1][..j] == row[..j];
        text := text + [if row[j] then live else dead];
        text := text + " ";
      }
      assert row[..row.Length] == g[i];
      text := text + newline;
      assert g[..i + 1][..i] == g[..i] && g[..i + 1][i] == g[i];
    }
    assert g[..board.Length] == g;
  }
}
