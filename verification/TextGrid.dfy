/** The abstract text screen, and the paper it is a window on. */
module TextGrid {
  import opened Arithmetic
  import opened Bytes

  const CR: Byte := 13
  const LF: Byte := 10

  // ---------------------------------------------------------------------
  // The abstract screen: a grid of characters and a cursor.
  // ---------------------------------------------------------------------

  /** A cell that was never written holds 0, which has a blank glyph. */
  datatype Grid = Grid(cells: seq<seq<Byte>>, cx: nat, cy: nat)

  function BlankRow(cols: nat): (r: seq<Byte>)
    ensures |r| == cols
  {
    Zeros(cols)
  }

  function BlankRows(n: nat, cols: nat): (r: seq<seq<Byte>>)
    ensures |r| == n
    ensures forall i :: 0 <= i < n ==> r[i] == BlankRow(cols)
  {
    if n == 0 then [] else BlankRows(n - 1, cols) + [BlankRow(cols)]
  }

  /** The cursor may stand one past the last column: the wrap is left to the next character. */
  predicate OnScreen(g: Grid, rows: nat, cols: nat) {
    && |g.cells| == rows && (forall r :: 0 <= r < rows ==> |g.cells[r]| == cols)
    && g.cx <= cols && g.cy < rows
  }

  function NewLine(g: Grid, rows: nat, cols: nat): (r: Grid)
    requires OnScreen(g, rows, cols)
    ensures OnScreen(r, rows, cols) && r.cx == 0
  {
    if g.cy + 1 < rows then Grid(g.cells, 0, g.cy + 1)
    else Grid(g.cells[1..] + [BlankRow(cols)], 0, g.cy)
  }

  /** `cells` with character `c` at row `y`, column `x`. */
  function SetCell(cells: seq<seq<Byte>>, y: nat, x: nat, c: Byte): (r: seq<seq<Byte>>)
    requires y < |cells| && x < |cells[y]|
    ensures |r| == |cells| && |r[y]| == |cells[y]| && r[y][x] == c
    ensures forall j :: 0 <= j < |cells| && j != y ==> r[j] == cells[j]
  {
    cells[..y] + [Patch(cells[y], x, [c])] + cells[y + 1..]
  }

  function Feed(g: Grid, rows: nat, cols: nat, c: Byte): (r: Grid)
    requires OnScreen(g, rows, cols) && cols > 0
    ensures OnScreen(r, rows, cols)
  {
    if c == CR then g.(cx := 0)
    else if c == LF then NewLine(g, rows, cols)
    else
      var h := if g.cx == cols then NewLine(g, rows, cols) else g;
      Grid(SetCell(h.cells, h.cy, h.cx, c), h.cx + 1, h.cy)
  }

  function FeedAll(g: Grid, rows: nat, cols: nat, s: seq<Byte>): (r: Grid)
    requires OnScreen(g, rows, cols) && cols > 0
    ensures OnScreen(r, rows, cols)
  {
    if s == [] then g else Feed(FeedAll(g, rows, cols, s[..|s| - 1]), rows, cols, s[|s| - 1])
  }

  function Cleared(rows: nat, cols: nat): (g: Grid)
    requires rows > 0
    ensures OnScreen(g, rows, cols)
  {
    Grid(BlankRows(rows, cols), 0, 0)
  }

  // ---------------------------------------------------------------------
  // The reference: a roll of paper that never scrolls.
  // ---------------------------------------------------------------------

  /** All lines ever begun; the last one is being written. */
  datatype Paper = Paper(lines: seq<seq<Byte>>, cx: nat)

  predicate OnPaper(p: Paper, cols: nat) {
    && |p.lines| > 0 && (forall r :: 0 <= r < |p.lines| ==> |p.lines[r]| == cols)
    && p.cx <= cols
  }

  function Write(p: Paper, cols: nat, c: Byte): (r: Paper)
    requires OnPaper(p, cols) && cols > 0
    ensures OnPaper(r, cols)
  {
    if c == CR then p.(cx := 0)
    else if c == LF then Paper(p.lines + [BlankRow(cols)], 0)
    else
      var q := if p.cx == cols then Paper(p.lines + [BlankRow(cols)], 0) else p;
      var n := |q.lines| - 1;
      Paper(SetCell(q.lines, n, q.cx, c), q.cx + 1)
  }

  function WriteAll(cols: nat, s: seq<Byte>): (p: Paper)
    requires cols > 0
    ensures OnPaper(p, cols)
  {
    if s == [] then Paper([BlankRow(cols)], 0) else Write(WriteAll(cols, s[..|s| - 1]), cols, s[|s| - 1])
  }

  /** The last `rows` lines of the paper. */
  function Window(p: Paper, rows: nat, cols: nat): (g: Grid)
    requires OnPaper(p, cols) && rows > 0
    ensures OnScreen(g, rows, cols)
  {
    var n := |p.lines|;
    if n <= rows then Grid(p.lines + BlankRows(rows - n, cols), p.cx, n - 1)
    else Grid(p.lines[n - rows..], p.cx, rows - 1)
  }

  lemma BlankRowsCons(n: nat, cols: nat)
    requires n > 0
    ensures BlankRows(n, cols) == [BlankRow(cols)] + BlankRows(n - 1, cols)
  {
    assert forall i :: 0 <= i < n ==> BlankRows(n, cols)[i] == ([BlankRow(cols)] + BlankRows(n - 1, cols))[i];
  }

  lemma WindowOfNewLine(p: Paper, rows: nat, cols: nat)
    requires OnPaper(p, cols) && rows > 0
    ensures NewLine(Window(p, rows, cols), rows, cols) == Window(Paper(p.lines + [BlankRow(cols)], 0), rows, cols)
  {
    var n := |p.lines|;
    if n < rows {
      BlankRowsCons(rows - n, cols);
    }
  }

  /** One character keeps the screen a window on the paper. */
  lemma WindowOfWrite(p: Paper, rows: nat, cols: nat, c: Byte)
    requires OnPaper(p, cols) && rows > 0 && cols > 0
    ensures Feed(Window(p, rows, cols), rows, cols, c) == Window(Write(p, cols, c), rows, cols)
  {
    hide Window, NewLine, SetCell, BlankRow;
    if c == CR {
      WindowOfReturn(p, rows, cols);
    } else if c == LF {
      WindowOfNewLine(p, rows, cols);
    } else {
      WindowOfChar(p, rows, cols, c);
    }
  }

  lemma WindowOfChar(p: Paper, rows: nat, cols: nat, c: Byte)
    requires OnPaper(p, cols) && rows > 0 && cols > 0 && c != CR && c != LF
    ensures Feed(Window(p, rows, cols), rows, cols, c) == Window(Write(p, cols, c), rows, cols)
  {
    hide Window, NewLine, SetCell, BlankRow, Feed, Write;
    WindowOfNewLine(p, rows, cols);
    WindowCursor(p, rows, cols);
    var q := if p.cx == cols then Paper(p.lines + [BlankRow(cols)], 0) else p;
    WindowOfPut(q, rows, cols, c);
    FeedChar(Window(p, rows, cols), rows, cols, c);
    WriteChar(p, cols, c);
  }

  lemma FeedChar(g: Grid, rows: nat, cols: nat, c: Byte)
    requires OnScreen(g, rows, cols) && cols > 0 && c != CR && c != LF
    ensures var h := if g.cx == cols then NewLine(g, rows, cols) else g;
            Feed(g, rows, cols, c) == Grid(SetCell(h.cells, h.cy, h.cx, c), h.cx + 1, h.cy)
  {
  }

  lemma WriteChar(p: Paper, cols: nat, c: Byte)
    requires OnPaper(p, cols) && cols > 0 && c != CR && c != LF
    ensures var q := if p.cx == cols then Paper(p.lines + [BlankRow(cols)], 0) else p;
            Write(p, cols, c) == Paper(SetCell(q.lines, |q.lines| - 1, q.cx, c), q.cx + 1)
  {
  }

  lemma WindowOfReturn(p: Paper, rows: nat, cols: nat)
    requires OnPaper(p, cols) && rows > 0
    ensures Window(p.(cx := 0), rows, cols) == Window(p, rows, cols).(cx := 0)
  {
  }

  lemma WindowCursor(p: Paper, rows: nat, cols: nat)
    requires OnPaper(p, cols) && rows > 0
    ensures Window(p, rows, cols).cx == p.cx
  {
  }

  lemma WindowOfPut(p: Paper, rows: nat, cols: nat, c: Byte)
    requires OnPaper(p, cols) && rows > 0 && p.cx < cols
    ensures var g, n := Window(p, rows, cols), |p.lines| - 1;
            var put := Grid(SetCell(g.cells, g.cy, g.cx, c), g.cx + 1, g.cy);
            put == Window(Paper(SetCell(p.lines, n, p.cx, c), p.cx + 1), rows, cols)
  {
  }

  /** The scrolling screen always shows the end of what was ever printed. */
  lemma {:induction false} ScreenIsWindow(rows: nat, cols: nat, s: seq<Byte>)
    requires rows > 0 && cols > 0
    ensures FeedAll(Cleared(rows, cols), rows, cols, s) == Window(WriteAll(cols, s), rows, cols)
  {
    if s == [] {
      BlankRowsCons(rows, cols);
    } else {
      ScreenIsWindow(rows, cols, s[..|s| - 1]);
      WindowOfWrite(WriteAll(cols, s[..|s| - 1]), rows, cols, s[|s| - 1]);
    }
  }

  // ---------------------------------------------------------------------
  // The same in numbers.
  // ---------------------------------------------------------------------

  /** Reading order: the number of the character that belongs at row `r`, column `x`. */
  function Order(cols: nat, r: nat, x: nat): nat { cols * r + x }

  /** The characters of `s` in reading order, and nothing behind them. */
  ghost predicate Filled(lines: seq<seq<Byte>>, cols: nat, s: seq<Byte>) {
    forall r, x :: 0 <= r < |lines| && 0 <= x < |lines[r]| ==>
      lines[r][x] == if Order(cols, r, x) < |s| then s[Order(cols, r, x)] else 0
  }

  lemma FilledBelow(lines: seq<seq<Byte>>, cols: nat, s: seq<Byte>)
    requires Filled(lines, cols, s) && |s| <= cols * |lines|
    ensures Filled(lines + [BlankRow(cols)], cols, s)
  {
    var more := lines + [BlankRow(cols)];
    forall r, x | 0 <= r < |more| && 0 <= x < |more[r]|
      ensures more[r][x] == if Order(cols, r, x) < |s| then s[Order(cols, r, x)] else 0
    {
      if r < |lines| { assert more[r] == lines[r]; }
    }
  }

  lemma FilledPut(lines: seq<seq<Byte>>, cols: nat, s: seq<Byte>, y: nat, x: nat, c: Byte)
    requires Filled(lines, cols, s) && y < |lines| && x < cols && Order(cols, y, x) == |s|
    requires forall r :: 0 <= r < |lines| ==> |lines[r]| == cols
    ensures Filled(SetCell(lines, y, x, c), cols, s + [c])
  {
    hide SetCell, Order;
    var put := SetCell(lines, y, x, c);
    forall r, z | 0 <= r < |put| && 0 <= z < |put[r]|
      ensures put[r][z] == if Order(cols, r, z) < |s + [c]| then (s + [c])[Order(cols, r, z)] else 0
    {
      if r == y { assert |put[y]| == cols; } else { assert put[r] == lines[r]; }
      CellIs(lines, y, x, c, r, z);
      OrderIsInjective(cols, r, z, y, x);
    }
  }

  lemma OrderIsInjective(cols: nat, r: nat, x: nat, r': nat, x': nat)
    requires x < cols && x' < cols
    ensures Order(cols, r, x) == Order(cols, r', x') <==> r == r' && x == x'
  {
    DivUnique(Order(cols, r, x), cols, r, x);
    DivUnique(Order(cols, r', x'), cols, r', x');
  }

  /** The next character goes right behind `s`, and there is no line too many. */
  ghost predicate Behind(p: Paper, cols: nat, s: seq<Byte>) {
    && OnPaper(p, cols) && Filled(p.lines, cols, s)
    && Order(cols, |p.lines| - 1, 0) + p.cx == |s|
    && (p.cx == 0 ==> s == [] && |p.lines| == 1)
  }

  lemma OrderStep(cols: nat, r: nat, x: nat)
    ensures Order(cols, r, x) == Order(cols, r, 0) + x && Order(cols, r + 1, 0) == Order(cols, r, 0) + cols && Order(cols, 0, 0) == 0
    ensures Order(cols, r + 1, 0) == cols * (r + 1)
  {
  }

  lemma PlainChar(cols: nat, p: Paper, s: seq<Byte>, c: Byte)
    requires cols > 0 && c != 10 && c != 13 && Behind(p, cols, s)
    ensures Behind(Write(p, cols, c), cols, s + [c])
  {
    WriteChar(p, cols, c);
    hide Write, SetCell, Filled, Order;
    var n := |p.lines|;
    OrderStep(cols, n - 1, p.cx);
    if p.cx == cols {
      FilledBelow(p.lines, cols, s);
      FilledPut(p.lines + [BlankRow(cols)], cols, s, n, 0, c);
    } else {
      FilledPut(p.lines, cols, s, n - 1, p.cx, c);
    }
  }

  lemma {:induction false} PlainPaper(cols: nat, s: seq<Byte>)
    requires cols > 0 && 10 !in s && 13 !in s
    ensures Behind(WriteAll(cols, s), cols, s)
  {
    hide Write, Order, Filled;
    if s == [] {
      OrderStep(cols, 0, 0);
      BlankIsFilled(cols);
    } else {
      var front, m := s[..|s| - 1], |s| - 1;
      PlainPaper(cols, front);
      PlainChar(cols, WriteAll(cols, front), front, s[m]);
      assert front + [s[m]] == s;
    }
  }

  lemma BlankIsFilled(cols: nat)
    ensures Filled([BlankRow(cols)], cols, [])
  {
  }

  /**
   * Text without control characters fills the paper line by line: character
   * `k` is on line k / cols, in column k % cols, the rest of the last line is
   * blank, and the cursor stands behind the last character.
   */
  lemma {:induction false} PlainText(cols: nat, s: seq<Byte>, r: nat, x: nat)
    requires cols > 0 && 10 !in s && 13 !in s && r < |WriteAll(cols, s).lines| && x < cols
    ensures WriteAll(cols, s).lines[r][x] == if cols * r + x < |s| then s[cols * r + x] else 0
    ensures WriteAll(cols, s).cx == |s| - cols * (|WriteAll(cols, s).lines| - 1)
    ensures s != [] ==> cols * (|WriteAll(cols, s).lines| - 1) < |s| <= cols * |WriteAll(cols, s).lines|
  {
    PlainPaper(cols, s);
    var p := WriteAll(cols, s);
    hide WriteAll;
    assert Order(cols, r, x) == cols * r + x && Order(cols, |p.lines| - 1, 0) == cols * (|p.lines| - 1);
    hide Order;
    OrderStep(cols, |p.lines| - 1, 0);
  }

  lemma CellIs(cells: seq<seq<Byte>>, y: nat, x: nat, c: Byte, r: nat, z: nat)
    requires y < |cells| && x < |cells[y]| && r < |cells| && z < |cells[r]|
    ensures r < |SetCell(cells, y, x, c)| && z < |SetCell(cells, y, x, c)[r]|
    ensures SetCell(cells, y, x, c)[r][z] == if r == y && z == x then c else cells[r][z]
  {
  }

  /** A carriage return goes back to the first column, a line feed begins a blank line. */
  lemma {:induction false} ControlCharacters(cols: nat, s: seq<Byte>)
    requires cols > 0
    ensures WriteAll(cols, s + [13]) == Paper(WriteAll(cols, s).lines, 0)
    ensures WriteAll(cols, s + [10]) == Paper(WriteAll(cols, s).lines + [Zeros(cols)], 0)
  {
    assert (s + [13])[..|s|] == s && (s + [10])[..|s|] == s;
  }

  /** Row by row, what the screen shows of the paper. */
  lemma WindowInNumbers(p: Paper, rows: nat, cols: nat)
    requires OnPaper(p, cols) && rows > 0
    ensures var g, n := Window(p, rows, cols), |p.lines|;
            && g.cx == p.cx && g.cy == (if n <= rows then n - 1 else rows - 1)
            && forall r :: 0 <= r < rows ==>
                 g.cells[r] == if n > rows then p.lines[n - rows + r] else if r < n then p.lines[r] else Zeros(cols)
  {
  }
}
