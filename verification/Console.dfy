/** The framebuffer text console of src/efi64/efi64.c; efi32.c has the same code. */
module Console {
  import opened Arithmetic
  import opened Bytes
  import opened StringOps
  import opened TextGrid
  import opened Decimals

  const FONT_WIDTH := 8
  const FONT_HEIGHT := 16
  const FONT_FIRST_CHAR := 32
  const FONT_LAST_CHAR := 126
  const FG := 0x00FF_FFFF
  const BG := 0

  /** g_font_data: 16 rows for each of the 95 printable characters. */
  type Font = s: seq<Byte> | |s| == 95 * 16 witness seq(95 * 16, _ => 0)

  function GlyphRow(font: Font, c: Byte, y: nat): (row: Byte)
    requires y < 16
  {
    if FONT_FIRST_CHAR <= c <= FONT_LAST_CHAR then font[(c - FONT_FIRST_CHAR) * FONT_HEIGHT + y] else 0
  }

  /** The bit `0x80 >> x` of a glyph row. */
  function Bit(row: Byte, x: nat): (on: bool)
    requires x < 8
  {
    row / [128, 64, 32, 16, 8, 4, 2, 1][x] % 2 == 1
  }

  function Pixel(row: Byte, x: nat): (color: nat)
    requires x < 8
    ensures color == FG || color == BG
  {
    if Bit(row, x) then FG else BG
  }

  /** The first `n` pixels of a glyph row, as stored: 32 bits each, little-endian. */
  function PixelBytes(row: Byte, n: nat): (b: seq<Byte>)
    requires n <= 8
    ensures |b| == 4 * n
  {
    if n == 0 then [] else PixelBytes(row, n - 1) + LE32(Pixel(row, n - 1))
  }

  lemma {:induction false} BlankPixels(n: nat)
    requires n <= 8
    ensures PixelBytes(0, n) == Zeros(4 * n)
  {
    if n > 0 {
      BlankPixels(n - 1);
      assert LE32(BG) == Zeros(4);
    }
  }

  /** One scan line of a row of characters: 32 bytes for each. */
  function TextLine(font: Font, row: seq<Byte>, y: nat): (b: seq<Byte>)
    requires y < 16
    ensures |b| == 32 * |row|
  {
    if row == [] then [] else TextLine(font, row[..|row| - 1], y) + PixelBytes(GlyphRow(font, row[|row| - 1], y), 8)
  }

  lemma {:induction false} BlankText(font: Font, n: nat, y: nat)
    requires y < 16
    ensures TextLine(font, BlankRow(n), y) == Zeros(32 * n)
  {
    if n > 0 {
      assert BlankRow(n)[..n - 1] == BlankRow(n - 1);
      BlankText(font, n - 1, y);
      BlankPixels(8);
    }
  }

  /** Drawing a character over one cell is exchanging it in the row. */
  lemma {:induction false} DrawInLine(font: Font, row: seq<Byte>, x: nat, c: Byte, y: nat)
    requires y < 16 && x < |row|
    ensures Patch(TextLine(font, row, y), 32 * x, PixelBytes(GlyphRow(font, c, y), 8)) == TextLine(font, Patch(row, x, [c]), y)
  {
    hide PixelBytes, GlyphRow;
    var m, row' := |row| - 1, Patch(row, x, [c]);
    if x == m {
      assert row'[..m] == row[..m];
    } else {
      DrawInLine(font, row[..m], x, c, y);
      assert row'[..m] == Patch(row[..m], x, [c]);
      assert row'[m] == row[m];
      PatchPrefix(TextLine(font, row[..m], y), PixelBytes(GlyphRow(font, row[m], y), 8), 32 * x, PixelBytes(GlyphRow(font, c, y), 8));
    }
  }

  lemma PatchPrefix(a: seq<Byte>, b: seq<Byte>, o: nat, c: seq<Byte>)
    requires o + |c| <= |a|
    ensures Patch(a + b, o, c) == Patch(a, o, c) + b
  {
  }

  /** The mode set by init_gop. */
  datatype Mode = Mode(width: nat, height: nat, pitch: nat) {
    predicate Valid() {
      && width >= FONT_WIDTH && height >= FONT_HEIGHT && pitch >= 4 * width
      && height * pitch < TWO32
    }
    function Cols(): nat { width / FONT_WIDTH }
    function Rows(): nat { height / FONT_HEIGHT }
  }

  /**
   * Scan line `y` of the screen: text, then black up to the pitch. The lines
   * below the last whole text row are black.
   */
  function ScreenLine(font: Font, m: Mode, cells: seq<seq<Byte>>, y: nat): (b: seq<Byte>)
    requires m.Valid() && |cells| == m.Rows() && forall r :: 0 <= r < |cells| ==> |cells[r]| == m.Cols()
    ensures |b| == m.pitch
  {
    if y / 16 < m.Rows() then TextLine(font, cells[y / 16], y % 16) + Zeros(m.pitch - 32 * m.Cols()) else Zeros(m.pitch)
  }

  lemma LineBounds(m: Mode, y: nat)
    requires y < m.height
    ensures 0 <= y * m.pitch && y * m.pitch + m.pitch <= m.height * m.pitch
  {
    assert (y + 1) * m.pitch <= m.height * m.pitch;
  }

  function LineOf(fb: seq<Byte>, m: Mode, y: nat): (b: seq<Byte>)
    requires |fb| == m.height * m.pitch && y < m.height
    ensures |b| == m.pitch
  {
    LineBounds(m, y);
    fb[y * m.pitch..y * m.pitch + m.pitch]
  }

  /** Every byte of the framebuffer, padding included, is what the grid says. */
  ghost predicate Shows(fb: seq<Byte>, font: Font, m: Mode, cells: seq<seq<Byte>>) {
    && m.Valid() && |fb| == m.height * m.pitch
    && |cells| == m.Rows() && (forall r :: 0 <= r < |cells| ==> |cells[r]| == m.Cols())
    && forall y :: 0 <= y < m.height ==> LineOf(fb, m, y) == ScreenLine(font, m, cells, y)
  }

  /** The color of pixel (x, y): a bit of the glyph of the cell it lies in, or black outside the text area. */
  function PixelOf(font: Font, m: Mode, cells: seq<seq<Byte>>, x: nat, y: nat): (color: nat)
    requires m.Valid() && |cells| == m.Rows() && forall r :: 0 <= r < |cells| ==> |cells[r]| == m.Cols()
  {
    if y / 16 < m.Rows() && x / 8 < m.Cols() then Pixel(GlyphRow(font, cells[y / 16][x / 8], y % 16), x % 8) else BG
  }

  /** The 32-bit pixel at (x, y) of a framebuffer. */
  function PixelAt(fb: seq<Byte>, m: Mode, x: nat, y: nat): nat
    requires m.Valid() && |fb| == m.height * m.pitch && x < m.width && y < m.height
  {
    LineBounds(m, y);
    Get32(fb, y * m.pitch + 4 * x)
  }

  /**
   * What the byte view of the screen says pixel by pixel: white exactly where
   * bit 7 - x % 8 of row y % 16 of the glyph of a printable character is set,
   * black everywhere else.
   */
  lemma ShownPixel(fb: seq<Byte>, font: Font, m: Mode, cells: seq<seq<Byte>>, x: nat, y: nat)
    requires Shows(fb, font, m, cells) && x < m.width && y < m.height
    ensures 0 <= y * m.pitch + 4 * x && y * m.pitch + 4 * x + 4 <= |fb|
    ensures PixelAt(fb, m, x, y) == Get32(fb, y * m.pitch + 4 * x)
    ensures Get32(fb, y * m.pitch + 4 * x) ==
            if y / 16 < m.height / 16 && x / 8 < m.width / 8 && 32 <= cells[y / 16][x / 8] <= 126
               && font[16 * (cells[y / 16][x / 8] as int - 32) + y % 16] / [128, 64, 32, 16, 8, 4, 2, 1][x % 8] % 2 == 1
            then 0x00FF_FFFF else 0
  {
    hide Shows, Get32;
    LineBounds(m, y);
    ShownColor(fb, font, m, cells, x, y);
  }

  lemma ShownColor(fb: seq<Byte>, font: Font, m: Mode, cells: seq<seq<Byte>>, x: nat, y: nat)
    requires Shows(fb, font, m, cells) && x < m.width && y < m.height
    ensures 0 <= y * m.pitch + 4 * x && y * m.pitch + 4 * x + 4 <= |fb|
    ensures Get32(fb, y * m.pitch + 4 * x) == PixelOf(font, m, cells, x, y)
  {
    hide Get32, TextLine, GlyphRow, Pixel;
    LineBounds(m, y);
    var at := y * m.pitch;
    Get32InSlice(fb, at, at + m.pitch, 4 * x);
    assert LineOf(fb, m, y) == ScreenLine(font, m, cells, y);
    if y / 16 < m.Rows() {
      var text, pad := TextLine(font, cells[y / 16], y % 16), Zeros(m.pitch - 32 * m.Cols());
      if x / 8 < m.Cols() {
        Get32InFirst(text, pad, 4 * x);
        TextPixel(font, cells[y / 16], y % 16, x);
      } else {
        Get32InSecond(text, pad, 4 * x);
        Get32OfZeros(|pad|, 4 * x - |text|);
      }
    } else {
      Get32OfZeros(m.pitch, 4 * x);
    }
  }

  lemma {:induction false} TextPixel(font: Font, row: seq<Byte>, y: nat, x: nat)
    requires y < 16 && x < 8 * |row|
    ensures Get32(TextLine(font, row, y), 4 * x) == Pixel(GlyphRow(font, row[x / 8], y), x % 8)
  {
    hide Get32, GlyphRow, Pixel, PixelBytes;
    var m := |row| - 1;
    var front, last := TextLine(font, row[..m], y), PixelBytes(GlyphRow(font, row[m], y), 8);
    if x < 8 * m {
      Get32InFirst(front, last, 4 * x);
      TextPixel(font, row[..m], y, x);
    } else {
      Get32InSecond(front, last, 4 * x);
      assert x / 8 == m && x % 8 == x - 8 * m;
      GlyphPixel(GlyphRow(font, row[m], y), 8, x - 8 * m);
    }
  }

  lemma {:induction false} GlyphPixel(row: Byte, n: nat, x: nat)
    requires x < n <= 8
    ensures Get32(PixelBytes(row, n), 4 * x) == Pixel(row, x)
  {
    hide Get32, LE32, Bit;
    var front, last := PixelBytes(row, n - 1), LE32(Pixel(row, n - 1));
    if x < n - 1 {
      Get32InFirst(front, last, 4 * x);
      GlyphPixel(row, n - 1, x);
    } else {
      Get32InSecond(front, last, 4 * x);
      GetLE32(Pixel(row, x));
    }
  }

  lemma Get32InFirst(a: seq<Byte>, b: seq<Byte>, o: nat)
    requires o + 4 <= |a|
    ensures Get32(a + b, o) == Get32(a, o)
  {
  }

  lemma Get32InSecond(a: seq<Byte>, b: seq<Byte>, o: nat)
    requires |a| <= o && o - |a| + 4 <= |b|
    ensures Get32(a + b, o) == Get32(b, o - |a|)
  {
  }

  lemma Get32OfZeros(n: nat, o: nat)
    requires o + 4 <= n
    ensures Get32(Zeros(n), o) == 0
  {
  }

  // ---------------------------------------------------------------------
  // Effects of stores on scan lines.
  // ---------------------------------------------------------------------

  lemma LinesApart(m: Mode, y: nat, z: nat)
    requires y < z
    ensures y * m.pitch + m.pitch <= z * m.pitch
  {
    assert (y + 1) * m.pitch <= z * m.pitch;
  }

  /** A store into line `y` changes that line only. */
  lemma StoreInLine(fb: seq<Byte>, m: Mode, y: nat, o: nat, b: seq<Byte>)
    requires |fb| == m.height * m.pitch && y < m.height && o + |b| <= m.pitch
    ensures 0 <= y * m.pitch && y * m.pitch + o + |b| <= |fb|
    ensures LineOf(Patch(fb, y * m.pitch + o, b), m, y) == Patch(LineOf(fb, m, y), o, b)
    ensures forall z :: 0 <= z < m.height && z != y ==> LineOf(Patch(fb, y * m.pitch + o, b), m, z) == LineOf(fb, m, z)
  {
    LineBounds(m, y);
    var at := y * m.pitch;
    PatchInside(fb, at + o, b, at, at + m.pitch);
    forall z | 0 <= z < m.height && z != y ensures LineOf(Patch(fb, at + o, b), m, z) == LineOf(fb, m, z) {
      LineBounds(m, z);
      if z < y { LinesApart(m, z, y); } else { LinesApart(m, y, z); }
      PatchOutside(fb, at + o, b, z * m.pitch, z * m.pitch + m.pitch);
    }
  }

  /** The cell at (cx, cy) drawn down to glyph row `n`. */
  ghost predicate DrawnTo(fb: seq<Byte>, font: Font, m: Mode, cells: seq<seq<Byte>>, cy: nat, cx: nat, c: Byte, n: nat) {
    && m.Valid() && |fb| == m.height * m.pitch && n <= 16
    && |cells| == m.Rows() && (forall r :: 0 <= r < |cells| ==> |cells[r]| == m.Cols()) && cy < m.Rows() && cx < m.Cols()
    && forall y :: 0 <= y < m.height ==>
         LineOf(fb, m, y) == ScreenLine(font, m, if 16 * cy <= y < 16 * cy + n then SetCell(cells, cy, cx, c) else cells, y)
  }

  lemma DrawLine(fb: seq<Byte>, font: Font, m: Mode, cells: seq<seq<Byte>>, cy: nat, cx: nat, c: Byte, n: nat, y: nat)
    requires DrawnTo(fb, font, m, cells, cy, cx, c, n) && n < 16 && y == 16 * cy + n
    ensures y < m.height && y * m.pitch + 32 * cx + 32 <= |fb|
    ensures DrawnTo(Patch(fb, y * m.pitch + 32 * cx, PixelBytes(GlyphRow(font, c, n), 8)), font, m, cells, cy, cx, c, n + 1)
  {
    hide PixelBytes, GlyphRow, ScreenLine, SetCell, LineOf, Patch;
    var b := PixelBytes(GlyphRow(font, c, n), 8);
    assert y < m.height && 32 * cx + 32 <= m.pitch;
    StoreInLine(fb, m, y, 32 * cx, b);
    DrawInScreenLine(font, m, cells, cy, cx, c, n);
    var fb', next := Patch(fb, y * m.pitch + 32 * cx, b), SetCell(cells, cy, cx, c);
    forall z | 0 <= z < m.height
      ensures LineOf(fb', m, z) == ScreenLine(font, m, if 16 * cy <= z < 16 * cy + (n + 1) then next else cells, z)
    {
      if z == y {
        assert LineOf(fb, m, y) == ScreenLine(font, m, cells, y);
      } else {
        assert LineOf(fb, m, z) == ScreenLine(font, m, if 16 * cy <= z < 16 * cy + n then next else cells, z);
      }
    }
  }

  lemma DrawInScreenLine(font: Font, m: Mode, cells: seq<seq<Byte>>, cy: nat, cx: nat, c: Byte, n: nat)
    requires m.Valid() && |cells| == m.Rows() && (forall r :: 0 <= r < |cells| ==> |cells[r]| == m.Cols())
    requires cy < m.Rows() && cx < m.Cols() && n < 16
    ensures Patch(ScreenLine(font, m, cells, 16 * cy + n), 32 * cx, PixelBytes(GlyphRow(font, c, n), 8))
         == ScreenLine(font, m, SetCell(cells, cy, cx, c), 16 * cy + n)
  {
    hide PixelBytes, GlyphRow, TextLine;
    var y, b := 16 * cy + n, PixelBytes(GlyphRow(font, c, n), 8);
    assert y / 16 == cy && y % 16 == n;
    DrawInLine(font, cells[cy], cx, c, n);
    PatchPrefix(TextLine(font, cells[cy], n), Zeros(m.pitch - 32 * m.Cols()), 32 * cx, b);
  }

  lemma DrawnWhole(fb: seq<Byte>, font: Font, m: Mode, cells: seq<seq<Byte>>, cy: nat, cx: nat, c: Byte)
    requires DrawnTo(fb, font, m, cells, cy, cx, c, 16)
    ensures Shows(fb, font, m, SetCell(cells, cy, cx, c))
  {
    var next := SetCell(cells, cy, cx, c);
    forall y | 0 <= y < m.height ensures LineOf(fb, m, y) == ScreenLine(font, m, next, y) {
      if !(16 * cy <= y < 16 * cy + 16) {
        assert y / 16 != cy;
      }
    }
  }

  /** Moving the lines up by 16 and blackening the last 16 scrolls the grid, whatever the height is modulo 16. */
  lemma ScrollLines(fb: seq<Byte>, font: Font, m: Mode, cells: seq<seq<Byte>>)
    requires Shows(fb, font, m, cells)
    ensures 16 * m.pitch <= |fb| && (m.height - 16) * m.pitch == |fb| - 16 * m.pitch
    ensures var moved := Patch(fb, 0, fb[16 * m.pitch..]);
            Shows(Patch(moved, |fb| - 16 * m.pitch, Zeros(16 * m.pitch)), font, m, cells[1..] + [BlankRow(m.Cols())])
  {
    var p, n := m.pitch, |fb|;
    assert (m.height - 16) * p == n - 16 * p;
    LinesFit(m);
    var moved := Patch(fb, 0, fb[16 * p..]);
    var done := Patch(moved, n - 16 * p, Zeros(16 * p));
    var next := cells[1..] + [BlankRow(m.Cols())];
    forall y | 0 <= y < m.height ensures LineOf(done, m, y) == ScreenLine(font, m, next, y) {
      LineBounds(m, y);
      if y < m.height - 16 {
        KeptLine(fb, m, y);
        if (y + 16) / 16 < m.Rows() {
          assert y / 16 + 1 == (y + 16) / 16 && y % 16 == (y + 16) % 16;
          assert next[y / 16] == cells[(y + 16) / 16];
        } else {
          LowerLine(font, m, next, y);
        }
      } else {
        BlackLine(moved, m, y);
        LowerLine(font, m, next, y);
      }
    }
  }

  lemma LinesFit(m: Mode)
    requires m.Valid()
    ensures 16 * m.pitch <= m.height * m.pitch
  {
  }

  /** The last text row after a scroll, and everything below it, is black. */
  lemma LowerLine(font: Font, m: Mode, next: seq<seq<Byte>>, y: nat)
    requires m.Valid() && |next| == m.Rows() && (forall r :: 0 <= r < |next| ==> |next[r]| == m.Cols())
    requires next[m.Rows() - 1] == BlankRow(m.Cols()) && y / 16 + 1 >= m.Rows()
    ensures ScreenLine(font, m, next, y) == Zeros(m.pitch)
  {
    hide TextLine, GlyphRow;
    BlankText(font, m.Cols(), y % 16);
  }

  lemma KeptLine(fb: seq<Byte>, m: Mode, y: nat)
    requires m.Valid() && |fb| == m.height * m.pitch && y < m.height - 16
    ensures 16 * m.pitch <= |fb|
    ensures var moved := Patch(fb, 0, fb[16 * m.pitch..]);
            LineOf(Patch(moved, |fb| - 16 * m.pitch, Zeros(16 * m.pitch)), m, y) == LineOf(fb, m, y + 16)
  {
    LinesFit(m);
    LineBounds(m, y);
    LineBounds(m, y + 16);
    LinesApart(m, y, m.height - 16);
    assert (y + 16) * m.pitch == y * m.pitch + 16 * m.pitch;
    Minus16(m, y);
    ShiftedSlice(fb, 16 * m.pitch, y * m.pitch, m.pitch);
  }

  lemma ShiftedSlice(fb: seq<Byte>, k: nat, a: nat, n: nat)
    requires k <= |fb| && a + n <= |fb| - k
    ensures Patch(Patch(fb, 0, fb[k..]), |fb| - k, Zeros(k))[a..a + n] == fb[a + k..a + k + n]
  {
    var moved := Patch(fb, 0, fb[k..]);
    PatchOutside(moved, |fb| - k, Zeros(k), a, a + n);
    var got, want := moved[a..a + n], fb[a + k..a + k + n];
    forall i | 0 <= i < n ensures got[i] == want[i] {
      assert moved[a + i] == fb[k..][a + i];
    }
  }

  lemma BlackLine(moved: seq<Byte>, m: Mode, y: nat)
    requires m.Valid() && |moved| == m.height * m.pitch && m.height - 16 <= y < m.height
    ensures 16 * m.pitch <= |moved|
    ensures LineOf(Patch(moved, |moved| - 16 * m.pitch, Zeros(16 * m.pitch)), m, y) == Zeros(m.pitch)
  {
    LinesFit(m);
    LineBounds(m, y);
    Minus16(m, y);
    BlackSlice(moved, 16 * m.pitch, y * m.pitch, m.pitch);
  }

  lemma Minus16(m: Mode, y: nat)
    requires m.height >= 16
    ensures (m.height - 16) * m.pitch == m.height * m.pitch - 16 * m.pitch
    ensures m.height - 16 <= y ==> (m.height - 16) * m.pitch <= y * m.pitch
  {
    MulSub(m.height, 16, m.pitch);
    if m.height - 16 <= y { MulMono(m.height - 16, y, m.pitch); }
  }

  lemma BlackSlice(fb: seq<Byte>, k: nat, a: nat, n: nat)
    requires k <= |fb| && |fb| - k <= a && a + n <= |fb|
    ensures Patch(fb, |fb| - k, Zeros(k))[a..a + n] == Zeros(n)
  {
  }

  // ---------------------------------------------------------------------
  // The console itself.
  // ---------------------------------------------------------------------

  /** What uefi_puts stores for the firmware console: a CR in front of every LF. */
  function Encode(s: seq<Byte>): (b: seq<Byte>) {
    if s == [] then []
    else Encode(s[..|s| - 1]) + (if s[|s| - 1] == LF then [CR] else []) + [s[|s| - 1]]
  }

  /** Character by character: LF becomes CR LF, everything else stays. */
  lemma {:induction false} EncodeInBytes(s: seq<Byte>, c: Byte)
    ensures Encode([]) == [] && Encode(s + [c]) == Encode(s) + if c == 10 then [13, 10] else [c]
  {
    assert (s + [c])[..|s|] == s;
  }

  /**
   * How much of the string the first loop of uefi_puts takes: it stops as soon
   * as 254 of the 256 places of the buffer are used.
   */
  function Taken(s: seq<Byte>, k: nat): (n: nat)
    requires k <= |s|
    ensures k <= n <= |s|
    ensures n < |s| ==> |Encode(s[..n])| >= 254
    ensures forall i :: k <= i < n ==> |Encode(s[..i])| < 254
    decreases |s| - k
  {
    if k < |s| && |Encode(s[..k])| < 254 then Taken(s, k + 1) else k
  }

  class Terminal {
    const font: Font
    const mode: Mode
    const present: bool         // g_fb_base is set
    const fb: array<Byte>       // the framebuffer, mode.height * mode.pitch bytes
    const hasConOut: bool
    var cursorX: nat            // g_cursor_x
    var cursorY: nat            // g_cursor_y
    var conOut: seq<seq<Byte>>  // the strings handed to OutputString
    ghost var cells: seq<seq<Byte>>

    ghost function Grid(): (g: Grid)
      reads this
    {
      TextGrid.Grid(cells, cursorX, cursorY)
    }

    /** The screen shows the grid, byte for byte. */
    ghost predicate Valid()
      reads this, fb
    {
      && mode.Valid()
      && OnScreen(Grid(), mode.Rows(), mode.Cols())
      && (present ==> Shows(fb[..], font, mode, cells))
    }

    /** init_gop: the mode is set and gop_clear_screen blackens whatever was there. */
    constructor (f: Font, m: Mode, buffer: array<Byte>, conOutPresent: bool)
      requires m.Valid() && buffer.Length == m.height * m.pitch
      modifies buffer
      ensures Valid() && present && fb == buffer && font == f && mode == m && hasConOut == conOutPresent
      ensures Grid() == Cleared(m.Rows(), m.Cols()) && conOut == []
    {
      font, mode, present, fb, hasConOut := f, m, true, buffer, conOutPresent;
      cursorX, cursorY, conOut := 0, 0, [];
      cells := BlankRows(m.Rows(), m.Cols());
      new;
      MemSet(fb, 0, 0, m.height * m.pitch);
      assert fb[..] == Zeros(m.height * m.pitch);
      BlackScreen(f, m);
    }

    /** A machine without a framebuffer: the cursor moves nowhere and nothing is drawn. */
    constructor Headless(f: Font, m: Mode, buffer: array<Byte>, conOutPresent: bool)
      requires m.Valid()
      ensures Valid() && !present && fb == buffer && hasConOut == conOutPresent
      ensures Grid() == Cleared(m.Rows(), m.Cols()) && conOut == []
    {
      font, mode, present, fb, hasConOut := f, m, false, buffer, conOutPresent;
      cursorX, cursorY, conOut := 0, 0, [];
      cells := BlankRows(m.Rows(), m.Cols());
    }

    method ClearScreen()
      requires Valid()
      modifies this`cursorX, this`cursorY, this`cells, fb
      ensures Valid()
      ensures Grid() == if present then Cleared(mode.Rows(), mode.Cols()) else old(Grid())
    {
      if !present {
        return;
      }
      MemSet(fb, 0, 0, mode.height * mode.pitch);
      assert fb[..] == Zeros(mode.height * mode.pitch);
      BlackScreen(font, mode);
      cursorX, cursorY := 0, 0;
      cells := BlankRows(mode.Rows(), mode.Cols());
    }

    method Scroll()
      requires present && Shows(fb[..], font, mode, cells)
      modifies this`cells, fb
      ensures Shows(fb[..], font, mode, cells) && cells == old(cells)[1..] + [BlankRow(mode.Cols())]
    {
      hide Shows;
      ShowsLength(fb[..], font, mode, cells);
      ScrollLines(fb[..], font, mode, cells);
      var lineBytes := FONT_HEIGHT * mode.pitch;
      var copyBytes := (mode.height - FONT_HEIGHT) * mode.pitch;
      ghost var was := fb[..];
      MemMove(fb, 0, lineBytes, copyBytes);
      assert was[lineBytes..lineBytes + copyBytes] == was[16 * mode.pitch..];
      MemSet(fb, copyBytes, 0, lineBytes);
      assert seq(lineBytes, _ => 0) == Zeros(16 * mode.pitch);
      cells := cells[1..] + [BlankRow(mode.Cols())];
    }

    /** What both LF and a pending wrap do. */
    method AdvanceLine()
      requires Valid() && present
      modifies this`cursorX, this`cursorY, this`cells, fb
      ensures Valid() && Grid() == NewLine(old(Grid()), mode.Rows(), mode.Cols())
    {
      hide Shows;
      cursorX := 0;
      cursorY := cursorY + 1;
      if (cursorY + 1) * FONT_HEIGHT > mode.height {
        Scroll();
        cursorY := mode.height / FONT_HEIGHT - 1;
      }
    }

    method DrawChar(c: Byte)
      requires Valid()
      modifies this`cursorX, this`cursorY, this`cells, fb
      ensures Valid()
      ensures Grid() == if present then Feed(old(Grid()), mode.Rows(), mode.Cols(), c) else old(Grid())
    {
      hide Shows;
      if !present {
        return;
      }
      if c == CR {
        cursorX := 0;
        return;
      }
      if c == LF {
        AdvanceLine();
        return;
      }
      if (cursorX + 1) * FONT_WIDTH > mode.width {
        AdvanceLine();
      }
      DrawGlyph(c);
      cells := SetCell(cells, cursorY, cursorX, c);
      cursorX := cursorX + 1;
    }

    /** uefi_puts: the whole string goes to the framebuffer, once and in order; the firmware console may get less. */
    method Puts(str: CString)
      requires Valid()
      modifies this, fb
      ensures Valid()
      ensures Grid() == if present then FeedAll(old(Grid()), mode.Rows(), mode.Cols(), str) else old(Grid())
      ensures conOut == old(conOut) + if hasConOut then [Encode(str[..Taken(str, 0)])] else []
    {
      hide Shows, Feed, Taken, Encode, NewLine;
      var i := 0;
      ghost var g := Grid();
      assert str[..0] == [];
      if hasConOut {
        i := PutsToFirmware(str);
      }
      ghost var out := conOut;
      while i < |str|
        invariant Valid() && conOut == out && 0 <= i <= |str|
        invariant Grid() == if present then FeedAll(g, mode.Rows(), mode.Cols(), str[..i]) else g
      {
        assert str[..i + 1][..i] == str[..i];
        DrawChar(str[i]);
        i := i + 1;
      }
      assert str[..|str|] == str;
    }

    /** The first loop: characters go into the 256-slot buffer of OutputString and to the framebuffer. */
    method PutsToFirmware(str: CString) returns (i: nat)
      requires Valid() && hasConOut
      modifies this, fb
      ensures Valid() && i == Taken(str, 0) && i <= |str|
      ensures Grid() == if present then FeedAll(old(Grid()), mode.Rows(), mode.Cols(), str[..i]) else old(Grid())
      ensures conOut == old(conOut) + [Encode(str[..i])]
    {
      hide Shows, Feed, Taken, NewLine;
      var buf := new Byte[256]; // utf16 units, zero-extended bytes
      var j: nat := 0;
      i := 0;
      ghost var g := Grid();
      assert str[..0] == [];
      while i < |str| && j < 254
        invariant Valid() && conOut == old(conOut)
        invariant 0 <= i <= |str| && j <= 255 && buf[..j] == Encode(str[..i])
        invariant forall k :: 0 <= k < i ==> |Encode(str[..k])| < 254
        invariant Grid() == if present then FeedAll(g, mode.Rows(), mode.Cols(), str[..i]) else g
      {
        assert str[..i + 1][..i] == str[..i];
        j := EncodeChar(buf, j, str[i]);
        DrawChar(str[i]);
        i := i + 1;
      }
      TakenIs(str, i);
      buf[j] := 0;
      conOut := conOut + [buf[..j]];
    }

    /** One character in the buffer, a LF with a CR in front. */
    method EncodeChar(buf: array<Byte>, j: nat, c: Byte) returns (j': nat)
      requires buf.Length == 256 && j < 254
      modifies buf
      ensures j' <= 255 && buf[..j'] == old(buf[..j]) + (if c == LF then [CR] else []) + [c]
    {
      j' := j;
      if c == LF {
        buf[j'] := CR;
        j' := j' + 1;
      }
      buf[j'] := c;
      j' := j' + 1;
    }

    /** uefi_put_dec. */
    method PutDec(val: nat)
      requires Valid() && val < TWO32
      modifies this, fb
      ensures Valid()
      ensures Grid() == if present then FeedAll(old(Grid()), mode.Rows(), mode.Cols(), Decimal(val)) else old(Grid())
      ensures conOut == old(conOut) + if hasConOut then [Decimal(val)] else []
    {
      hide Shows, FeedAll, Taken, Encode;
      DecimalDenotes(val);
      TenDigits(val);
      ShortIsTakenWhole(Decimal(val));
      if val == 0 {
        Puts([ZERO_CHAR]);
        return;
      }
      var buf := new Byte[16];
      var i := StoreDigits(val, buf);
      buf[i] := 0;
      ReverseInPlace(buf, i);
      Puts(buf[..i]);
    }

    /** The two pixel loops. */
    method DrawGlyph(c: Byte)
      requires Valid() && present && cursorX < mode.Cols()
      modifies fb
      ensures Shows(fb[..], font, mode, SetCell(cells, cursorY, cursorX, c))
      ensures 16 * cursorY + 16 <= mode.height && 8 * cursorX + 8 <= mode.width
      ensures forall x, y :: 8 * cursorX <= x < 8 * cursorX + 8 && 16 * cursorY <= y < 16 * cursorY + 16 ==>
                PixelAt(fb[..], mode, x, y) ==
                if 32 <= c <= 126 && font[16 * (c as int - 32) + y % 16] / [128, 64, 32, 16, 8, 4, 2, 1][x % 8] % 2 == 1
                then 0x00FF_FFFF else 0
    {
      var pxStart, pyStart := cursorX * FONT_WIDTH, cursorY * FONT_HEIGHT;
      hide Shows, PixelBytes, GlyphRow, ScreenLine;
      StartDrawing(fb[..], font, mode, cells, cursorY, cursorX, c);
      for y := 0 to FONT_HEIGHT
        invariant DrawnTo(fb[..], font, mode, cells, cursorY, cursorX, c, y)
      {
        DrawLine(fb[..], font, mode, cells, cursorY, cursorX, c, y, 16 * cursorY + y);
        DrawGlyphRow(GlyphRow(font, c, y), (pyStart + y) * mode.pitch + pxStart * 4);
      }
      DrawnWhole(fb[..], font, mode, cells, cursorY, cursorX, c);
      GlyphOnScreen(fb[..], font, mode, cells, cursorY, cursorX, c);
    }

    method DrawGlyphRow(row: Byte, o: nat)
      requires o + 32 <= fb.Length
      modifies fb
      ensures fb[..] == Patch(old(fb[..]), o, PixelBytes(row, 8))
    {
      ghost var was := fb[..];
      for x := 0 to FONT_WIDTH
        invariant fb[..] == Patch(was, o, PixelBytes(row, x))
      {
        PatchAppend(was, o, PixelBytes(row, x), LE32(Pixel(row, x)));
        MemCpy(fb, o + 4 * x, LE32(if Bit(row, x) then FG else BG));
      }
    }
  }

  /**
   * A string printed on a cleared screen: every byte of the framebuffer is
   * the rendering of the last lines of the paper that the string fills.
   */
  method PrintOnFreshScreen(f: Font, m: Mode, buffer: array<Byte>, conOutPresent: bool, str: CString) returns (t: Terminal)
    requires m.Valid() && buffer.Length == m.height * m.pitch
    modifies buffer
    ensures t.Valid() && Shows(buffer[..], f, m, Window(WriteAll(m.Cols(), str), m.Rows(), m.Cols()).cells)
    ensures var cells := Window(WriteAll(m.width / 8, str), m.height / 16, m.width / 8).cells;
            forall x, y :: 0 <= x < m.width && 0 <= y < m.height ==>
              PixelAt(buffer[..], m, x, y) ==
              if y / 16 < m.height / 16 && x / 8 < m.width / 8 && 32 <= cells[y / 16][x / 8] <= 126
                 && f[16 * (cells[y / 16][x / 8] as int - 32) + y % 16] / [128, 64, 32, 16, 8, 4, 2, 1][x % 8] % 2 == 1
              then 0x00FF_FFFF else 0
    ensures t.conOut == if conOutPresent then [Encode(str[..Taken(str, 0)])] else []
  {
    hide Shows, FeedAll, Window, WriteAll, Cleared, Encode, Taken;
    t := new Terminal(f, m, buffer, conOutPresent);
    t.Puts(str);
    ScreenIsWindow(m.Rows(), m.Cols(), str);
    WholeScreen(buffer[..], f, m, Window(WriteAll(m.Cols(), str), m.Rows(), m.Cols()).cells);
  }

  lemma GlyphOnScreen(fb: seq<Byte>, font: Font, m: Mode, cells: seq<seq<Byte>>, cy: nat, cx: nat, c: Byte)
    requires m.Valid() && |cells| == m.Rows() && (forall r :: 0 <= r < |cells| ==> |cells[r]| == m.Cols())
    requires cy < m.Rows() && cx < m.Cols() && Shows(fb, font, m, SetCell(cells, cy, cx, c))
    ensures 16 * cy + 16 <= m.height && 8 * cx + 8 <= m.width && |fb| == m.height * m.pitch
    ensures forall x, y :: 8 * cx <= x < 8 * cx + 8 && 16 * cy <= y < 16 * cy + 16 ==>
              PixelAt(fb, m, x, y) ==
              if 32 <= c <= 126 && font[16 * (c as int - 32) + y % 16] / [128, 64, 32, 16, 8, 4, 2, 1][x % 8] % 2 == 1
              then 0x00FF_FFFF else 0
  {
    ShowsLength(fb, font, m, SetCell(cells, cy, cx, c));
    hide Shows, PixelAt, SetCell;
    forall x, y | 8 * cx <= x < 8 * cx + 8 && 16 * cy <= y < 16 * cy + 16
      ensures PixelAt(fb, m, x, y) ==
              if 32 <= c <= 126 && font[16 * (c as int - 32) + y % 16] / [128, 64, 32, 16, 8, 4, 2, 1][x % 8] % 2 == 1
              then 0x00FF_FFFF else 0
    {
      assert x / 8 == cx && y / 16 == cy;
      ShownPixel(fb, font, m, SetCell(cells, cy, cx, c), x, y);
    }
  }

  /** ShownPixel for the whole screen. */
  lemma WholeScreen(fb: seq<Byte>, font: Font, m: Mode, cells: seq<seq<Byte>>)
    requires Shows(fb, font, m, cells)
    ensures forall x, y :: 0 <= x < m.width && 0 <= y < m.height ==>
              PixelAt(fb, m, x, y) ==
              if y / 16 < m.height / 16 && x / 8 < m.width / 8 && 32 <= cells[y / 16][x / 8] <= 126
                 && font[16 * (cells[y / 16][x / 8] as int - 32) + y % 16] / [128, 64, 32, 16, 8, 4, 2, 1][x % 8] % 2 == 1
              then 0x00FF_FFFF else 0
  {
    ShowsLength(fb, font, m, cells);
    hide Shows, PixelAt;
    forall x, y | 0 <= x < m.width && 0 <= y < m.height
      ensures PixelAt(fb, m, x, y) ==
              if y / 16 < m.height / 16 && x / 8 < m.width / 8 && 32 <= cells[y / 16][x / 8] <= 126
                 && font[16 * (cells[y / 16][x / 8] as int - 32) + y % 16] / [128, 64, 32, 16, 8, 4, 2, 1][x % 8] % 2 == 1
              then 0x00FF_FFFF else 0
    {
      ShownPixel(fb, font, m, cells, x, y);
    }
  }

  lemma {:induction false} TakenIs(s: seq<Byte>, n: nat)
    requires n <= |s| && (n < |s| ==> |Encode(s[..n])| >= 254)
    requires forall k :: 0 <= k < n ==> |Encode(s[..k])| < 254
    ensures Taken(s, 0) == n
  {
  }

  /** The firmware console gets the whole string exactly when all but its last character encode to fewer than 254 units. */
  lemma TakenWholeIff(s: seq<Byte>)
    ensures Taken(s, 0) == |s| <==> s == [] || |Encode(s[..|s| - 1])| < 254
  {
    if s != [] && Taken(s, 0) < |s| {
      EncodeGrows(s, Taken(s, 0), |s| - 1);
    }
  }

  lemma {:induction false} EncodeGrows(s: seq<Byte>, i: nat, j: nat)
    requires i <= j <= |s|
    ensures |Encode(s[..i])| + (j - i) <= |Encode(s[..j])| <= |Encode(s[..i])| + 2 * (j - i)
  {
    if i < j {
      EncodeGrows(s, i, j - 1);
      assert s[..j][..j - 1] == s[..j - 1];
    }
  }

  lemma {:induction false} ShortIsTakenWhole(s: seq<Byte>)
    requires 0 < |s| <= 10 && LF !in s
    ensures Taken(s, 0) == |s| && Encode(s[..|s|]) == s
  {
    TakenWholeIff(s);
    assert s[..0] == [] && s[..|s|] == s;
    EncodeGrows(s, 0, |s| - 1);
    EncodePlain(s);
  }

  lemma {:induction false} EncodePlain(s: seq<Byte>)
    requires LF !in s
    ensures Encode(s) == s
  {
    if s != [] {
      EncodePlain(s[..|s| - 1]);
      assert s == s[..|s| - 1] + [s[|s| - 1]];
    }
  }

  lemma ShowsLength(fb: seq<Byte>, font: Font, m: Mode, cells: seq<seq<Byte>>)
    requires Shows(fb, font, m, cells)
    ensures m.Valid() && |fb| == m.height * m.pitch && |cells| == m.Rows()
  {
  }

  lemma StartDrawing(fb: seq<Byte>, font: Font, m: Mode, cells: seq<seq<Byte>>, cy: nat, cx: nat, c: Byte)
    requires Shows(fb, font, m, cells) && cy < m.Rows() && cx < m.Cols()
    ensures DrawnTo(fb, font, m, cells, cy, cx, c, 0)
  {
  }

  lemma BlackScreen(font: Font, m: Mode)
    requires m.Valid()
    ensures Shows(Zeros(m.height * m.pitch), font, m, BlankRows(m.Rows(), m.Cols()))
  {
    hide LineOf, ScreenLine, BlankRows;
    forall y | 0 <= y < m.height
      ensures LineOf(Zeros(m.height * m.pitch), m, y) == ScreenLine(font, m, BlankRows(m.Rows(), m.Cols()), y)
    {
      ZeroLine(m, y);
      BlankLine(font, m, y);
    }
  }

  lemma ZeroLine(m: Mode, y: nat)
    requires y < m.height
    ensures LineOf(Zeros(m.height * m.pitch), m, y) == Zeros(m.pitch)
  {
    LineBounds(m, y);
  }

  lemma BlankLine(font: Font, m: Mode, y: nat)
    requires m.Valid()
    ensures ScreenLine(font, m, BlankRows(m.Rows(), m.Cols()), y) == Zeros(m.pitch)
  {
    hide BlankRows;
    BlankText(font, m.Cols(), y % 16);
    assert y / 16 < m.Rows() ==> BlankRows(m.Rows(), m.Cols())[y / 16] == BlankRow(m.Cols());
  }
}
