/** The terminal: a window of `height` rows on the endless output, and its incremental drawing. */
module TerminalWindow {
  import opened TerminalFont
  import opened TerminalText

  function BlankRows(n: nat, width: nat): (r: seq<Row>)
    ensures |r| == n && forall i | 0 <= i < n :: r[i] == BlankRow(width)
  {
    if n == 0 then [] else [BlankRow(width)] + BlankRows(n - 1, width)
  }

  /** The last `height` rows of the output; rows not yet begun are blank. */
  ghost function Window(rows: seq<Row>, width: nat, height: nat): (w: seq<Row>)
    ensures |w| == height
  {
    if |rows| >= height then rows[|rows| - height..] else rows + BlankRows(height - |rows|, width)
  }

  /** The row of the window that holds the cursor. */
  ghost function WindowRow(o: Output, height: nat): (y: nat)
    requires o.rows != [] && height > 0
    ensures y < height
  {
    if |o.rows| <= height then |o.rows| - 1 else height - 1
  }

  /** Rows one behind the other, as the screen buffers hold them. */
  ghost function Flat(rows: seq<Row>): seq<ScreenChar> {
    if rows == [] then [] else rows[0] + Flat(rows[1..])
  }

  lemma {:induction false} FlatJoin(a: seq<Row>, b: seq<Row>)
    ensures Flat(a + b) == Flat(a) + Flat(b)
  {
    if a == [] {
      assert a + b == b;
    } else {
      FlatJoin(a[1..], b);
      assert (a + b)[1..] == a[1..] + b;
      Regrouped(a[0], Flat(a[1..]), Flat(b));
    }
  }

  lemma Regrouped(a: Row, b: Row, c: Row)
    ensures a + (b + c) == a + b + c
  {
  }

  /** The number of cells of `height` rows, counted row by row. */
  function Cells(width: nat, height: nat): nat {
    if height == 0 then 0 else Cells(width, height - 1) + width
  }

  lemma {:induction false} CellsProduct(width: nat, height: nat)
    ensures Cells(width, height) == width * height
  {
    if height > 0 {
      CellsProduct(width, height - 1);
    }
  }

  lemma {:induction false} FlatSize(rows: seq<Row>, width: nat)
    requires Wide(rows, width)
    ensures |Flat(rows)| == Cells(width, |rows|)
  {
    if rows != [] {
      FlatSize(rows[1..], width);
    }
  }

  lemma {:induction false} FlatAt(rows: seq<Row>, y: nat, x: nat, width: nat)
    requires Wide(rows, width) && y < |rows| && x < width
    ensures |rows[y]| == width && Cells(width, y) + x < |Flat(rows)| && Flat(rows)[Cells(width, y) + x] == rows[y][x]
  {
    FlatSize(rows[..y], width);
    Around(rows, y, rows[y]);
    FlatAround(rows[..y], rows[y], rows[y + 1..]);
    Inside(Flat(rows[..y]), rows[y], Flat(rows[y + 1..]), x);
  }

  lemma Inside(a: Row, row: Row, b: Row, x: nat)
    requires x < |row|
    ensures (a + row + b)[|a| + x] == row[x]
  {
  }

  /** The first row of the output that is in the window. */
  ghost function FirstRow(rows: seq<Row>, height: nat): nat {
    if |rows| > height then |rows| - height else 0
  }

  /** What stands at a place of the window. */
  lemma WindowAt(rows: seq<Row>, width: nat, height: nat, y: nat, x: nat)
    requires Wide(rows, width) && y < height && x < width
    ensures Wide(Window(rows, width, height), width)
    ensures var k := FirstRow(rows, height) + y;
      Window(rows, width, height)[y][x] == if k < |rows| then rows[k][x] else ScreenChar(' ', 0xFFFFFF, 0x000000)
  {
    WindowWide(rows, width, height);
    BlankAt(width, x);
  }

  /** Changing one place of one row changes one place of the buffer. */
  lemma FlatUpdate(rows: seq<Row>, y: nat, x: nat, width: nat, sc: ScreenChar)
    requires Wide(rows, width) && y < |rows| && x < width
    ensures |rows[y]| == width && Cells(width, y) + x < |Flat(rows)|
    ensures Flat(rows[y := rows[y][x := sc]]) == Flat(rows)[Cells(width, y) + x := sc]
  {
    var above, row, below := rows[..y], rows[y], rows[y + 1..];
    Around(rows, y, row[x := sc]);
    FlatSize(above, width);
    UpdateParts(above, row, below, x, sc);
  }

  lemma Around(rows: seq<Row>, y: nat, r: Row)
    requires y < |rows|
    ensures rows == rows[..y] + [rows[y]] + rows[y + 1..] && rows[y := r] == rows[..y] + [r] + rows[y + 1..]
  {
  }

  lemma UpdateParts(above: seq<Row>, row: Row, below: seq<Row>, x: nat, sc: ScreenChar)
    requires x < |row|
    ensures |Flat(above)| + x < |Flat(above + [row] + below)|
    ensures Flat(above + [row[x := sc]] + below) == Flat(above + [row] + below)[|Flat(above)| + x := sc]
  {
    FlatAround(above, row, below);
    FlatAround(above, row[x := sc], below);
    UpdateInside(Flat(above), row, Flat(below), x, sc);
  }

  lemma FlatAround(above: seq<Row>, row: Row, below: seq<Row>)
    ensures Flat(above + [row] + below) == Flat(above) + row + Flat(below)
  {
    FlatJoin(above + [row], below);
    FlatJoin(above, [row]);
    assert [row][1..] == [] && Flat([row]) == row;
  }

  lemma UpdateInside(a: Row, row: Row, b: Row, x: nat, sc: ScreenChar)
    requires x < |row|
    ensures a + row[x := sc] + b == (a + row + b)[|a| + x := sc]
  {
  }

  lemma WindowWide(rows: seq<Row>, width: nat, height: nat)
    requires Wide(rows, width)
    ensures Wide(Window(rows, width, height), width)
  {
  }

  lemma PutWindow(o: Output, c: char, width: nat, height: nat)
    requires Formed(o, width) && height > 0
    ensures Formed(PutOnly(o, c), width)
    ensures var w := Window(o.rows, width, height); var y := WindowRow(o, height);
      && |w[y]| == width
      && Window(PutOnly(o, c).rows, width, height)
         == w[y := w[y][o.x := ScreenChar(c, o.attr.foreground, o.attr.background)]]
  {
    WindowWide(o.rows, width, height);
    assert Window(o.rows, width, height)[WindowRow(o, height)] == o.rows[|o.rows| - 1];
  }

  lemma GrowWindow(o: Output, width: nat, height: nat)
    requires Formed(o, width) && |o.rows| < height
    ensures Window(NextRow(o, width).rows, width, height) == Window(o.rows, width, height)
  {
    var n := height - |o.rows|;
    assert BlankRows(n, width) == [BlankRow(width)] + BlankRows(n - 1, width);
    assert o.rows + BlankRows(n, width) == o.rows + [BlankRow(width)] + BlankRows(n - 1, width);
    if n == 1 {
      assert BlankRows(0, width) == [];
    }
  }

  lemma ScrollWindow(o: Output, width: nat, height: nat)
    requires Formed(o, width) && 0 < height <= |o.rows|
    ensures Window(NextRow(o, width).rows, width, height) == Window(o.rows, width, height)[1..] + [BlankRow(width)]
  {
  }

  /** Dropping the first row of the buffer and blanking the last is scrolling by one row. */
  lemma FlatScroll(w: seq<Row>, width: nat)
    requires w != [] && Wide(w, width)
    ensures width <= |Flat(w)| && Flat(w[1..] + [BlankRow(width)]) == Flat(w)[width..] + BlankRow(width)
  {
    FlatAround(w[1..], BlankRow(width), []);
    assert w[1..] + [BlankRow(width)] + [] == w[1..] + [BlankRow(width)];
    assert Flat(w) == w[0] + Flat(w[1..]) && Flat(w)[width..] == Flat(w[1..]);
  }

  lemma {:induction false} BlanksJoin(a: nat, b: nat)
    ensures Blanks(a) + Blanks(b) == Blanks(a + b)
  {
    if b > 0 {
      BlanksJoin(a, b - 1);
      Regrouped(Blanks(a), Blanks(b - 1), [BLANK]);
    }
  }

  lemma {:induction false} FlatBlank(n: nat, width: nat)
    ensures Flat(BlankRows(n, width)) == Blanks(Cells(width, n))
  {
    if n > 0 {
      FlatBlank(n - 1, width);
      assert BlankRows(n, width)[1..] == BlankRows(n - 1, width);
      BlanksJoin(width, Cells(width, n - 1));
    }
  }

  lemma StartWindow(width: nat, height: nat)
    requires width > 0 && height > 0
    ensures Formed(Start(width), width) && Window(Start(width).rows, width, height) == BlankRows(height, width)
  {
  }
}

module TerminalScreen {
  import opened Arithmetic
  import opened CoreGraphics
  import opened TerminalColors
  import opened TerminalFont
  import opened TerminalText
  import opened TerminalWindow

  /** The places that a 16-bit index tells apart. */
  const SCREEN_PLACES: nat := 0x1_0000

  class Terminal {
    const fb: Framebuffer
    const font: Font
    const width: nat
    const height: nat
    var frontBuffer: seq<ScreenChar>
    var backBuffer: seq<ScreenChar>
    var mode: Mode
    var cursorX: nat
    var cursorY: nat
    var attr: Attributes
    ghost var output: Output

    /** The cells lie inside the framebuffer, and 16 bits hold the place of each. */
    ghost predicate Fitting() {
      && fb.Valid() && font.Complete() && width > 0 && height > 0
      && width * GLYPH_WIDTH <= fb.width && height * font.height <= fb.height
      && Cells(width, height) <= SCREEN_PLACES
    }

    /** Every cell on the framebuffer is the drawing of its character in `chars`. */
    ghost predicate Drawn(chars: seq<ScreenChar>)
      requires Fitting() && |chars| == Cells(width, height)
      reads fb.buffer
    {
      forall i, dx: nat, dy: nat | 0 <= i < |chars| && dx < GLYPH_WIDTH && dy < font.height :: CellDrawn(chars, i, dx, dy)
    }

    ghost predicate CellDrawn(chars: seq<ScreenChar>, i: nat, dx: nat, dy: nat)
      requires Fitting() && |chars| == Cells(width, height) && i < |chars| && dx < GLYPH_WIDTH && dy < font.height
      reads fb.buffer
    {
      CellsProduct(width, height);
      CellInside(i, width, height, font.height);
      fb.Get(CellX(i, width) + dx, CellY(i, width, font.height) + dy) == Raster(font, chars[i], dx, dy)
    }

    ghost predicate Drawable()
      reads this, fb.buffer
    {
      && Fitting() && |frontBuffer| == |backBuffer| == Cells(width, height) && Drawn(backBuffer)
    }

    /** The buffers hold the end of the output, now and as of the last rendering; the framebuffer shows the latter. */
    ghost predicate Valid()
      reads this, fb.buffer
    {
      && Drawable() && Formed(output, width)
      && frontBuffer == Flat(Window(output.rows, width, height)) && backBuffer == Flat(Window(output.shown, width, height))
      && cursorX == output.x && cursorY == WindowRow(output, height) && attr == output.attr && mode == output.mode
    }

    /** No pixel outside the cells has changed. */
    twostate predicate MarginKept()
      requires fb.Valid()
      reads fb.buffer
    {
      forall u: nat, v: nat | fb.Within(u, v) && (u >= width * GLYPH_WIDTH || v >= height * font.height) ::
        fb.Get(u, v) == old(fb.Get(u, v))
    }

    /** Draws the cells that changed; afterwards the framebuffer is a full drawing of the front buffer. */
    method Render()
      requires Drawable()
      modifies this`backBuffer, fb.buffer
      ensures Drawable() && backBuffer == frontBuffer && Drawn(frontBuffer) && MarginKept()
    {
      for i := 0 to |frontBuffer|
        invariant Drawable() && backBuffer[..i] == frontBuffer[..i] && MarginKept()
      {
        var screenChar := frontBuffer[i];
        if screenChar != backBuffer[i] {
          DrawCell(i, screenChar);
          backBuffer := backBuffer[i := screenChar];
        }
        assert backBuffer[..i + 1] == backBuffer[..i] + [screenChar] && frontBuffer[..i + 1] == frontBuffer[..i] + [screenChar];
      }
    }

    method DrawCell(i: nat, screenChar: ScreenChar)
      requires Drawable() && i < |backBuffer|
      modifies fb.buffer
      ensures Drawn(backBuffer[i := screenChar]) && MarginKept()
    {
      var h := font.height;
      var x0, y0 := i % width * font.width, i / width * h;
      CellsProduct(width, height);
      CellInside(i, width, height, h);
      GlyphPresent(font, screenChar.character);
      if screenChar.character == ' ' {
        fb.FillBox(x0, y0, font.width, h, screenChar.background);
      } else {
        DrawGlyph(fb, x0, y0, h, font.GetCharacter(screenChar.character), screenChar.foreground, screenChar.background);
      }
      ghost var chars := backBuffer[i := screenChar];
      forall k, dx: nat, dy: nat | 0 <= k < |chars| && dx < GLYPH_WIDTH && dy < h
        ensures CellDrawn(chars, k, dx, dy)
      {
        CellInside(k, width, height, h);
        assert old(CellDrawn(backBuffer, k, dx, dy));
        if k != i {
          CellsApart(k, i, width, h, dx, dy);
        }
      }
    }

    /**
     * A new terminal believes the framebuffer to show blanks. With a complete font it is right exactly if
     * the screen has between one and 65536 places and the framebuffer does show blanks, as a black one does.
     */
    constructor (fb: Framebuffer, font: Font)
      requires fb.Valid() && font.width > 0 && font.height > 0
      ensures this.fb == fb && this.font == font && output == Start(width)
      ensures width == fb.width / font.width % 0x1_0000 && height == fb.height / font.height % 0x1_0000
      ensures Fitting() <==> font.Complete() && 0 < Cells(width, height) <= SCREEN_PLACES
      ensures Fitting() ==> |backBuffer| == Cells(width, height) && (Valid() <==> Drawn(backBuffer))
      ensures Fitting() && (forall u: nat, v: nat | fb.Within(u, v) :: fb.Get(u, v) == 0) ==> Valid()
    {
      this.fb, this.font := fb, font;
      width, height := fb.width / font.width % 0x1_0000, fb.height / font.height % 0x1_0000;
      var blank := Blanks(Cells(fb.width / font.width % 0x1_0000, fb.height / font.height % 0x1_0000));
      frontBuffer, backBuffer := blank, blank;
      mode, cursorX, cursorY, attr := Text, 0, 0, DEFAULT;
      output := Start(fb.width / font.width % 0x1_0000);
      new;
      Quotients(fb.width, fb.height, font.height);
      SomeCells(width, height);
      if Fitting() {
        BlankShows(frontBuffer, output, width, height);
        if forall u: nat, v: nat | fb.Within(u, v) :: fb.Get(u, v) == 0 {
          BlankDrawn(backBuffer);
        }
      }
    }

    lemma BlankDrawn(blank: seq<ScreenChar>)
      requires Fitting() && blank == Blanks(Cells(width, height))
      requires forall u: nat, v: nat | fb.Within(u, v) :: fb.Get(u, v) == 0
      ensures Drawn(blank)
    {
      forall i, dx: nat, dy: nat | 0 <= i < |blank| && dx < GLYPH_WIDTH && dy < font.height
        ensures CellDrawn(blank, i, dx, dy)
      {
        CellsProduct(width, height);
        CellInside(i, width, height, font.height);
        BlankAt(Cells(width, height), i);
      }
    }

    /** Whatever was on the framebuffer, afterwards it shows an empty terminal. */
    method Reset()
      requires Fitting() && |frontBuffer| == |backBuffer| == Cells(width, height)
      modifies this, fb.buffer
      ensures Valid() && output == Start(width)
    {
      fb.Clear();
      Restart();
      BlankDrawn(backBuffer);
    }

    method Restart()
      requires width > 0 && height > 0
      modifies this
      ensures Formed(output, width) && frontBuffer == Flat(Window(output.rows, width, height))
      ensures cursorX == output.x && cursorY == WindowRow(output, height) && attr == output.attr && mode == output.mode
      ensures frontBuffer == backBuffer == Blanks(Cells(width, height)) && output == Start(width)
    {
      mode, cursorX, cursorY, attr := Text, 0, 0, DEFAULT;
      frontBuffer := Blanks(Cells(width, height));
      backBuffer := frontBuffer;
      output := Start(width);
      BlankShows(frontBuffer, output, width, height);
    }

    /** Begins a row, scrolling if the window is full, and renders. */
    method NewLine()
      requires Valid()
      modifies this`frontBuffer, this`backBuffer, this`cursorY, fb.buffer
      ensures Drawable() && Drawn(frontBuffer) && Formed(NextRow(output, width), width) && MarginKept()
      ensures frontBuffer == backBuffer == Flat(Window(NextRow(output, width).rows, width, height))
      ensures cursorY == WindowRow(NextRow(output, width), height)
    {
      MoveDown();
      Render();
    }

    method MoveDown()
      requires Valid()
      modifies this`frontBuffer, this`cursorY
      ensures |frontBuffer| == |old(frontBuffer)| && Formed(NextRow(output, width), width)
      ensures frontBuffer == Flat(Window(NextRow(output, width).rows, width, height))
      ensures cursorY == WindowRow(NextRow(output, width), height)
    {
      DownShows(frontBuffer, output, width, height);
      cursorY := cursorY + 1;
      if cursorY >= height {
        var bufferSize := |frontBuffer|;
        cursorY := height - 1;
        frontBuffer := frontBuffer[width..bufferSize] + BlankRow(width);
      }
    }

    /** The output goes on in the first column of a new row. */
    method NewRow()
      requires Valid()
      modifies this, fb.buffer
      ensures Valid() && output == NextRow(old(output), width) && MarginKept()
    {
      ghost var o := NextRow(output, width);
      NewLine();
      assert backBuffer == Flat(Window(o.shown, width, height));
      cursorX, output := 0, o;
    }

    /** One character of text. */
    method WriteChar(c: char)
      requires Valid() && (c == '\t' ==> width > 64)
      modifies this, fb.buffer
      ensures Valid() && output == Feed(old(output), c, width) && MarginKept()
    {
      FeedFormed(output, c, width);
      ghost var o := output;
      if !mode.Text? {
        var next := InEscape(mode, attr, c);
        output := output.(mode := next.0, attr := next.1, overflow := output.overflow || Overflows(mode, c));
        mode, attr := next.0, next.1;
        SameWindow(o, output, width, height);
      } else if c == ESCAPE {
        mode := Escape1;
        output := output.(mode := mode);
        SameWindow(o, output, width, height);
      } else if c == '\n' {
        NewRow();
      } else if c == '\r' {
        cursorX := 0;
        output := output.(x := 0);
        SameWindow(o, output, width, height);
      } else if c == '\t' {
        cursorX := (cursorX % 8 + 1) * 8;
        output := output.(x := cursorX);
        SameWindow(o, output, width, height);
      } else {
        PutChar(c);
      }
    }

    /** A character goes to the cursor; a full row is followed by a new one. */
    method PutChar(c: char)
      requires Valid()
      modifies this, fb.buffer
      ensures Valid() && output == Put(old(output), c, width) && MarginKept()
    {
      PutAtCursor(c);
      Advance();
    }

    method Advance()
      requires Valid()
      modifies this, fb.buffer
      ensures Valid() && MarginKept()
      ensures output == if old(output).x + 1 >= width then NextRow(old(output), width) else old(output).(x := old(output).x + 1)
    {
      cursorX := cursorX + 1;
      if cursorX >= width {
        cursorX := cursorX - 1;
        NewRow();
      } else {
        SameWindow(output, output.(x := cursorX), width, height);
        output := output.(x := cursorX);
      }
    }

    method PutAtCursor(c: char)
      requires Valid()
      modifies this`frontBuffer, this`output
      ensures Valid() && output == PutOnly(old(output), c)
    {
      PutShows(frontBuffer, output, c, width, height);
      SameRow(output, PutOnly(output, c), height);
      var i := cursorY * width + cursorX;
      frontBuffer := frontBuffer[i := ScreenChar(c, attr.foreground, attr.background)];
      output := PutOnly(output, c);
    }

    /**
     * Every pixel of every cell, in the memory of the framebuffer: row `y` of the screen is row
     * `FirstRow + y` of the output as of the last rendering, or blank if that has no such row.
     */
    lemma Pixels(y: nat, x: nat, dx: nat, dy: nat, u: nat, v: nat)
      requires Valid() && y < height && x < width && dx < 8 && dy < font.height && u == 8 * x + dx && v == y * font.height + dy
      ensures fb.Within(u, v) && Wide(output.shown, width)
      ensures var k := FirstRow(output.shown, height) + y;
        var sc := if k < |output.shown| then output.shown[k][x] else ScreenChar(' ', 0xFFFFFF, 0x000000);
        0 <= v * fb.scanlineLength + u < fb.buffer.Length && PixelIs(font, sc, dx, dy, fb.buffer[v * fb.scanlineLength + u])
    {
      var w := Window(output.shown, width, height);
      WindowAt(output.shown, width, height, y, x);
      FlatAt(w, y, x, width);
      CellShown(y, x, dx, dy, u, v);
      RasterPixel(font, w[y][x], dx, dy);
      fb.GetIs(u, v);
    }

    lemma CellShown(y: nat, x: nat, dx: nat, dy: nat, u: nat, v: nat)
      requires Drawable() && y < height && x < width && dx < 8 && dy < font.height && Cells(width, y) + x < |backBuffer|
      requires u == 8 * x + dx && v == y * font.height + dy
      ensures fb.Within(u, v) && fb.Get(u, v) == Raster(font, backBuffer[Cells(width, y) + x], dx, dy)
    {
      CellPlace(y, x, width, font.height);
      CellsProduct(width, height);
      CellInside(Cells(width, y) + x, width, height, font.height);
      assert CellDrawn(backBuffer, Cells(width, y) + x, dx, dy);
    }

    /** The cursor is in the last row of the output, in its column. */
    lemma CursorPlace()
      requires Valid()
      ensures cursorX == output.x < width && cursorY < height && FirstRow(output.rows, height) + cursorY == |output.rows| - 1
    {
    }

    /** The screen is the end of the endless output, and the framebuffer keeps up with the back buffer. */
    method Write(text: string)
      requires Valid() && Printable(text, width)
      modifies this, fb.buffer
      ensures Valid() && output == FeedAll(old(output), text, width) && MarginKept()
    {
      for i := 0 to |text|
        invariant Printable(text[..i], width) && Valid() && output == FeedAll(old(output), text[..i], width) && MarginKept()
      {
        NextPrefix(old(output), text, i, width);
        WriteChar(text[i]);
      }
      assert text[..|text|] == text;
    }

    /** For a text of glyphs, line ends and colour sequences the output is what the items say. */
    method WriteItems(text: string, ghost items: seq<Item>)
      requires Valid() && mode.Text? && text == EncodeItems(items) && forall i | i in items :: WellFormed(i)
      modifies this, fb.buffer
      ensures Valid() && output == ApplyAll(old(output), items, width) && mode.Text? && MarginKept()
      ensures cursorX < width && cursorY < height
    {
      ItemsRead(output, items, width);
      Write(text);
    }
  }

  /** Whole cells, counted in 16 bits, lie inside. */
  lemma Quotients(w: nat, h: nat, fh: nat)
    requires fh > 0
    ensures w / GLYPH_WIDTH % 0x1_0000 * GLYPH_WIDTH <= w && h / fh % 0x1_0000 * fh <= h
  {
    assert h == h / fh * fh + h % fh;
    Grows(h / fh % 0x1_0000, h / fh, fh);
  }

  lemma SomeCells(width: nat, height: nat)
    ensures Cells(width, height) > 0 <==> width > 0 && height > 0
  {
    CellsProduct(width, height);
  }

  lemma SameRow(o: Output, o': Output, height: nat)
    requires |o.rows| == |o'.rows| > 0 && height > 0
    ensures WindowRow(o, height) == WindowRow(o', height)
  {
  }

  lemma RowStart(width: nat, y: nat)
    ensures Cells(width, y) == y * width
  {
    CellsProduct(width, y);
  }

  /** Writing at the cursor changes one place of the buffer. */
  lemma PutShows(front: seq<ScreenChar>, o: Output, c: char, width: nat, height: nat)
    requires Formed(o, width) && height > 0 && front == Flat(Window(o.rows, width, height))
    ensures Formed(PutOnly(o, c), width) && |PutOnly(o, c).rows| == |o.rows|
    ensures var i := WindowRow(o, height) * width + o.x;
      && 0 <= i < |front|
      && front[i := ScreenChar(c, o.attr.foreground, o.attr.background)] == Flat(Window(PutOnly(o, c).rows, width, height))
  {
    var y := WindowRow(o, height);
    PutWindow(o, c, width, height);
    WindowWide(o.rows, width, height);
    FlatUpdate(Window(o.rows, width, height), y, o.x, width, ScreenChar(c, o.attr.foreground, o.attr.background));
    RowStart(width, y);
  }

  /** The cell in row `y` and column `x`. */
  lemma CellPlace(y: nat, x: nat, width: nat, h: nat)
    requires x < width
    ensures var i := Cells(width, y) + x; CellX(i, width) == 8 * x && CellY(i, width, h) == y * h
  {
    CellsProduct(width, y);
    Quotient(Cells(width, y) + x, width, y);
  }

  /** One row more: the same buffer while there is room, the buffer scrolled by one row after that. */
  lemma DownShows(front: seq<ScreenChar>, o: Output, width: nat, height: nat)
    requires Formed(o, width) && height > 0 && front == Flat(Window(o.rows, width, height))
    ensures Formed(NextRow(o, width), width)
    ensures |o.rows| < height ==>
      front == Flat(Window(NextRow(o, width).rows, width, height)) && WindowRow(NextRow(o, width), height) == WindowRow(o, height) + 1
    ensures |o.rows| >= height ==>
      && width <= |front| && front[width..] + BlankRow(width) == Flat(Window(NextRow(o, width).rows, width, height))
      && WindowRow(NextRow(o, width), height) == height - 1 == WindowRow(o, height)
  {
    if |o.rows| < height {
      GrowWindow(o, width, height);
    } else {
      WindowWide(o.rows, width, height);
      FlatScroll(Window(o.rows, width, height), width);
      ScrollWindow(o, width, height);
    }
  }

  lemma BlankShows(front: seq<ScreenChar>, o: Output, width: nat, height: nat)
    requires width > 0 && height > 0 && front == Blanks(Cells(width, height)) && o == Start(width)
    ensures Formed(o, width) && front == Flat(Window(o.rows, width, height)) && WindowRow(o, height) == 0
  {
    StartWindow(width, height);
    FlatBlank(height, width);
  }

  /** The window depends on the rows alone. */
  lemma SameWindow(o: Output, o': Output, width: nat, height: nat)
    requires o.rows == o'.rows && o.rows != [] && height > 0
    ensures Window(o.rows, width, height) == Window(o'.rows, width, height) && WindowRow(o, height) == WindowRow(o', height)
  {
  }
}
