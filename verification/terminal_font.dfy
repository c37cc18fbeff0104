/** Glyphs of the console font and how one character cell is drawn. */
module TerminalFont {
  import opened CoreGraphics

  const BYTES_PER_GLYPH: nat := 16
  const GLYPH_WIDTH: nat := 8

  datatype ScreenChar = ScreenChar(character: char, foreground: Color, background: Color)

  datatype Font = Font(numGlyphs: nat, width: nat, height: nat, data: seq<bv8>) {
    /** Glyphs are as wide as they are drawn, and every character that can be drawn has its sixteen bytes. */
    ghost predicate Complete() {
      width == GLYPH_WIDTH && 0 < height <= BYTES_PER_GLYPH && numGlyphs > 63 && BYTES_PER_GLYPH * numGlyphs < |data|
    }

    /** The glyph of a character; '?' stands in for a character past the last glyph. */
    function GetCharacter(c: char): seq<bv8> {
      var index := if c as nat >= numGlyphs then 63 else c as nat;
      var start := BYTES_PER_GLYPH * index;
      var end := start + BYTES_PER_GLYPH;
      if end >= |data| then [] else data[start..end]
    }
  }

  /** A glyph is found exactly if it does not end where the data ends: the last one of an exact font is lost. */
  lemma GlyphFound(font: Font, c: char)
    ensures var index := if c as nat >= font.numGlyphs then 63 else c as nat;
      if BYTES_PER_GLYPH * (index + 1) < |font.data| then |font.GetCharacter(c)| == BYTES_PER_GLYPH else font.GetCharacter(c) == []
  {
  }

  lemma GlyphPresent(font: Font, c: char)
    requires font.Complete()
    ensures |font.GetCharacter(c)| == BYTES_PER_GLYPH
    ensures c as nat < font.numGlyphs ==> forall k | 0 <= k < 16 ::
      0 <= 16 * c as nat + k < |font.data| && font.GetCharacter(c)[k] == font.data[16 * c as nat + k]
  {
  }

  /** `line` shifted right `k` times. */
  function Shifted(line: bv8, k: nat): bv8 {
    if k == 0 then line else Shifted(line, k - 1) >> 1
  }

  /** Whether column `dx` of a glyph line is drawn in the foreground colour. */
  ghost predicate Lit(line: bv8, dx: nat)
    requires dx < 8
  {
    Shifted(line, 8 - dx) & 1 != 0
  }

  /**
   * The line is shifted before its first bit is taken: column 0 is always background, columns 1 to 7
   * show bits 7 to 1, and bit 0 is not shown.
   */
  lemma LitColumns(line: bv8)
    ensures !Lit(line, 0) && (Lit(line, 1) <==> line & 0x80 != 0) && (Lit(line, 2) <==> line & 0x40 != 0)
    ensures (Lit(line, 3) <==> line & 0x20 != 0) && (Lit(line, 4) <==> line & 0x10 != 0) && (Lit(line, 5) <==> line & 0x08 != 0)
    ensures (Lit(line, 6) <==> line & 0x04 != 0) && (Lit(line, 7) <==> line & 0x02 != 0)
  {
    assert Shifted(line, 0) == line;
    var s1 := Shifted(line, 1);
    var s2, s3 := Shifted(line, 2), Shifted(line, 3);
    var s4, s5 := Shifted(line, 4), Shifted(line, 5);
    var s6, s7 := Shifted(line, 6), Shifted(line, 7);
    assert s1 == line >> 1 && s2 == s1 >> 1 && s3 == s2 >> 1 && s4 == s3 >> 1;
    assert s5 == s4 >> 1 && s6 == s5 >> 1 && s7 == s6 >> 1 && Shifted(line, 8) == s7 >> 1;
  }

  /** The colour of one pixel of a cell. */
  ghost function Raster(font: Font, sc: ScreenChar, dx: nat, dy: nat): Color
    requires font.Complete() && dx < GLYPH_WIDTH && dy < font.height
  {
    GlyphPresent(font, sc.character);
    if sc.character != ' ' && Lit(font.GetCharacter(sc.character)[dy], dx) then sc.foreground else sc.background
  }

  lemma LitShift(line: bv8, dx: nat)
    requires dx < 8
    ensures Lit(line, dx) <==> dx > 0 && line & ((0x80 as bv8) >> (dx - 1)) != 0
  {
    LitColumns(line);
  }

  /**
   * Which colour a pixel of a cell has: the foreground where the bit of the glyph is set, and else the
   * background. A space has no glyph; the glyph of '?' stands in for a character without one.
   */
  ghost predicate PixelIs(font: Font, sc: ScreenChar, dx: nat, dy: nat, color: Color)
    requires font.Complete() && dx < 8 && dy < font.height
  {
    var glyph := if sc.character as nat < font.numGlyphs then sc.character as nat else 63;
    color == if sc.character != ' ' && dx > 0 && font.data[16 * glyph + dy] & ((0x80 as bv8) >> (dx - 1)) != 0
             then sc.foreground else sc.background
  }

  lemma RasterPixel(font: Font, sc: ScreenChar, dx: nat, dy: nat)
    requires font.Complete() && dx < 8 && dy < font.height
    ensures PixelIs(font, sc, dx, dy, Raster(font, sc, dx, dy))
  {
    GlyphPresent(font, sc.character);
    LitShift(font.GetCharacter(sc.character)[dy], dx);
  }

  // ----- where cells lie -----

  function CellX(i: nat, width: nat): nat
    requires width > 0
  {
    i % width * GLYPH_WIDTH
  }

  function CellY(i: nat, width: nat, h: nat): nat
    requires width > 0
  {
    i / width * h
  }

  lemma CellInside(i: nat, width: nat, height: nat, h: nat)
    requires i < width * height && width > 0
    ensures CellX(i, width) + GLYPH_WIDTH <= width * GLYPH_WIDTH && CellY(i, width, h) + h <= height * h
  {
    var row := i / width;
    RowInside(i, width, height);
    assert (row + 1) * h <= height * h;
  }

  lemma RowInside(i: nat, width: nat, height: nat)
    requires i < width * height && width > 0
    ensures i / width < height
  {
    var row := i / width;
    assert row * width <= i;
    assert row >= height ==> row * width >= height * width;
  }

  /** Two cells share no pixel. */
  lemma CellsApart(i: nat, k: nat, width: nat, h: nat, dx: nat, dy: nat)
    requires width > 0 && i != k && dx < GLYPH_WIDTH && dy < h
    ensures !InBox(CellX(i, width) + dx, CellY(i, width, h) + dy, CellX(k, width), CellY(k, width, h), GLYPH_WIDTH, h)
  {
    if i % width == k % width {
      SameRemainder(i, k, width);
      RowsApart(i / width, k / width, h, dy);
    }
  }

  lemma SameRemainder(i: nat, k: nat, width: nat)
    requires width > 0 && i != k && i % width == k % width
    ensures i / width != k / width
  {
    assert i == i / width * width + i % width && k == k / width * width + k % width;
  }

  lemma RowsApart(a: nat, b: nat, h: nat, dy: nat)
    requires a != b && dy < h
    ensures !(b * h <= a * h + dy < b * h + h)
  {
    if a < b {
      assert (a + 1) * h <= b * h;
    } else {
      assert (b + 1) * h <= a * h;
    }
  }

  method DrawGlyph(fb: Framebuffer, x0: nat, y0: nat, h: nat, glyph: seq<bv8>, foreground: Color, background: Color)
    requires fb.Valid() && x0 + GLYPH_WIDTH <= fb.scanlineLength && y0 + h <= fb.height && h <= |glyph|
    modifies fb.buffer
    ensures forall u: nat, v: nat | fb.Within(u, v) ::
      fb.Get(u, v) == if InBox(u, v, x0, y0, GLYPH_WIDTH, h)
                      then if Lit(glyph[v - y0], u - x0) then foreground else background
                      else old(fb.Get(u, v))
  {
    for lineI := 0 to h
      invariant forall u: nat, v: nat | fb.Within(u, v) ::
        fb.Get(u, v) == if InBox(u, v, x0, y0, GLYPH_WIDTH, lineI)
                        then if Lit(glyph[v - y0], u - x0) then foreground else background
                        else old(fb.Get(u, v))
    {
      var line := glyph[lineI];
      for bit := 0 to 8
        invariant line == Shifted(glyph[lineI], bit)
        invariant forall u: nat, v: nat | fb.Within(u, v) ::
          fb.Get(u, v) == if InBox(u, v, x0, y0, GLYPH_WIDTH, lineI) || InBox(u, v, x0 + (8 - bit), y0 + lineI, bit, 1)
                          then if Lit(glyph[v - y0], u - x0) then foreground else background
                          else old(fb.Get(u, v))
      {
        line := line >> 1;
        var color := if line & 1 != 0 then foreground else background;
        fb.Set(x0 + (7 - bit), y0 + lineI, color);
      }
    }
  }
}
