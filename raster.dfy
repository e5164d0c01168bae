/** Pixel-level model of the hello-world core's renderer: the fixed 320x240
    RGB565 framebuffer, the 8x8 glyph table, and what each drawing
    primitive leaves in the buffer, stated as functions on `seq<Color>`. */
module Raster {

  /** Framebuffer dimensions; the buffer is row-major with WIDTH cells per row. */
  const WIDTH: int := 320
  const HEIGHT: int := 240
  const CELLS: int := WIDTH * HEIGHT

  /** Every glyph is GLYPH x GLYPH cells; side of the moving square. */
  const GLYPH: int := 8
  const SQUARE: int := 20

  /** One RGB565 cell of the framebuffer. */
  type Color = bv16
  type Byte = bv8

  const COLOR_BLACK: Color := 0x0000
  const COLOR_WHITE: Color := 0xFFFF
  const COLOR_RED: Color := 0xF800

  /** A C `char`, taken as signed. Where plain `char` is unsigned the bytes
      128..255 are not negative but above 126, so `draw_char` rejects the
      same byte values either way. */
  newtype CChar = c: int | -128 <= c < 128

  /** One glyph: eight rows, bit 7 of a row is its leftmost column. */
  type Glyph = g: seq<Byte> | |g| == GLYPH witness [0, 0, 0, 0, 0, 0, 0, 0]

  const BLANK_GLYPH: Glyph := [0, 0, 0, 0, 0, 0, 0, 0]

  /** The glyph table: one glyph for each printable character 32..126.
      Its contents are not part of this model; every lemma holds for any table. */
  type Font = f: seq<Glyph> | |f| == 95 witness seq(95, _ => BLANK_GLYPH)

  // ---------------------------------------------------------------------
  // Cells and indices

  predicate InBounds(px: int, py: int) {
    0 <= px < WIDTH && 0 <= py < HEIGHT
  }

  /** Row-major position of cell (px, py), as `py * WIDTH + px` in the source. */
  function Index(px: int, py: int): (i: nat)
    requires InBounds(px, py)
    ensures i < CELLS
    ensures i % WIDTH == px && i / WIDTH == py
  {
    py * WIDTH + px
  }

  /** Every index of the buffer is the index of exactly one in-bounds cell. */
  lemma CellOfIndex(i: int)
    requires 0 <= i < CELLS
    ensures InBounds(i % WIDTH, i / WIDTH)
    ensures Index(i % WIDTH, i / WIDTH) == i
  {
  }

  /** The buffer after `clear_framebuffer`: every cell 0 (black). */
  function Blank(): seq<Color> {
    seq(CELLS, _ => COLOR_BLACK)
  }

  // ---------------------------------------------------------------------
  // Glyphs

  /** Characters that have a glyph; all others are skipped by `draw_char`. */
  predicate Printable(c: CChar) {
    32 <= c <= 126
  }

  /** Whether the glyph of `c` has its cell (gx, gy) set. */
  predicate GlyphBit(font: Font, c: CChar, gx: int, gy: int)
    requires Printable(c) && 0 <= gx < GLYPH && 0 <= gy < GLYPH
  {
    font[c as int - 32][gy] & (1 << (7 - gx)) != 0
  }

  /** Whether drawing `c` with its origin at (x, y) paints cell (px, py). */
  predicate CharCovers(font: Font, x: int, y: int, c: CChar, px: int, py: int) {
    Printable(c) && x <= px < x + GLYPH && y <= py < y + GLYPH
    && GlyphBit(font, c, px - x, py - y)
  }

  /** The buffer after drawing `c` at (x, y): painted cells take `color`,
      every other cell keeps its value. Off-buffer glyph cells have no index,
      so they are clipped. */
  function DrawCharSpec(fb: seq<Color>, font: Font, x: int, y: int, c: CChar, color: Color): (r: seq<Color>)
    requires |fb| == CELLS
    ensures |r| == CELLS
  {
    seq(CELLS, i requires 0 <= i < CELLS =>
      if CharCovers(font, x, y, c, i % WIDTH, i / WIDTH) then color else fb[i])
  }

  /** A character without a glyph leaves the buffer as it was. */
  lemma DrawCharUnprintable(fb: seq<Color>, font: Font, x: int, y: int, c: CChar, color: Color)
    requires |fb| == CELLS && !Printable(c)
    ensures DrawCharSpec(fb, font, x, y, c, color) == fb
  {
  }

  /** Cell-wise reading of `DrawCharSpec`: an in-bounds cell takes `color`
      exactly when the glyph covers it, and keeps its value otherwise. */
  lemma DrawCharCell(fb: seq<Color>, font: Font, x: int, y: int, c: CChar, color: Color, px: int, py: int)
    requires |fb| == CELLS && InBounds(px, py)
    ensures DrawCharSpec(fb, font, x, y, c, color)[Index(px, py)]
         == if CharCovers(font, x, y, c, px, py) then color else fb[Index(px, py)]
  {
  }

  /** A changed cell lies in the 8x8 box at (x, y) and holds `color`. */
  lemma DrawCharFootprint(fb: seq<Color>, font: Font, x: int, y: int, c: CChar, color: Color, i: int)
    requires |fb| == CELLS && 0 <= i < CELLS
    requires DrawCharSpec(fb, font, x, y, c, color)[i] != fb[i]
    ensures Printable(c)
    ensures x <= i % WIDTH < x + GLYPH && y <= i / WIDTH < y + GLYPH
    ensures DrawCharSpec(fb, font, x, y, c, color)[i] == color
  {
  }

  // ---------------------------------------------------------------------
  // Strings

  /** Length of a C string held in `s`: the characters before the first NUL,
      or all of `s` when it holds none. */
  function StrLen(s: seq<CChar>): (n: nat)
    ensures n <= |s|
    ensures forall j :: 0 <= j < n ==> s[j] != 0
    ensures n < |s| ==> s[n] == 0
  {
    if s == [] || s[0] == 0 then 0 else 1 + StrLen(s[1..])
  }

  /** The buffer after `draw_string`: each character in turn, the origin
      advancing GLYPH columns per character, stopping at the first NUL. */
  function DrawStringSpec(fb: seq<Color>, font: Font, x: int, y: int, s: seq<CChar>, color: Color): (r: seq<Color>)
    requires |fb| == CELLS
    ensures |r| == CELLS
    decreases |s|
  {
    if s == [] || s[0] == 0 then fb
    else DrawStringSpec(DrawCharSpec(fb, font, x, y, s[0], color), font, x + GLYPH, y, s[1..], color)
  }

  /** Whether some character of the string drawn at (x, y) paints cell (px, py). */
  predicate StringCovers(font: Font, x: int, y: int, s: seq<CChar>, px: int, py: int)
    decreases |s|
  {
    s != [] && s[0] != 0
    && (CharCovers(font, x, y, s[0], px, py) || StringCovers(font, x + GLYPH, y, s[1..], px, py))
  }

  /** `StringCovers` means: character k (before the first NUL) drawn at
      origin (x + 8k, y) covers the cell. */
  lemma {:induction false} StringCoversAt(font: Font, x: int, y: int, s: seq<CChar>, px: int, py: int)
    ensures StringCovers(font, x, y, s, px, py)
        <==> exists k :: 0 <= k < StrLen(s) && CharCovers(font, x + GLYPH * k, y, s[k], px, py)
    decreases |s|
  {
    if s == [] || s[0] == 0 {
    } else {
      StringCoversAt(font, x + GLYPH, y, s[1..], px, py);
      if StringCovers(font, x, y, s, px, py) {
        if CharCovers(font, x, y, s[0], px, py) {
          assert CharCovers(font, x + GLYPH * 0, y, s[0], px, py);
        } else {
          var k :| 0 <= k < StrLen(s[1..]) && CharCovers(font, x + GLYPH + GLYPH * k, y, s[1..][k], px, py);
          assert CharCovers(font, x + GLYPH * (k + 1), y, s[k + 1], px, py);
        }
      }
      if exists k :: 0 <= k < StrLen(s) && CharCovers(font, x + GLYPH * k, y, s[k], px, py) {
        var k :| 0 <= k < StrLen(s) && CharCovers(font, x + GLYPH * k, y, s[k], px, py);
        if k > 0 {
          assert CharCovers(font, x + GLYPH + GLYPH * (k - 1), y, s[1..][k - 1], px, py);
        }
      }
    }
  }

  /** A string only paints rows [y, y+8) and columns [x, x + 8 * StrLen(s)). */
  lemma {:induction false} StringCoversBounds(font: Font, x: int, y: int, s: seq<CChar>, px: int, py: int)
    requires StringCovers(font, x, y, s, px, py)
    ensures y <= py < y + GLYPH
    ensures x <= px < x + GLYPH * StrLen(s)
    decreases |s|
  {
    if !CharCovers(font, x, y, s[0], px, py) {
      StringCoversBounds(font, x + GLYPH, y, s[1..], px, py);
    }
  }

  /** Cell-wise reading of `DrawStringSpec`: a cell takes `color` exactly
      when some character of the string covers it, else keeps its value. */
  lemma {:induction false} DrawStringCell(fb: seq<Color>, font: Font, x: int, y: int, s: seq<CChar>, color: Color, i: int)
    requires |fb| == CELLS && 0 <= i < CELLS
    ensures DrawStringSpec(fb, font, x, y, s, color)[i]
         == if StringCovers(font, x, y, s, i % WIDTH, i / WIDTH) then color else fb[i]
    decreases |s|
  {
    if s != [] && s[0] != 0 {
      DrawStringCell(DrawCharSpec(fb, font, x, y, s[0], color), font, x + GLYPH, y, s[1..], color, i);
    }
  }

  /** "Hello World" as the C string literal the core draws. */
  function Ascii(s: string): (r: seq<CChar>)
    requires forall j :: 0 <= j < |s| ==> s[j] as int < 128
    ensures |r| == |s|
    ensures forall j :: 0 <= j < |s| ==> r[j] as int == s[j] as int
  {
    seq(|s|, j requires 0 <= j < |s| => s[j] as int as CChar)
  }

  const HELLO_WORLD: seq<CChar> := Ascii("Hello World")
  const TEXT_X: int := 50
  const TEXT_Y: int := 50

  /** The text drawn by every frame paints only rows [50, 58) and columns [50, 138). */
  lemma HelloWorldFootprint(font: Font, px: int, py: int)
    requires StringCovers(font, TEXT_X, TEXT_Y, HELLO_WORLD, px, py)
    ensures 50 <= py < 58 && 50 <= px < 138
  {
    assert forall j :: 0 <= j < |HELLO_WORLD| ==> HELLO_WORLD[j] != 0;
    assert StrLen(HELLO_WORLD) == 11;
    StringCoversBounds(font, TEXT_X, TEXT_Y, HELLO_WORLD, px, py);
  }

  // ---------------------------------------------------------------------
  // The moving square and the whole frame

  /** The cursor invariant: the square fits entirely inside the buffer. */
  predicate CursorInRange(sx: int, sy: int) {
    0 <= sx <= WIDTH - SQUARE && 0 <= sy <= HEIGHT - SQUARE
  }

  predicate InSquare(sx: int, sy: int, px: int, py: int) {
    sx <= px < sx + SQUARE && sy <= py < sy + SQUARE
  }

  /** The buffer after the square loop of `retro_run`: the cells of the
      20x20 square at (sx, sy) are red, every other cell keeps its value. */
  function FillSquareSpec(fb: seq<Color>, sx: int, sy: int): (r: seq<Color>)
    requires |fb| == CELLS
    ensures |r| == CELLS
  {
    seq(CELLS, i requires 0 <= i < CELLS =>
      if InSquare(sx, sy, i % WIDTH, i / WIDTH) then COLOR_RED else fb[i])
  }

  /** While the cursor invariant holds, no cell of the square is clipped:
      all 400 cells of [sx, sx+20) x [sy, sy+20) are in the buffer and red. */
  lemma SquareUnclipped(fb: seq<Color>, sx: int, sy: int, dx: int, dy: int)
    requires |fb| == CELLS && CursorInRange(sx, sy)
    requires 0 <= dx < SQUARE && 0 <= dy < SQUARE
    ensures InBounds(sx + dx, sy + dy)
    ensures FillSquareSpec(fb, sx, sy)[Index(sx + dx, sy + dy)] == COLOR_RED
  {
  }

  /** The frame `retro_run` renders: cleared, square at (sx, sy), then the text in white. */
  function RenderedFrame(font: Font, sx: int, sy: int): (r: seq<Color>)
    ensures |r| == CELLS
  {
    DrawStringSpec(FillSquareSpec(Blank(), sx, sy), font, TEXT_X, TEXT_Y, HELLO_WORLD, COLOR_WHITE)
  }

  /** Every cell of a rendered frame: white where the text paints it (the text
      is drawn last, so it wins over the square), else red inside the square,
      else black. */
  lemma RenderedFrameCell(font: Font, sx: int, sy: int, px: int, py: int)
    requires InBounds(px, py)
    ensures RenderedFrame(font, sx, sy)[Index(px, py)]
         == if StringCovers(font, TEXT_X, TEXT_Y, HELLO_WORLD, px, py) then COLOR_WHITE
            else if InSquare(sx, sy, px, py) then COLOR_RED
            else COLOR_BLACK
  {
    DrawStringCell(FillSquareSpec(Blank(), sx, sy), font, TEXT_X, TEXT_Y, HELLO_WORLD, COLOR_WHITE, Index(px, py));
  }
}
