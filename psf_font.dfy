/**
 * The PC Screen Font version 1 loader and the glyph and text rasterisers that
 * write into a linear 32-bit-per-pixel framebuffer.
 */
module PsfFont {
  import opened Primitives
  import opened Wrappers

  /** The two magic bytes that open a PSF1 file. */
  const PSF1_MAGIC0: byte := 0x36
  const PSF1_MAGIC1: byte := 0x04
  /** Size of the PSF1 header: magic (2), mode (1), charsize (1). */
  const PSF1_HEADER_LEN: nat := 4
  /** Every PSF1 glyph is 8 pixels wide, one byte per row. */
  const GLYPH_WIDTH: nat := 8

  /** A loaded font: the glyph height in rows and the glyph bitmaps, borrowed from the blob. */
  datatype PSF1Font = PSF1Font(charsize: nat, glyphs: seq<byte>)

  // ---------------------------------------------------------------------
  // Loader
  // ---------------------------------------------------------------------

  /** Parses a PSF1 blob; `None` when it is shorter than the header or has the wrong magic. */
  function LoadPsf1Font(data: seq<byte>): (r: Option<PSF1Font>)
    ensures |data| < PSF1_HEADER_LEN ==> r.None?
    ensures r.Some? <==> |data| >= PSF1_HEADER_LEN && data[0] == PSF1_MAGIC0 && data[1] == PSF1_MAGIC1
    ensures r.Some? ==> r.value.charsize < 256 && |r.value.glyphs| == |data| - PSF1_HEADER_LEN
    ensures r.Some? ==> r.value.charsize == data[3] as nat && r.value.glyphs == data[PSF1_HEADER_LEN..]
  {
    if |data| < 4 || data[0] != 0x36 || data[1] != 0x04 then
      None
    else
      Some(PSF1Font(data[3] as nat, data[4..]))
  }

  /** The PSF1 blob for a font with the given mode byte: the partner of the loader. */
  function EncodePsf1(font: PSF1Font, mode: byte): (data: seq<byte>)
    requires font.charsize < 256
    ensures |data| == PSF1_HEADER_LEN + |font.glyphs|
  {
    [PSF1_MAGIC0, PSF1_MAGIC1, mode, font.charsize] + font.glyphs
  }

  /** Loading an encoded font gives that font back, whatever the mode byte. */
  lemma LoadEncoded(font: PSF1Font, mode: byte)
    requires font.charsize < 256
    ensures LoadPsf1Font(EncodePsf1(font, mode)) == Some(font)
  {
    var data := EncodePsf1(font, mode);
    assert data[4..] == font.glyphs;
  }

  /** Every blob the loader accepts is the encoding of what it loads, with its own mode byte. */
  lemma EncodeLoaded(data: seq<byte>)
    requires LoadPsf1Font(data).Some?
    ensures EncodePsf1(LoadPsf1Font(data).value, data[2]) == data
  {
    var font := LoadPsf1Font(data).value;
    assert data == data[..4] + data[4..];
  }

  /** The mode byte at offset 2 has no influence on the loaded font. */
  lemma LoadIgnoresMode(data: seq<byte>, mode: byte)
    requires |data| >= PSF1_HEADER_LEN
    ensures LoadPsf1Font(data[2 := mode]) == LoadPsf1Font(data)
  {
    assert data[2 := mode][4..] == data[4..];
  }

  // ---------------------------------------------------------------------
  // Framebuffer geometry
  // ---------------------------------------------------------------------

  /** What the boot protocol reports about a framebuffer: bytes per scanline and size in pixels. */
  datatype Geometry = Geometry(pitch: nat, width: nat, height: nat)

  /** A framebuffer: its geometry and its memory, one 32-bit cell per 4 bytes. */
  datatype Framebuffer = Framebuffer(geometry: Geometry, mem: array<u32>)

  /** Cells per scanline. */
  function Stride(g: Geometry): nat {
    g.pitch / 4
  }

  /**
   * The layout every 32-bpp framebuffer has: scanlines are whole cells, a
   * scanline holds `width` pixels and the memory holds `height` scanlines.
   */
  predicate Fits(g: Geometry, cells: nat) {
    WellFormed(g) && g.height * Stride(g) <= cells
  }

  /** Scanlines are whole cells and hold `width` pixels. */
  predicate WellFormed(g: Geometry) {
    g.pitch % 4 == 0 && 4 * g.width <= g.pitch
  }

  /** Byte offset of pixel `(px, py)` from the framebuffer base. */
  function ByteOffset(g: Geometry, py: nat, px: nat): nat {
    py * g.pitch + px * 4
  }

  /** Index of the cell that holds pixel `(px, py)`. */
  function CellIndex(g: Geometry, py: nat, px: nat): nat {
    py * Stride(g) + px
  }

  lemma ByteOffsetIsCell(g: Geometry, py: nat, px: nat)
    requires g.pitch % 4 == 0
    ensures ByteOffset(g, py, px) % 4 == 0
    ensures ByteOffset(g, py, px) / 4 == CellIndex(g, py, px)
  {
    var s := Stride(g);
    assert g.pitch == 4 * s;
    assert py * g.pitch == 4 * (py * s);
    assert ByteOffset(g, py, px) == 4 * CellIndex(g, py, px);
  }

  lemma CellInRange(g: Geometry, cells: nat, py: nat, px: nat)
    requires Fits(g, cells) && py < g.height && px < g.width
    ensures CellIndex(g, py, px) < cells
  {
    var s := Stride(g);
    assert px < s;
    assert (py + 1) * s <= g.height * s;
  }

  lemma MulMonotone(a: nat, b: nat, s: nat)
    requires a <= b
    ensures a * s <= b * s
  {
    assert b * s == a * s + (b - a) * s;
  }

  /** Euclidean division by `s` recovers quotient and remainder. */
  lemma DivModUnique(i: nat, s: nat, q: nat, r: nat)
    requires r < s && i == q * s + r
    ensures i / s == q && i % s == r
  {
    var q', r' := i / s, i % s;
    assert i == q' * s + r';
    if q' < q {
      MulMonotone(q' + 1, q, s);
      assert false;
    } else if q < q' {
      MulMonotone(q + 1, q', s);
      assert false;
    }
  }

  /** Distinct on-screen pixels live in distinct cells: a cell determines its pixel. */
  lemma CellCoordinates(g: Geometry, py: nat, px: nat)
    requires px < Stride(g)
    ensures CellIndex(g, py, px) / Stride(g) == py
    ensures CellIndex(g, py, px) % Stride(g) == px
  {
    DivModUnique(CellIndex(g, py, px), Stride(g), py, px);
  }

  // ---------------------------------------------------------------------
  // Glyph rasteriser (draw_char)
  // ---------------------------------------------------------------------

  /** One `draw_char` call: the glyph index and the top-left pixel. */
  datatype Placement = Placement(ch: byte, x: nat, y: nat)

  /** The glyph's rows lie inside the bitmap data; otherwise `draw_char` draws nothing. */
  predicate GlyphInRange(font: PSF1Font, ch: byte) {
    ch as nat * font.charsize + font.charsize <= |font.glyphs|
  }

  /** Row `row` of glyph `ch`: one byte, most significant bit leftmost. */
  function GlyphRow(font: PSF1Font, ch: byte, row: nat): byte
    requires GlyphInRange(font, ch) && row < font.charsize
  {
    font.glyphs[ch as nat * font.charsize + row]
  }

  /** Whether pixel column `col` of a glyph row is lit: bit `7 - col`. */
  predicate BitSet(b: byte, col: nat)
    requires col < GLYPH_WIDTH
  {
    TestBit(b, 7 - col)
  }

  /** The colour of glyph pixel `(col, row)`. */
  function PixelColour(font: PSF1Font, ch: byte, row: nat, col: nat, fg: u32, bg: u32): u32
    requires GlyphInRange(font, ch) && row < font.charsize && col < GLYPH_WIDTH
  {
    if BitSet(GlyphRow(font, ch, row), col) then fg else bg
  }

  /** Whether the pixel of cell `i` lies in the glyph's 8 x charsize box and on screen. */
  predicate InBox(g: Geometry, font: PSF1Font, p: Placement, i: nat) {
    var s := Stride(g);
    s > 0 &&
    var py, px := i / s, i % s;
    p.x <= px < p.x + GLYPH_WIDTH && px < g.width &&
    p.y <= py < p.y + font.charsize && py < g.height
  }

  /** Position of the pixel of cell `i` in the rasteriser's row-major pixel order. */
  function PixelOrder(g: Geometry, font: PSF1Font, p: Placement, i: nat): nat
    requires InBox(g, font, p, i)
  {
    var s := Stride(g);
    (i / s - p.y) * GLYPH_WIDTH + (i % s - p.x)
  }

  /** The colour the glyph gives the pixel of cell `i`. */
  function BoxColour(g: Geometry, font: PSF1Font, p: Placement, fg: u32, bg: u32, i: nat): u32
    requires GlyphInRange(font, p.ch) && InBox(g, font, p, i)
  {
    var s := Stride(g);
    PixelColour(font, p.ch, i / s - p.y, i % s - p.x, fg, bg)
  }

  /**
   * The framebuffer after the rasteriser visits glyph pixel `j`: column
   * `j % 8` of row `j / 8`, written only when it is on screen.
   */
  function PaintStep(g: Geometry, font: PSF1Font, p: Placement, fg: u32, bg: u32, prev: seq<u32>, j: nat): (r: seq<u32>)
    requires Fits(g, |prev|) && GlyphInRange(font, p.ch) && j < GLYPH_WIDTH * font.charsize
    ensures |r| == |prev|
  {
    var row, col := j / GLYPH_WIDTH, j % GLYPH_WIDTH;
    var px, py := p.x + col, p.y + row;
    if px < g.width && py < g.height then
      CellInRange(g, |prev|, py, px);
      prev[CellIndex(g, py, px) := PixelColour(font, p.ch, row, col, fg, bg)]
    else
      prev
  }

  /** The framebuffer after the first `k` glyph pixels, in row-major order, have been visited. */
  function Painted(g: Geometry, font: PSF1Font, p: Placement, fg: u32, bg: u32, cells: seq<u32>, k: nat): (r: seq<u32>)
    requires Fits(g, |cells|) && GlyphInRange(font, p.ch) && k <= GLYPH_WIDTH * font.charsize
    ensures |r| == |cells|
    decreases k
  {
    if k == 0 then cells
    else PaintStep(g, font, p, fg, bg, Painted(g, font, p, fg, bg, cells, k - 1), k - 1)
  }

  /** The framebuffer after `draw_char`: unchanged when the glyph index is out of range. */
  function DrawnGlyph(g: Geometry, font: PSF1Font, p: Placement, fg: u32, bg: u32, cells: seq<u32>): (r: seq<u32>)
    requires Fits(g, |cells|)
    ensures |r| == |cells|
  {
    if GlyphInRange(font, p.ch) then Painted(g, font, p, fg, bg, cells, GLYPH_WIDTH * font.charsize)
    else cells
  }

  /** The cell of an on-screen pixel is in the box exactly when the pixel is, at its row-major position. */
  lemma CellInBox(g: Geometry, font: PSF1Font, p: Placement, py: nat, px: nat)
    requires WellFormed(g) && px < g.width
    ensures InBox(g, font, p, CellIndex(g, py, px)) <==>
      p.x <= px < p.x + GLYPH_WIDTH && p.y <= py < p.y + font.charsize && py < g.height
    ensures InBox(g, font, p, CellIndex(g, py, px)) ==>
      PixelOrder(g, font, p, CellIndex(g, py, px)) == (py - p.y) * GLYPH_WIDTH + (px - p.x)
  {
    CellCoordinates(g, py, px);
  }

  /** A cell in the box is the cell of its own pixel. */
  lemma BoxCellIsPixelCell(g: Geometry, font: PSF1Font, p: Placement, i: nat)
    requires InBox(g, font, p, i)
    ensures i == CellIndex(g, i / Stride(g), i % Stride(g))
  {
  }

  /** The one pixel the rasteriser visits at step `k`, seen from the cells. */
  lemma StepCell(g: Geometry, font: PSF1Font, p: Placement, k: nat, i: nat)
    requires InBox(g, font, p, i) && PixelOrder(g, font, p, i) == k
    ensures p.x + k % GLYPH_WIDTH < g.width && p.y + k / GLYPH_WIDTH < g.height
    ensures i == CellIndex(g, p.y + k / GLYPH_WIDTH, p.x + k % GLYPH_WIDTH)
  {
    var s := Stride(g);
    BoxCellIsPixelCell(g, font, p, i);
    assert i / s - p.y == k / GLYPH_WIDTH && i % s - p.x == k % GLYPH_WIDTH;
  }

  /** Step `j` writes exactly the boxed cell whose pixel comes `j`-th. */
  lemma PaintStepCell(g: Geometry, font: PSF1Font, p: Placement, fg: u32, bg: u32, prev: seq<u32>, j: nat, i: nat)
    requires Fits(g, |prev|) && GlyphInRange(font, p.ch) && j < GLYPH_WIDTH * font.charsize
    requires i < |prev|
    ensures PaintStep(g, font, p, fg, bg, prev, j)[i] ==
      if InBox(g, font, p, i) && PixelOrder(g, font, p, i) == j then BoxColour(g, font, p, fg, bg, i) else prev[i]
  {
    var row, col := j / GLYPH_WIDTH, j % GLYPH_WIDTH;
    var px, py := p.x + col, p.y + row;
    if px < g.width && py < g.height {
      var c := CellIndex(g, py, px);
      CellInBox(g, font, p, py, px);
      if i == c {
        CellCoordinates(g, py, px);
        assert BoxColour(g, font, p, fg, bg, i) == PixelColour(font, p.ch, row, col, fg, bg);
      } else if InBox(g, font, p, i) && PixelOrder(g, font, p, i) == j {
        StepCell(g, font, p, j, i);
        assert false;
      }
    } else if InBox(g, font, p, i) && PixelOrder(g, font, p, i) == j {
      StepCell(g, font, p, j, i);
      assert false;
    }
  }

  /** After `k` pixels, exactly the boxed cells visited so far hold their glyph colour. */
  lemma {:induction false} PaintedCell(g: Geometry, font: PSF1Font, p: Placement, fg: u32, bg: u32, cells: seq<u32>, k: nat, i: nat)
    requires Fits(g, |cells|) && GlyphInRange(font, p.ch) && k <= GLYPH_WIDTH * font.charsize
    requires i < |cells|
    ensures Painted(g, font, p, fg, bg, cells, k)[i] ==
      if InBox(g, font, p, i) && PixelOrder(g, font, p, i) < k then BoxColour(g, font, p, fg, bg, i) else cells[i]
    decreases k
  {
    if k > 0 {
      PaintedCell(g, font, p, fg, bg, cells, k - 1, i);
      PaintStepCell(g, font, p, fg, bg, Painted(g, font, p, fg, bg, cells, k - 1), k - 1, i);
    }
  }

  /** Cell-by-cell meaning of `draw_char`. */
  lemma DrawnGlyphCell(g: Geometry, font: PSF1Font, p: Placement, fg: u32, bg: u32, cells: seq<u32>, i: nat)
    requires Fits(g, |cells|) && i < |cells|
    ensures DrawnGlyph(g, font, p, fg, bg, cells)[i] ==
      if GlyphInRange(font, p.ch) && InBox(g, font, p, i) then BoxColour(g, font, p, fg, bg, i) else cells[i]
  {
    if GlyphInRange(font, p.ch) {
      PaintedCell(g, font, p, fg, bg, cells, GLYPH_WIDTH * font.charsize, i);
    }
  }

  /** Clipping: a cell outside the glyph box, or off screen, is never written. */
  lemma DrawnGlyphClips(g: Geometry, font: PSF1Font, p: Placement, fg: u32, bg: u32, cells: seq<u32>, i: nat)
    requires Fits(g, |cells|) && i < |cells|
    requires !InBox(g, font, p, i)
    ensures DrawnGlyph(g, font, p, fg, bg, cells)[i] == cells[i]
  {
    DrawnGlyphCell(g, font, p, fg, bg, cells, i);
  }

  /** Every on-screen pixel of an in-range glyph gets fg or bg by its bit, at byte offset `py*pitch + px*4`. */
  lemma DrawnGlyphPixel(g: Geometry, font: PSF1Font, p: Placement, fg: u32, bg: u32, cells: seq<u32>, row: nat, col: nat)
    requires Fits(g, |cells|) && GlyphInRange(font, p.ch)
    requires row < font.charsize && col < GLYPH_WIDTH
    requires p.x + col < g.width && p.y + row < g.height
    ensures ByteOffset(g, p.y + row, p.x + col) / 4 < |cells|
    ensures DrawnGlyph(g, font, p, fg, bg, cells)[ByteOffset(g, p.y + row, p.x + col) / 4] ==
      if BitSet(GlyphRow(font, p.ch, row), col) then fg else bg
  {
    var py, px := p.y + row, p.x + col;
    ByteOffsetIsCell(g, py, px);
    CellInRange(g, |cells|, py, px);
    CellCoordinates(g, py, px);
    DrawnGlyphCell(g, font, p, fg, bg, cells, CellIndex(g, py, px));
  }

  /** Drawing the same glyph twice leaves the framebuffer as drawing it once. */
  lemma DrawnGlyphIdempotent(g: Geometry, font: PSF1Font, p: Placement, fg: u32, bg: u32, cells: seq<u32>)
    requires Fits(g, |cells|)
    ensures DrawnGlyph(g, font, p, fg, bg, DrawnGlyph(g, font, p, fg, bg, cells)) == DrawnGlyph(g, font, p, fg, bg, cells)
  {
    var once := DrawnGlyph(g, font, p, fg, bg, cells);
    var twice := DrawnGlyph(g, font, p, fg, bg, once);
    forall i | 0 <= i < |cells|
      ensures twice[i] == once[i]
    {
      DrawnGlyphCell(g, font, p, fg, bg, cells, i);
      DrawnGlyphCell(g, font, p, fg, bg, once, i);
    }
  }

  /** Pixel `8*row + col` of the rasteriser, in the terms `draw_char` computes it. */
  lemma PixelStep(g: Geometry, font: PSF1Font, p: Placement, fg: u32, bg: u32, prev: seq<u32>, row: nat, col: nat)
    requires Fits(g, |prev|) && GlyphInRange(font, p.ch) && row < font.charsize && col < GLYPH_WIDTH
    ensures var next := PaintStep(g, font, p, fg, bg, prev, GLYPH_WIDTH * row + col);
      if p.x + col < g.width && p.y + row < g.height then
        ByteOffset(g, p.y + row, p.x + col) / 4 < |prev| &&
        next == prev[ByteOffset(g, p.y + row, p.x + col) / 4 :=
                     if TestBit(GlyphRow(font, p.ch, row), 7 - col) then fg else bg]
      else
        next == prev
  {
    var k := GLYPH_WIDTH * row + col;
    assert k / GLYPH_WIDTH == row && k % GLYPH_WIDTH == col;
    if p.x + col < g.width && p.y + row < g.height {
      ByteOffsetIsCell(g, p.y + row, p.x + col);
      CellInRange(g, |prev|, p.y + row, p.x + col);
    }
  }

  lemma PaintedNext(g: Geometry, font: PSF1Font, p: Placement, fg: u32, bg: u32, cells: seq<u32>, k: nat)
    requires Fits(g, |cells|) && GlyphInRange(font, p.ch) && k < GLYPH_WIDTH * font.charsize
    ensures Painted(g, font, p, fg, bg, cells, k + 1) ==
      PaintStep(g, font, p, fg, bg, Painted(g, font, p, fg, bg, cells, k), k)
  {
  }

  /** Painting pixel `8*row + col` on top of the first `8*row + col` pixels: one cell write, or none off screen. */
  lemma PaintedPixel(g: Geometry, font: PSF1Font, p: Placement, fg: u32, bg: u32, before: seq<u32>,
                     row: nat, col: nat, k: nat, prev: seq<u32>, colour: u32)
    requires Fits(g, |before|) && GlyphInRange(font, p.ch) && row < font.charsize && col < GLYPH_WIDTH
    requires k == GLYPH_WIDTH * row + col && prev == Painted(g, font, p, fg, bg, before, k)
    requires colour == if TestBit(GlyphRow(font, p.ch, row), 7 - col) then fg else bg
    ensures p.x + col < g.width && p.y + row < g.height ==>
      ByteOffset(g, p.y + row, p.x + col) / 4 < |prev| &&
      Painted(g, font, p, fg, bg, before, k + 1) == prev[ByteOffset(g, p.y + row, p.x + col) / 4 := colour]
    ensures !(p.x + col < g.width && p.y + row < g.height) ==> Painted(g, font, p, fg, bg, before, k + 1) == prev
  {
    PaintedNext(g, font, p, fg, bg, before, k);
    PixelStep(g, font, p, fg, bg, prev, row, col);
  }

  /** `draw_char`: writes the glyph's pixels one by one, skipping off-screen ones. */
  method DrawChar(fb: Framebuffer, font: PSF1Font, ch: byte, x: nat, y: nat, fg: u32, bg: u32)
    requires Fits(fb.geometry, fb.mem.Length)
    modifies fb.mem
    ensures fb.mem[..] == DrawnGlyph(fb.geometry, font, Placement(ch, x, y), fg, bg, old(fb.mem[..]))
    ensures !GlyphInRange(font, ch) ==> fb.mem[..] == old(fb.mem[..])
  {
    var charOffset := ch as nat * font.charsize;
    if charOffset + font.charsize > |font.glyphs| {
      return;  // invalid character
    }
    assert GlyphInRange(font, ch);
    var glyph := font.glyphs[charOffset .. charOffset + font.charsize];
    ghost var p := Placement(ch, x, y);
    ghost var before := fb.mem[..];

    for row := 0 to |glyph|
      invariant fb.mem[..] == Painted(fb.geometry, font, p, fg, bg, before, GLYPH_WIDTH * row)
    {
      var b := glyph[row];
      assert b == font.glyphs[charOffset + row];
      DrawGlyphRow(fb, font, ch, x, y, fg, bg, row, b, before);
    }
    assert fb.mem[..] == DrawnGlyph(fb.geometry, font, p, fg, bg, before);
  }

  /** The inner `for col in 0..8` loop of `draw_char`: the eight pixels of glyph row `row`, whose bitmap byte is `b`. */
  method DrawGlyphRow(fb: Framebuffer, font: PSF1Font, ch: byte, x: nat, y: nat, fg: u32, bg: u32,
                      row: nat, b: byte, ghost before: seq<u32>)
    requires Fits(fb.geometry, |before|) && |before| == fb.mem.Length
    requires GlyphInRange(font, ch) && row < font.charsize && b == GlyphRow(font, ch, row)
    requires fb.mem[..] == Painted(fb.geometry, font, Placement(ch, x, y), fg, bg, before, GLYPH_WIDTH * row)
    modifies fb.mem
    ensures fb.mem[..] == Painted(fb.geometry, font, Placement(ch, x, y), fg, bg, before, GLYPH_WIDTH * (row + 1))
  {
    var g := fb.geometry;
    ghost var p := Placement(ch, x, y);
    for col := 0 to 8
      invariant fb.mem[..] == Painted(g, font, p, fg, bg, before, GLYPH_WIDTH * row + col)
    {
      ghost var k := GLYPH_WIDTH * row + col;
      ghost var prev := fb.mem[..];
      var isSet := TestBit(b, 7 - col);  // b & (1 << (7 - col)) != 0
      var colour := if isSet then fg else bg;
      var px := x + col;
      var py := y + row;
      PaintedPixel(g, font, p, fg, bg, before, row, col, k, prev, colour);
      if px < g.width && py < g.height {
        var offset := ByteOffset(g, py, px);  // py * pitch + px * 4
        fb.mem[offset / 4] := colour;
        assert fb.mem[..] == prev[offset / 4 := colour];
      }
    }
  }

  // ---------------------------------------------------------------------
  // Text loop (draw_text)
  // ---------------------------------------------------------------------

  /**
   * The cursor after walking `text` from `(x0, y0)`: a newline moves to
   * column 0 (not back to `x0`) one glyph height down; any other byte moves
   * one glyph width right. The framebuffer width is never consulted.
   */
  function Cursor(text: seq<byte>, x0: nat, y0: nat, h: nat): (r: (nat, nat))
    ensures r.1 >= y0
    ensures text != [] && text[|text| - 1] == NEWLINE ==> r.0 == 0
    decreases |text|
  {
    if text == [] then (x0, y0)
    else
      var (x, y) := Cursor(text[..|text| - 1], x0, y0, h);
      if text[|text| - 1] == NEWLINE then (0, y + h) else (x + GLYPH_WIDTH, y)
  }

  /** The `draw_char` calls `draw_text` makes for `text`, in order: one per non-newline byte. */
  function Layout(text: seq<byte>, x0: nat, y0: nat, h: nat): (ps: seq<Placement>)
    ensures |ps| <= |text|
    ensures forall j :: 0 <= j < |ps| ==> ps[j].ch != NEWLINE && ps[j].y >= y0
    decreases |text|
  {
    if text == [] then []
    else
      var pre, ch := text[..|text| - 1], text[|text| - 1];
      if ch == NEWLINE then Layout(pre, x0, y0, h)
      else
        var (x, y) := Cursor(pre, x0, y0, h);
        Layout(pre, x0, y0, h) + [Placement(ch, x, y)]
  }

  /** The framebuffer after the given `draw_char` calls, in order. */
  function DrawnText(g: Geometry, font: PSF1Font, ps: seq<Placement>, fg: u32, bg: u32, cells: seq<u32>): (r: seq<u32>)
    requires Fits(g, |cells|)
    ensures |r| == |cells|
    decreases |ps|
  {
    if ps == [] then cells
    else DrawnGlyph(g, font, ps[|ps| - 1], fg, bg, DrawnText(g, font, ps[..|ps| - 1], fg, bg, cells))
  }

  /** Number of newline bytes in `text`. */
  function Newlines(text: seq<byte>): nat
    decreases |text|
  {
    if text == [] then 0
    else Newlines(text[..|text| - 1]) + if text[|text| - 1] == NEWLINE then 1 else 0
  }

  /** Number of bytes after the last newline of `text` (all of them when there is none). */
  function TrailingLength(text: seq<byte>): nat
    decreases |text|
  {
    if text == [] then 0
    else if text[|text| - 1] == NEWLINE then 0
    else TrailingLength(text[..|text| - 1]) + 1
  }

  /** Where the cursor ends: one glyph height per newline, 8 pixels per byte of the last line. */
  lemma {:induction false} CursorClosedForm(text: seq<byte>, x0: nat, y0: nat, h: nat)
    ensures Cursor(text, x0, y0, h).1 == y0 + h * Newlines(text)
    ensures Cursor(text, x0, y0, h).0 == (if Newlines(text) == 0 then x0 else 0) + GLYPH_WIDTH * TrailingLength(text)
    decreases |text|
  {
    if text != [] {
      var pre := text[..|text| - 1];
      CursorClosedForm(pre, x0, y0, h);
      if text[|text| - 1] == NEWLINE {
        assert h * (Newlines(pre) + 1) == h * Newlines(pre) + h;
      }
    }
  }

  /** One `draw_char` call per byte that is not a newline. */
  lemma {:induction false} LayoutLength(text: seq<byte>, x0: nat, y0: nat, h: nat)
    ensures Newlines(text) <= |text|
    ensures |Layout(text, x0, y0, h)| == |text| - Newlines(text)
    decreases |text|
  {
    if text != [] {
      LayoutLength(text[..|text| - 1], x0, y0, h);
    }
  }

  /**
   * Walking `a + b` is walking `a`, then walking `b` from where `a` left the
   * cursor: the loop keeps no state besides `(x, y)`.
   */
  lemma {:induction false} LayoutAppend(a: seq<byte>, b: seq<byte>, x0: nat, y0: nat, h: nat)
    ensures var (x, y) := Cursor(a, x0, y0, h);
      Cursor(a + b, x0, y0, h) == Cursor(b, x, y, h) &&
      Layout(a + b, x0, y0, h) == Layout(a, x0, y0, h) + Layout(b, x, y, h)
    decreases |b|
  {
    if b == [] {
      assert a + b == a;
    } else {
      var b' := b[..|b| - 1];
      assert (a + b)[..|a + b| - 1] == a + b';
      LayoutAppend(a, b', x0, y0, h);
    }
  }

  /** On a line without newlines byte `i` is drawn at `x0 + 8*i`, however wide the screen is. */
  lemma {:induction false} LineLayout(text: seq<byte>, x0: nat, y0: nat, h: nat)
    requires forall i :: 0 <= i < |text| ==> text[i] != NEWLINE
    ensures |Layout(text, x0, y0, h)| == |text|
    ensures forall i :: 0 <= i < |text| ==>
      Layout(text, x0, y0, h)[i] == Placement(text[i], x0 + GLYPH_WIDTH * i, y0)
    decreases |text|
  {
    if text != [] {
      var pre := text[..|text| - 1];
      LineLayout(pre, x0, y0, h);
      CursorClosedForm(pre, x0, y0, h);
      LayoutLength(pre, x0, y0, h);
      assert Newlines(pre) == 0;
      assert TrailingLength(pre) == |pre| by {
        TrailingLengthNoNewline(pre);
      }
    }
  }

  lemma {:induction false} TrailingLengthNoNewline(text: seq<byte>)
    requires forall i :: 0 <= i < |text| ==> text[i] != NEWLINE
    ensures TrailingLength(text) == |text| && Newlines(text) == 0
    decreases |text|
  {
    if text != [] {
      TrailingLengthNoNewline(text[..|text| - 1]);
    }
  }

  /** Text "AB\nCD" from (10, 10) with 16-row glyphs: the second line starts at column 0, not 10. */
  lemma NewlineReturnsToColumnZero()
    ensures Layout([0x41, 0x42, NEWLINE, 0x43, 0x44], 10, 10, 16) ==
      [Placement(0x41, 10, 10), Placement(0x42, 18, 10), Placement(0x43, 0, 26), Placement(0x44, 8, 26)]
  {
    var t1: seq<byte> := [0x41];
    var t2: seq<byte> := t1 + [0x42];
    var t3: seq<byte> := t2 + [NEWLINE];
    var t4: seq<byte> := t3 + [0x43];
    var t5: seq<byte> := t4 + [0x44];
    assert t1[..0] == [] && t2[..1] == t1 && t3[..2] == t2 && t4[..3] == t3 && t5[..4] == t4;
    assert Cursor(t1, 10, 10, 16) == (18, 10) && Layout(t1, 10, 10, 16) == [Placement(0x41, 10, 10)];
    assert Cursor(t2, 10, 10, 16) == (26, 10);
    assert Cursor(t3, 10, 10, 16) == (0, 26) && Layout(t3, 10, 10, 16) == Layout(t2, 10, 10, 16);
    assert Cursor(t4, 10, 10, 16) == (8, 26);
    assert t5 == [0x41, 0x42, NEWLINE, 0x43, 0x44];
  }

  /** One more byte of `text`: a newline moves the cursor only, any other byte adds one placement. */
  lemma TextStep(text: seq<byte>, i: nat, x0: nat, y0: nat, h: nat, x: nat, y: nat)
    requires i < |text|
    requires Cursor(text[..i], x0, y0, h) == (x, y)
    ensures text[i] == NEWLINE ==> Cursor(text[..i + 1], x0, y0, h) == (0, y + h)
    ensures text[i] == NEWLINE ==> Layout(text[..i + 1], x0, y0, h) == Layout(text[..i], x0, y0, h)
    ensures text[i] != NEWLINE ==> Cursor(text[..i + 1], x0, y0, h) == (x + GLYPH_WIDTH, y)
    ensures text[i] != NEWLINE ==>
      Layout(text[..i + 1], x0, y0, h) == Layout(text[..i], x0, y0, h) + [Placement(text[i], x, y)]
  {
    assert text[..i + 1][..i] == text[..i];
  }

  /** Drawing one more placement is one more `draw_char` on the framebuffer drawn so far. */
  lemma DrawnTextSnoc(g: Geometry, font: PSF1Font, ps: seq<Placement>, p: Placement, fg: u32, bg: u32, cells: seq<u32>)
    requires Fits(g, |cells|)
    ensures DrawnText(g, font, ps + [p], fg, bg, cells) == DrawnGlyph(g, font, p, fg, bg, DrawnText(g, font, ps, fg, bg, cells))
  {
    assert (ps + [p])[..|ps|] == ps;
  }

  /** `draw_text`: walks the bytes with a local cursor, drawing every byte that is not a newline. */
  method DrawText(fb: Framebuffer, font: PSF1Font, text: seq<byte>, x: nat, y: nat, fg: u32, bg: u32)
    requires Fits(fb.geometry, fb.mem.Length)
    modifies fb.mem
    ensures fb.mem[..] == DrawnText(fb.geometry, font, Layout(text, x, y, font.charsize), fg, bg, old(fb.mem[..]))
  {
    var charHeight := font.charsize;
    var cx, cy := x, y;
    for i := 0 to |text|
      invariant (cx, cy) == Cursor(text[..i], x, y, charHeight)
      invariant fb.mem[..] == DrawnText(fb.geometry, font, Layout(text[..i], x, y, charHeight), fg, bg, old(fb.mem[..]))
    {
      var ch := text[i];
      TextStep(text, i, x, y, charHeight, cx, cy);
      if ch == NEWLINE {
        cx := 0;
        cy := cy + charHeight;
      } else {
        DrawChar(fb, font, ch, cx, cy, fg, bg);
        DrawnTextSnoc(fb.geometry, font, Layout(text[..i], x, y, charHeight), Placement(ch, cx, cy), fg, bg, old(fb.mem[..]));
        cx := cx + GLYPH_WIDTH;
      }
    }
    assert text[..|text|] == text;
  }
}
