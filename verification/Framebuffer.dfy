/** The packed one-bit framebuffer and what is drawn on it (runtime/einkctl.c, lines 43-48 and 203-263). */
module Framebuffer {
  import opened Bytes

  const PANEL_WIDTH: nat := 800
  const PANEL_HEIGHT: nat := 480
  const FRAMEBUFFER_BYTES: nat := 48000
  const FONT_WIDTH: nat := 8
  const FONT_HEIGHT: nat := 16

  /** The bit of a column within its byte: the leftmost is the highest. */
  function Mask(column: nat): bv8
    requires column < 8
  {
    match column
    case 0 => 0x80
    case 1 => 0x40
    case 2 => 0x20
    case 3 => 0x10
    case 4 => 0x08
    case 5 => 0x04
    case 6 => 0x02
    case 7 => 0x01
  }

  predicate Bit(b: bv8, column: nat)
    requires column < 8
  {
    b & Mask(column) != 0
  }

  /** The table is the shift the code computes. */
  lemma MaskIsShift(column: nat)
    requires column < 8
    ensures Mask(column) == (0x80 as bv8) >> column
  {
  }

  lemma BitsAfter(b: bv8, column: nat, other: nat)
    requires column < 8 && other < 8
    ensures Bit(b & !Mask(column), other) == (other != column && Bit(b, other))
    ensures Bit(b | Mask(column), other) == (other == column || Bit(b, other))
  {
  }

  predicate OnPanel(x: int, y: int) { 0 <= x < PANEL_WIDTH && 0 <= y < PANEL_HEIGHT }

  /** A set bit is a white pixel. */
  predicate White(bits: seq<bv8>, x: int, y: int)
    requires |bits| == FRAMEBUFFER_BYTES && OnPanel(x, y)
  {
    Bit(bits[y * 100 + x / 8], x % 8)
  }

  /** Where the bit of a pixel is, and that no other pixel has it. */
  lemma OwnBit(x: int, y: int, px: int, py: int)
    requires OnPanel(x, y) && OnPanel(px, py)
    ensures 0 <= y * 100 + x / 8 < FRAMEBUFFER_BYTES
    ensures y * 100 + x / 8 == py * 100 + px / 8 && x % 8 == px % 8 ==> x == px && y == py
  {
  }

  method Pixel(framebuffer: array<bv8>, x: int, y: int, black: bool)
    requires framebuffer.Length == FRAMEBUFFER_BYTES
    modifies framebuffer
    ensures forall px, py :: OnPanel(px, py) ==>
              White(framebuffer[..], px, py)
              == if px == x && py == y then !black else old(White(framebuffer[..], px, py))
  {
    hide Bit, Mask, White;
    ghost var was := framebuffer[..];
    if x < 0 || x >= PANEL_WIDTH || y < 0 || y >= PANEL_HEIGHT {
      return;
    }
    OwnBit(x, y, x, y);
    var index := y * (PANEL_WIDTH / 8) + x / 8;
    var mask := Mask(x % 8);
    if black {
      framebuffer[index] := framebuffer[index] & !mask;
    } else {
      framebuffer[index] := framebuffer[index] | mask;
    }
    PixelSetAll(was, framebuffer[..], x, y, black);
  }

  lemma PixelSetAll(was: seq<bv8>, now: seq<bv8>, x: int, y: int, black: bool)
    requires |was| == FRAMEBUFFER_BYTES && OnPanel(x, y) && y * 100 + x / 8 < FRAMEBUFFER_BYTES
    requires var index := y * 100 + x / 8;
             now == was[index := if black then was[index] & !Mask(x % 8) else was[index] | Mask(x % 8)]
    ensures forall px, py :: OnPanel(px, py) ==>
              White(now, px, py) == if px == x && py == y then !black else White(was, px, py)
  {
    hide White, Mask;
    forall px, py | OnPanel(px, py)
      ensures White(now, px, py) == if px == x && py == y then !black else White(was, px, py)
    {
      PixelSet(was, now, x, y, black, px, py);
    }
  }

  lemma PixelSet(was: seq<bv8>, now: seq<bv8>, x: int, y: int, black: bool, px: int, py: int)
    requires |was| == FRAMEBUFFER_BYTES && OnPanel(x, y) && OnPanel(px, py) && y * 100 + x / 8 < FRAMEBUFFER_BYTES
    requires var index := y * 100 + x / 8;
             now == was[index := if black then was[index] & !Mask(x % 8) else was[index] | Mask(x % 8)]
    ensures White(now, px, py) == if px == x && py == y then !black else White(was, px, py)
  {
    hide Bit, Mask;
    OwnBit(x, y, px, py);
    OwnBit(px, py, x, y);
    BitsAfter(was[y * 100 + x / 8], x % 8, px % 8);
  }

  predicate InRect(px: int, py: int, x: int, y: int, width: int, height: int) {
    x <= px < x + width && y <= py < y + height
  }

  method Rect(framebuffer: array<bv8>, x: int, y: int, width: int, height: int, black: bool)
    requires framebuffer.Length == FRAMEBUFFER_BYTES
    modifies framebuffer
    ensures forall px, py :: OnPanel(px, py) ==>
              White(framebuffer[..], px, py)
              == if InRect(px, py, x, y, width, height) then !black else old(White(framebuffer[..], px, py))
  {
    hide White, OnPanel;
    ghost var was := framebuffer[..];
    var row := y;
    while row < y + height
      invariant if height > 0 then y <= row <= y + height else row == y
      invariant forall px, py :: OnPanel(px, py) ==>
                  White(framebuffer[..], px, py)
                  == if InRect(px, py, x, y, width, row - y) then !black else White(was, px, py)
    {
      ghost var before := framebuffer[..];
      var column := x;
      while column < x + width
        invariant if width > 0 then x <= column <= x + width else column == x
        invariant forall px, py :: OnPanel(px, py) ==>
                    White(framebuffer[..], px, py)
                    == if InRect(px, py, x, row, column - x, 1) then !black else White(before, px, py)
      {
        Pixel(framebuffer, column, row, black);
        column := column + 1;
      }
      row := row + 1;
    }
  }

  // ---- text ----

  /** font8x16_ascii: sixteen rows of eight columns for each printable character. */
  type Font = f: seq<seq<bv8>> | |f| == 95 && forall i :: 0 <= i < |f| ==> |f[i]| == FONT_HEIGHT
    witness seq(95, i => seq(FONT_HEIGHT, k => 0))

  /** The character drawn for a byte. */
  function Drawn(c: Byte): Byte {
    if c < 0x20 || c > 0x7e then QUESTION else c
  }

  predicate Ink(font: Font, c: Byte, column: int, row: int)
    requires 0 <= column < FONT_WIDTH && 0 <= row < FONT_HEIGHT
  {
    Bit(font[Drawn(c) - 0x20][row], column)
  }

  /** A pixel of a character cell: its ink, and the other colour behind it when the text is opaque. */
  predicate CellPixel(ink: bool, black: bool, solid: bool, before: bool) {
    if ink then !black else if solid then black else before
  }

  predicate GlyphPixel(font: Font, c: Byte, x: int, y: int, black: bool, solid: bool, px: int, py: int, before: bool) {
    if InRect(px, py, x, y, FONT_WIDTH, FONT_HEIGHT)
    then CellPixel(Ink(font, c, px - x, py - y), black, solid, before)
    else before
  }

  /** The rows of the character shown for a byte: its own from space to tilde, those of a question mark otherwise. */
  function ShownRows(font: Font, c: Byte): (rows: seq<bv8>)
    ensures |rows| == FONT_HEIGHT
  {
    if ' ' as int <= c <= '~' as int then font[c - ' ' as int] else font['?' as int - ' ' as int]
  }

  /** A byte is its eight bits, from the leftmost pixel to the rightmost. */
  lemma ByteOfBits(a: bv8, b: bv8)
    requires Bit(a, 0) == Bit(b, 0) && Bit(a, 1) == Bit(b, 1) && Bit(a, 2) == Bit(b, 2) && Bit(a, 3) == Bit(b, 3)
    requires Bit(a, 4) == Bit(b, 4) && Bit(a, 5) == Bit(b, 5) && Bit(a, 6) == Bit(b, 6) && Bit(a, 7) == Bit(b, 7)
    ensures a == b
  {
  }

  lemma BitsFlipped(b: bv8, column: nat)
    requires column < 8
    ensures Bit(!b, column) == !Bit(b, column)
  {
  }

  /** Where a character stands on a byte boundary, its cell is the bytes of the font, inverted when it is black. */
  lemma InkBytes(bits: seq<bv8>, font: Font, c: Byte, x: int, y: int, row: int, black: bool)
    requires |bits| == FRAMEBUFFER_BYTES && x % 8 == 0 && 0 <= row < FONT_HEIGHT
    requires OnPanel(x, y + row) && OnPanel(x + 7, y + row)
    requires forall column :: 0 <= column < FONT_WIDTH ==>
               White(bits, x + column, y + row) == if Ink(font, c, column, row) then !black else black
    ensures 0 <= (y + row) * 100 + x / 8 < FRAMEBUFFER_BYTES
    ensures bits[(y + row) * 100 + x / 8] == if black then !ShownRows(font, c)[row] else ShownRows(font, c)[row]
  {
    hide Bit, Mask;
    OwnBit(x, y + row, x, y + row);
    var shown := ShownRows(font, c)[row];
    var wanted := if black then !shown else shown;
    forall column | 0 <= column < FONT_WIDTH
      ensures Bit(bits[(y + row) * 100 + x / 8], column) == Bit(wanted, column)
    {
      assert White(bits, x + column, y + row) == Bit(bits[(y + row) * 100 + x / 8], column);
      assert Ink(font, c, column, row) == Bit(shown, column);
      BitsFlipped(shown, column);
    }
    ByteOfBits(bits[(y + row) * 100 + x / 8], wanted);
  }

  method GlyphRow(framebuffer: array<bv8>, font: Font, x: int, y: int, c: Byte, row: int, black: bool, solid: bool)
    requires framebuffer.Length == FRAMEBUFFER_BYTES && 0 <= row < FONT_HEIGHT
    modifies framebuffer
    ensures forall px, py :: OnPanel(px, py) ==>
              White(framebuffer[..], px, py)
              == if py == y + row then
                   GlyphPixel(font, c, x, y, black, solid, px, py, old(White(framebuffer[..], px, py)))
                 else old(White(framebuffer[..], px, py))
  {
    hide White, OnPanel, Bit;
    ghost var was := framebuffer[..];
    var column := 0;
    while column < FONT_WIDTH
      invariant 0 <= column <= FONT_WIDTH
      invariant forall px, py :: OnPanel(px, py) ==>
                  White(framebuffer[..], px, py)
                  == if py == y + row && px < x + column then
                       GlyphPixel(font, c, x, y, black, solid, px, py, White(was, px, py))
                     else White(was, px, py)
    {
      var isSet := Ink(font, c, column, row);
      if isSet {
        Pixel(framebuffer, x + column, y + row, black);
      } else if solid {
        Pixel(framebuffer, x + column, y + row, !black);
      }
      column := column + 1;
    }
  }

  method Glyph(framebuffer: array<bv8>, font: Font, x: int, y: int, c: Byte, black: bool, solid: bool)
    requires framebuffer.Length == FRAMEBUFFER_BYTES
    modifies framebuffer
    ensures forall px, py :: OnPanel(px, py) ==>
              White(framebuffer[..], px, py)
              == GlyphPixel(font, c, x, y, black, solid, px, py, old(White(framebuffer[..], px, py)))
    ensures solid && x % 8 == 0 && OnPanel(x, y) && OnPanel(x + 7, y + 15) ==>
              forall row :: 0 <= row < FONT_HEIGHT ==>
                framebuffer[(y + row) * 100 + x / 8]
                == if black then !ShownRows(font, c)[row] else ShownRows(font, c)[row]
  {
    hide White, OnPanel, CellPixel, Ink, ShownRows;
    ghost var was := framebuffer[..];
    var row := 0;
    while row < FONT_HEIGHT
      invariant 0 <= row <= FONT_HEIGHT
      invariant forall px, py :: OnPanel(px, py) ==>
                  White(framebuffer[..], px, py)
                  == if py < y + row then GlyphPixel(font, c, x, y, black, solid, px, py, White(was, px, py))
                     else White(was, px, py)
    {
      GlyphRow(framebuffer, font, x, y, c, row, black, solid);
      row := row + 1;
    }
    if solid && x % 8 == 0 && OnPanel(x, y) && OnPanel(x + 7, y + 15) {
      GlyphBytes(framebuffer[..], was, font, c, x, y, black);
    }
  }

  lemma GlyphBytes(bits: seq<bv8>, was: seq<bv8>, font: Font, c: Byte, x: int, y: int, black: bool)
    requires |bits| == |was| == FRAMEBUFFER_BYTES && x % 8 == 0 && OnPanel(x, y) && OnPanel(x + 7, y + 15)
    requires forall px, py :: OnPanel(px, py) ==>
               White(bits, px, py) == GlyphPixel(font, c, x, y, black, true, px, py, White(was, px, py))
    ensures forall row :: 0 <= row < FONT_HEIGHT ==>
              0 <= (y + row) * 100 + x / 8 < FRAMEBUFFER_BYTES
              && bits[(y + row) * 100 + x / 8] == if black then !ShownRows(font, c)[row] else ShownRows(font, c)[row]
  {
    hide White, Ink, ShownRows;
    forall row | 0 <= row < FONT_HEIGHT
      ensures 0 <= (y + row) * 100 + x / 8 < FRAMEBUFFER_BYTES
      ensures bits[(y + row) * 100 + x / 8] == if black then !ShownRows(font, c)[row] else ShownRows(font, c)[row]
    {
      InkBytes(bits, font, c, x, y, row, black);
    }
  }

  /** A pixel of a line of text: that of the character whose cell it is in. */
  predicate TextPixel(font: Font, text: seq<Byte>, x: int, y: int, black: bool, solid: bool,
    px: int, py: int, before: bool) {
    if InRect(px, py, x, y, FONT_WIDTH * |text|, FONT_HEIGHT)
    then CellPixel(Ink(font, text[(px - x) / FONT_WIDTH], (px - x) % FONT_WIDTH, py - y), black, solid, before)
    else before
  }

  /** One more character changes its own cell and no other. */
  lemma TextGrows(font: Font, text: seq<Byte>, k: nat, x: int, y: int, black: bool, solid: bool,
    px: int, py: int, before: bool)
    requires k < |text|
    ensures TextPixel(font, text[..k + 1], x, y, black, solid, px, py, before)
         == GlyphPixel(font, text[k], x + FONT_WIDTH * k, y, black, solid, px, py,
                       TextPixel(font, text[..k], x, y, black, solid, px, py, before))
  {
    hide Ink, CellPixel;
    if InRect(px, py, x, y, FONT_WIDTH * (k + 1), FONT_HEIGHT) {
      var i := (px - x) / FONT_WIDTH;
      assert text[..k + 1][i] == text[i];
      if i < k {
        assert text[..k][i] == text[i];
      }
    }
  }

  method Text(framebuffer: array<bv8>, font: Font, x: int, y: int, text: seq<Byte>, black: bool, solid: bool)
    requires framebuffer.Length == FRAMEBUFFER_BYTES
    modifies framebuffer
    ensures forall px, py :: OnPanel(px, py) ==>
              White(framebuffer[..], px, py)
              == TextPixel(font, text, x, y, black, solid, px, py, old(White(framebuffer[..], px, py)))
  {
    hide White, OnPanel, GlyphPixel, CellPixel, Ink;
    ghost var was := framebuffer[..];
    var index, left := 0, x;
    while index < |text|
      invariant 0 <= index <= |text| && left == x + FONT_WIDTH * index
      invariant forall px, py :: OnPanel(px, py) ==>
                  White(framebuffer[..], px, py)
                  == TextPixel(font, text[..index], x, y, black, solid, px, py, White(was, px, py))
    {
      forall px, py | OnPanel(px, py)
        ensures TextPixel(font, text[..index + 1], x, y, black, solid, px, py, White(was, px, py))
             == GlyphPixel(font, text[index], left, y, black, solid, px, py,
                           TextPixel(font, text[..index], x, y, black, solid, px, py, White(was, px, py)))
      {
        TextGrows(font, text, index, x, y, black, solid, px, py, White(was, px, py));
      }
      Glyph(framebuffer, font, left, y, text[index], black, solid);
      left := left + FONT_WIDTH;
      index := index + 1;
    }
    assert text[..index] == text;
  }
}
