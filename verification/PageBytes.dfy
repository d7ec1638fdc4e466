/** One page of text as the bytes the panel is sent (runtime/einkctl.c, lines 203-263 and 415-482). */
module PageBytes {
  import opened Bytes
  import opened Framebuffer
  import opened PageRenderer

  /** One row of the character that stands at a byte column of a line, counted from the line's first. */
  function TextByte(font: Font, text: seq<Byte>, column: int, row: int, paper: bv8): bv8
    requires 0 <= row < 16
  {
    if 0 <= column < |text| then ShownRows(font, text[column])[row] ^ paper else paper
  }

  /** What stands at the foot of a page: its number, counted from one, and the number of pages. */
  function FooterShown(page: nat, pages: nat): seq<Byte> {
    var blanks := Ascii("          ");
    var name := Ascii("fx on Linux / ESP32-S3") + blanks + blanks + Ascii("page ");
    var text := name + Decimal(page + 1) + Ascii("/") + Decimal(pages);
    text[..Min(|text|, 63)]
  }

  /**
   * The bytes of a page, a hundred a row of pixels: a black bar with the first 96 characters of the title, sixteen rows
   * to each of up to 26 lines, a rule, and the footer. Paper is 0xff below the bar, and characters begin at the second
   * byte.
   */
  function PageByte(font: Font, title: CString, lines: seq<seq<Byte>>, page: nat, column: int, y: int): bv8 {
    if 4 <= y < 20 then TextByte(font, title[..Min(|title|, 96)], column - 1, y - 4, 0x00)
    else if y < 25 || y == 455 then 0x00
    else if 32 <= y < 448 && page * 26 + (y - 32) / 16 < |lines| then
      TextByte(font, lines[page * 26 + (y - 32) / 16], column - 1, (y - 32) % 16, 0xff)
    else if 460 <= y < 476 then TextByte(font, FooterShown(page, PageCount(|lines|)), column - 1, y - 460, 0xff)
    else 0xff
  }

  /** Every line is on one page, and no page but an empty document's only one is without a line. */
  lemma PagesHoldLines(lines: nat, i: nat)
    ensures i < lines ==> i / 26 < PageCount(lines) && i == i / 26 * 26 + i % 26 && i % 26 < 26
    ensures lines > 0 ==> 26 * (PageCount(lines) - 1) < lines <= 26 * PageCount(lines)
  {
  }

  lemma FooterIs(page: nat, pages: nat)
    ensures FooterText(page, pages) == FooterShown(page, pages)
  {
    hide Decimal;
    var blanks := Ascii("          ");
    assert TextSanitizer.Spaces(20) == blanks + blanks;
    assert Ascii("fx on Linux / ") + Ascii("ESP32-S3") == Ascii("fx on Linux / ESP32-S3");
    assert Ascii("/") == [0x2f];
    FrontJoins(Ascii("fx on Linux / "), Ascii("ESP32-S3"), blanks, Ascii("page "));
  }

  lemma FrontJoins(a: seq<Byte>, b: seq<Byte>, c: seq<Byte>, d: seq<Byte>)
    ensures a + b + (c + c) + d == (a + b) + c + c + d
  {
  }

  // ---- from pixels to bytes ----

  /** The bits show the page, pixel by pixel. */
  ghost predicate Shows(bits: seq<bv8>, font: Font, title: CString, lines: seq<seq<Byte>>, page: nat) {
    && |bits| == FRAMEBUFFER_BYTES
    && forall px, py :: OnPanel(px, py) ==> White(bits, px, py) == PagePixel(font, title, lines, page, px, py)
  }

  /** Pixel `k` of a byte is white. */
  predicate WhiteIn(bits: seq<bv8>, column: int, y: int, k: int)
    requires |bits| == FRAMEBUFFER_BYTES && 0 <= column < 100 && 0 <= y < PANEL_HEIGHT && 0 <= k < 8
  {
    White(bits, 8 * column + k, y)
  }

  lemma PlainByte(bits: seq<bv8>, column: int, y: int, white: bool)
    requires |bits| == FRAMEBUFFER_BYTES && 0 <= column < 100 && 0 <= y < PANEL_HEIGHT
    requires forall k :: 0 <= k < 8 ==> WhiteIn(bits, column, y, k) == white
    ensures bits[y * 100 + column] == if white then 0xff else 0x00
  {
    hide Bit, Mask;
    var b := bits[y * 100 + column];
    var wanted: bv8 := if white then 0xff else 0x00;
    forall k | 0 <= k < 8 ensures Bit(b, k) == Bit(wanted, k) {
      assert WhiteIn(bits, column, y, k) == Bit(b, k);
      PlainBits(k);
    }
    ByteOfBits(b, wanted);
  }

  lemma PlainBits(k: nat)
    requires k < 8
    ensures Bit(0xff, k) && !Bit(0x00, k)
  {
  }

  /** A byte of a line of text whose ink is black on white, or white on black. */
  lemma LineByte(bits: seq<bv8>, font: Font, text: seq<Byte>, column: int, y: int, top: int, black: bool)
    requires |bits| == FRAMEBUFFER_BYTES && 0 <= column < 100 && 0 <= y < PANEL_HEIGHT && top <= y < top + 16
    requires forall k :: 0 <= k < 8 ==>
               WhiteIn(bits, column, y, k)
               == if InkAt(font, text, 8 * column + k - BODY_X, y - top) then !black else black
    ensures bits[y * 100 + column] == TextByte(font, text, column - 1, y - top, if black then 0xff else 0x00)
  {
    hide White, Ink, ShownRows;
    var row := y - top;
    if 1 <= column <= |text| {
      var c := text[column - 1];
      forall k | 0 <= k < 8
        ensures White(bits, 8 * column + k, top + row) == if Ink(font, c, k, row) then !black else black
      {
        assert WhiteIn(bits, column, y, k) == White(bits, 8 * column + k, y);
        assert InkAt(font, text, 8 * column + k - BODY_X, row) == Ink(font, c, k, row);
      }
      InkBytes(bits, font, c, 8 * column, top, row, black);
      FlippedIsXor(ShownRows(font, c)[row]);
    } else {
      forall k | 0 <= k < 8 ensures WhiteIn(bits, column, y, k) == black {
        assert !InkAt(font, text, 8 * column + k - BODY_X, y - top);
      }
      PlainByte(bits, column, y, black);
    }
  }

  lemma FlippedIsXor(b: bv8)
    ensures b ^ 0xff == !b && b ^ 0x00 == b
  {
  }

  /** What is shown is, byte for byte, the page. */
  lemma PageIsBytes(bits: seq<bv8>, font: Font, title: CString, lines: seq<seq<Byte>>, page: nat)
    requires Shows(bits, font, title, lines, page)
    ensures forall column, y :: 0 <= column < 100 && 0 <= y < PANEL_HEIGHT ==>
              bits[y * 100 + column] == PageByte(font, title, lines, page, column, y)
  {
    hide PageByte, Shows;
    assert |bits| == FRAMEBUFFER_BYTES by {
      ShownLength(bits, font, title, lines, page);
    }
    forall column, y | 0 <= column < 100 && 0 <= y < PANEL_HEIGHT
      ensures bits[y * 100 + column] == PageByte(font, title, lines, page, column, y)
    {
      ByteIs(bits, font, title, lines, page, column, y);
    }
  }

  lemma ShownLength(bits: seq<bv8>, font: Font, title: CString, lines: seq<seq<Byte>>, page: nat)
    requires Shows(bits, font, title, lines, page)
    ensures |bits| == FRAMEBUFFER_BYTES
  {
  }

  lemma ShownPixel(bits: seq<bv8>, font: Font, title: CString, lines: seq<seq<Byte>>, page: nat, px: int, py: int)
    requires Shows(bits, font, title, lines, page) && OnPanel(px, py)
    ensures |bits| == FRAMEBUFFER_BYTES && White(bits, px, py) == PagePixel(font, title, lines, page, px, py)
  {
  }

  lemma ByteIs(bits: seq<bv8>, font: Font, title: CString, lines: seq<seq<Byte>>, page: nat, column: int, y: int)
    requires Shows(bits, font, title, lines, page) && 0 <= column < 100 && 0 <= y < PANEL_HEIGHT
    ensures |bits| == FRAMEBUFFER_BYTES
    ensures bits[y * 100 + column] == PageByte(font, title, lines, page, column, y)
  {
    hide Shows, White, InkAt, ShownRows, TextByte, FooterText, FooterShown;
    FooterIs(page, PageCount(|lines|));
    forall k | 0 <= k < 8
      ensures |bits| == FRAMEBUFFER_BYTES
      ensures WhiteIn(bits, column, y, k) == PagePixel(font, title, lines, page, 8 * column + k, y)
    {
      ShownPixel(bits, font, title, lines, page, 8 * column + k, y);
    }
    ShownLength(bits, font, title, lines, page);
    var first := page * TEXT_ROWS;
    if 4 <= y < 20 {
      LineByte(bits, font, TitleText(title), column, y, TITLE_Y, false);
    } else if y < 25 || y == 455 {
      PlainByte(bits, column, y, false);
    } else if 32 <= y < 448 && first + (y - 32) / 16 < |lines| {
      LineByte(bits, font, lines[first + (y - 32) / 16], column, y, y - (y - 32) % 16, true);
    } else if 460 <= y < 476 {
      LineByte(bits, font, FooterText(page, PageCount(|lines|)), column, y, FOOTER_Y, true);
    } else {
      PlainByte(bits, column, y, true);
    }
  }
}
