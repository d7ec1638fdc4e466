/** One page of text as pixels (runtime/einkctl.c, lines 415-482). */
module PageRenderer {
  import opened Bytes
  import opened Framebuffer
  import opened LineWrapper
  import opened TextLines
  import TextSanitizer

  const BODY_X: nat := 8
  const BODY_Y: nat := 32
  const BODY_BOTTOM: nat := 448
  const TEXT_ROWS: nat := 26
  const HEADER_HEIGHT: nat := 24
  const TITLE_Y: nat := 4
  const TITLE_COLUMNS: nat := 96
  const FOOTER_Y: nat := 460
  const FOOTER_COLUMNS: nat := 63

  function FooterText(page: nat, pages: nat): CString {
    var name := Ascii("fx on Linux / ") + Ascii("ESP32-S3") + TextSanitizer.Spaces(20) + Ascii("page ");
    var text := name + Decimal(page + 1) + [0x2f] + Decimal(pages);
    text[..Min(|text|, FOOTER_COLUMNS)]
  }

  function TitleText(title: CString): CString { title[..Min(|title|, TITLE_COLUMNS)] }

  function PageCount(lines: nat): nat { (lines + TEXT_ROWS - 1) / TEXT_ROWS }

  // ---- what a page looks like ----

  /** Ink of a line of characters, at a column counted from the left edge of the first one. */
  predicate InkAt(font: Font, text: seq<Byte>, x: int, row: int)
    requires 0 <= row < FONT_HEIGHT
  {
    0 <= x < FONT_WIDTH * |text| && Ink(font, text[x / FONT_WIDTH], x % FONT_WIDTH, row)
  }

  /** White title on a black bar. */
  predicate HeaderPixel(font: Font, title: CString, px: int, py: int) {
    TITLE_Y <= py < TITLE_Y + FONT_HEIGHT && InkAt(font, TitleText(title), px - BODY_X, py - TITLE_Y)
  }

  /** Black characters on white, a line of the document every sixteen rows, as many as there are from `first`. */
  predicate BodyPixel(font: Font, lines: seq<seq<Byte>>, first: nat, px: int, py: int)
    requires py >= BODY_Y
  {
    var row := (py - BODY_Y) / FONT_HEIGHT;
    first + row < |lines| ==> !InkAt(font, lines[first + row], px - BODY_X, (py - BODY_Y) % FONT_HEIGHT)
  }

  /** Whether a pixel of a page is white. */
  predicate PagePixel(font: Font, title: CString, lines: seq<seq<Byte>>, page: nat, px: int, py: int) {
    if py < HEADER_HEIGHT then HeaderPixel(font, title, px, py)
    else if py == HEADER_HEIGHT || py == BODY_BOTTOM + 7 then false
    else if BODY_Y <= py < BODY_BOTTOM then BodyPixel(font, lines, page * TEXT_ROWS, px, py)
    else if FOOTER_Y <= py < FOOTER_Y + FONT_HEIGHT then
      !InkAt(font, FooterText(page, PageCount(|lines|)), px - BODY_X, py - FOOTER_Y)
    else true
  }

  // ---- drawing it ----

  /** Text drawn over a plain background of the opposite colour is its ink and nothing else. */
  lemma TextOnPlain(font: Font, text: seq<Byte>, x: int, y: int, black: bool, solid: bool, px: int, py: int)
    ensures TextPixel(font, text, x, y, black, solid, px, py, black)
         == if y <= py < y + FONT_HEIGHT && InkAt(font, text, px - x, py - y) then !black else black
  {
    hide Ink;
  }

  method Clear(framebuffer: array<bv8>)
    requires framebuffer.Length == FRAMEBUFFER_BYTES
    modifies framebuffer
    ensures forall px, py :: OnPanel(px, py) ==> White(framebuffer[..], px, py)
  {
    for i := 0 to FRAMEBUFFER_BYTES
      invariant forall k :: 0 <= k < i ==> framebuffer[k] == 0xff
    {
      framebuffer[i] := 0xff;
    }
    forall px, py | OnPanel(px, py) ensures White(framebuffer[..], px, py) {
      OwnBit(px, py, px, py);
      AllBits(px % 8);
    }
  }

  lemma AllBits(column: nat)
    requires column < 8
    ensures Bit(0xff, column)
  {
  }

  predicate HeaderDone(font: Font, title: CString, px: int, py: int) {
    if py < HEADER_HEIGHT then HeaderPixel(font, title, px, py) else py != HEADER_HEIGHT
  }

  method DrawHeader(framebuffer: array<bv8>, font: Font, title: CString)
    requires framebuffer.Length == FRAMEBUFFER_BYTES
    requires forall px, py :: OnPanel(px, py) ==> White(framebuffer[..], px, py)
    modifies framebuffer
    ensures forall px, py :: OnPanel(px, py) ==> White(framebuffer[..], px, py) == HeaderDone(font, title, px, py)
  {
    hide White, InkAt, TextPixel, TitleText;
    var text := title[..Min(|title|, TITLE_COLUMNS)];
    IsTitle(title);
    Rect(framebuffer, 0, 0, PANEL_WIDTH, HEADER_HEIGHT, true);
    forall px, py
      ensures TextPixel(font, text, BODY_X, TITLE_Y, false, true, px, py, false)
           == HeaderPixel(font, title, px, py)
      ensures py >= HEADER_HEIGHT ==> TextPixel(font, text, BODY_X, TITLE_Y, false, true, px, py, true)
    {
      TextOnPlain(font, text, BODY_X, TITLE_Y, false, true, px, py);
      TextElsewhere(font, text, BODY_X, TITLE_Y, false, true, px, py, true);
    }
    Text(framebuffer, font, BODY_X, TITLE_Y, text, false, true);
    Rect(framebuffer, 0, HEADER_HEIGHT, PANEL_WIDTH, 1, true);
  }

  lemma IsTitle(title: CString)
    ensures TitleText(title) == title[..Min(|title|, TITLE_COLUMNS)]
  {
  }

  lemma TextElsewhere(font: Font, text: seq<Byte>, x: int, y: int, black: bool, solid: bool,
    px: int, py: int, before: bool)
    ensures !(y <= py < y + FONT_HEIGHT) ==> TextPixel(font, text, x, y, black, solid, px, py, before) == before
  {
  }

  predicate BodyDone(font: Font, title: CString, lines: seq<seq<Byte>>, first: nat, rows: nat, px: int, py: int) {
    if BODY_Y <= py < BODY_Y + FONT_HEIGHT * rows then BodyPixel(font, lines, first, px, py)
    else HeaderDone(font, title, px, py)
  }

  /** Drawing line `first + row` completes the rows it is on. */
  lemma BodyGrows(font: Font, title: CString, lines: seq<seq<Byte>>, first: nat, row: nat, px: int, py: int)
    requires first + row < |lines|
    ensures TextPixel(font, lines[first + row], BODY_X, BODY_Y + row * FONT_HEIGHT, true, false, px, py,
                      BodyDone(font, title, lines, first, row, px, py))
         == BodyDone(font, title, lines, first, row + 1, px, py)
  {
    hide InkAt, HeaderPixel, TextPixel;
    var y := BODY_Y + row * FONT_HEIGHT;
    if y <= py < y + FONT_HEIGHT {
      TextOnPlainWhite(font, lines[first + row], BODY_X, y, px, py);
    } else {
      TextElsewhere(font, lines[first + row], BODY_X, y, true, false, px, py,
                    BodyDone(font, title, lines, first, row, px, py));
    }
  }

  lemma TextOnPlainWhite(font: Font, text: seq<Byte>, x: int, y: int, px: int, py: int)
    ensures TextPixel(font, text, x, y, true, false, px, py, true)
         == !(y <= py < y + FONT_HEIGHT && InkAt(font, text, px - x, py - y))
  {
    hide Framebuffer.Ink;
  }

  method DrawBody(framebuffer: array<bv8>, font: Font, ghost title: CString,
    lines: seq<seq<Byte>>, first: nat, visible: nat)
    requires framebuffer.Length == FRAMEBUFFER_BYTES && first + visible <= |lines|
    requires forall px, py :: OnPanel(px, py) ==> White(framebuffer[..], px, py) == HeaderDone(font, title, px, py)
    modifies framebuffer
    ensures forall px, py :: OnPanel(px, py) ==>
              White(framebuffer[..], px, py) == BodyDone(font, title, lines, first, visible, px, py)
  {
    hide White, BodyPixel, HeaderDone, TextPixel;
    var row := 0;
    while row < visible
      invariant 0 <= row <= visible
      invariant forall px, py :: OnPanel(px, py) ==>
                  White(framebuffer[..], px, py) == BodyDone(font, title, lines, first, row, px, py)
    {
      forall px, py
        ensures TextPixel(font, lines[first + row], BODY_X, BODY_Y + row * FONT_HEIGHT, true, false, px, py,
                          BodyDone(font, title, lines, first, row, px, py))
             == BodyDone(font, title, lines, first, row + 1, px, py)
      {
        BodyGrows(font, title, lines, first, row, px, py);
      }
      Text(framebuffer, font, BODY_X, BODY_Y + row * FONT_HEIGHT, lines[first + row], true, false);
      row := row + 1;
    }
  }

  method DrawFooter(framebuffer: array<bv8>, font: Font, ghost title: CString, ghost lines: seq<seq<Byte>>, page: nat,
                    ghost visible: nat, pages: nat)
    requires framebuffer.Length == FRAMEBUFFER_BYTES && pages == PageCount(|lines|) && page < pages
    requires visible == Min(|lines| - page * TEXT_ROWS, TEXT_ROWS)
    requires forall px, py :: OnPanel(px, py) ==>
               White(framebuffer[..], px, py) == BodyDone(font, title, lines, page * TEXT_ROWS, visible, px, py)
    modifies framebuffer
    ensures forall px, py :: OnPanel(px, py) ==>
              White(framebuffer[..], px, py) == PagePixel(font, title, lines, page, px, py)
  {
    hide White, FooterText, TextPixel, PagePixel, BodyDone, PageCount, OnPanel;
    var footer := FooterText(page, pages);
    ghost var first := page * TEXT_ROWS;
    Rect(framebuffer, 0, BODY_BOTTOM + 7, PANEL_WIDTH, 1, true);
    forall px, py | OnPanel(px, py)
      ensures TextPixel(font, footer, BODY_X, FOOTER_Y, true, false, px, py,
                        if InRect(px, py, 0, BODY_BOTTOM + 7, PANEL_WIDTH, 1) then false
                        else BodyDone(font, title, lines, first, visible, px, py))
           == PagePixel(font, title, lines, page, px, py)
    {
      FooterCompletes(font, title, lines, page, visible, px, py);
    }
    Text(framebuffer, font, BODY_X, FOOTER_Y, footer, true, false);
  }

  lemma FooterCompletes(font: Font, title: CString, lines: seq<seq<Byte>>, page: nat, visible: nat, px: int, py: int)
    requires OnPanel(px, py) && page < PageCount(|lines|) && visible == Min(|lines| - page * TEXT_ROWS, TEXT_ROWS)
    ensures TextPixel(font, FooterText(page, PageCount(|lines|)), BODY_X, FOOTER_Y, true, false, px, py,
                      if InRect(px, py, 0, BODY_BOTTOM + 7, PANEL_WIDTH, 1) then false
                      else BodyDone(font, title, lines, page * TEXT_ROWS, visible, px, py))
         == PagePixel(font, title, lines, page, px, py)
  {
    hide FooterText, TextPixel, HeaderPixel, InkAt;
    var footer := FooterText(page, PageCount(|lines|));
    if FOOTER_Y <= py < FOOTER_Y + FONT_HEIGHT {
      TextOnPlainWhite(font, footer, BODY_X, FOOTER_Y, px, py);
    } else {
      TextElsewhere(font, footer, BODY_X, FOOTER_Y, true, false, px, py, false);
      TextElsewhere(font, footer, BODY_X, FOOTER_Y, true, false, px, py, true);
      TextElsewhere(font, footer, BODY_X, FOOTER_Y, true, false, px, py, HeaderDone(font, title, px, py));
    }
  }

  // ---- the whole page ----

  datatype Rendered = Page(pages: nat) | OutOfRange | OutOfMemory

  /** The lines of a document. */
  function DocumentLines(input: seq<Byte>): seq<seq<Byte>> { Wrapped(TextSanitizer.Sanitized(input)) }

  method RenderText(framebuffer: array<bv8>, font: Font, input: seq<Byte>, title: CString, page: nat, limit: nat)
    returns (r: Rendered)
    requires framebuffer.Length == FRAMEBUFFER_BYTES
    modifies framebuffer
    ensures r.Page? ==> r.pages == PageCount(|DocumentLines(input)|) && page < r.pages
    ensures r.Page? ==> forall px, py :: OnPanel(px, py) ==>
                          White(framebuffer[..], px, py) == PagePixel(font, title, DocumentLines(input), page, px, py)
    ensures r.OutOfRange? ==> page >= PageCount(|DocumentLines(input)|)
    ensures r.OutOfMemory? ==> limit < Max(4 * |input| + 1, Room(|DocumentLines(input)|) * LINE_BYTES)
    ensures !r.Page? ==> framebuffer[..] == old(framebuffer[..])
  {
    hide White, HeaderDone, BodyDone, PagePixel, OnPanel, Wrapped, TextSanitizer.Clean;
    if 4 * |input| + 1 > limit {
      return OutOfMemory;
    }
    var sanitized := new Byte[4 * |input| + 1];
    var length := TextSanitizer.SanitizeText(input, sanitized);
    TextSanitizer.SanitizedIsClean(input);
    CleanIsNulFree(sanitized[..length]);
    var table := new LineTable(limit);
    var ok := WrapText(sanitized[..length], table);
    if !ok {
      return OutOfMemory;
    }
    LineCount(sanitized[..length]);
    var pages := (table.count + TEXT_ROWS - 1) / TEXT_ROWS;
    if pages == 0 {
      pages := 1;
    }
    if page >= pages {
      return OutOfRange;
    }
    var lines := table.Read();
    Clear(framebuffer);
    DrawHeader(framebuffer, font, title);
    var firstLine := page * TEXT_ROWS;
    var visible := |lines| - firstLine;
    if visible > TEXT_ROWS {
      visible := TEXT_ROWS;
    }
    DrawBody(framebuffer, font, title, lines, firstLine, visible);
    DrawFooter(framebuffer, font, title, lines, page, visible, pages);
    r := Page(pages);
  }

  lemma CleanIsNulFree(s: seq<Byte>)
    requires TextSanitizer.Clean(s)
    ensures 0 !in s
  {
  }
}
