/** The escape table, the hex digits and the unescaped bytes of section 7 of RFC 8259, as characters. */
module RfcEscapes {
  import opened Bytes
  import opened JsonText
  import opened JsonStrings

  /** The letters an escape may have, and beside each the byte it stands for. */
  const LETTERS: seq<Byte> := Ascii("\"\\/bfnrt")
  const MEANT: seq<Byte> := [0x22, 0x5c, 0x2f, 0x08, 0x0c, 0x0a, 0x0d, 0x09]

  const LOWER: seq<Byte> := Ascii("0123456789abcdef")
  const UPPER: seq<Byte> := Ascii("0123456789ABCDEF")

  /** The bytes that have a name are the characters they are named after. */
  lemma NamedBytes()
    ensures [TAB, NEWLINE, RETURN, SPACE, QUOTE, COMMA, COLON, QUESTION, BACKSLASH] == Ascii("\t\n\r \",:?\\")
  {
  }

  /** The eight escapes mean what the RFC says, and there are no others. */
  lemma EscapesAreRfc8259(c: Byte)
    ensures |LETTERS| == |MEANT| == 8
    ensures forall i :: 0 <= i < 8 ==> Unescaped(LETTERS[i]) == Some(MEANT[i])
    ensures Unescaped(c).Some? <==> c in LETTERS
  {
    LettersAre();
  }

  lemma LettersAre()
    ensures LETTERS == [0x22, 0x5c, 0x2f, 0x62, 0x66, 0x6e, 0x72, 0x74]
  {
  }

  lemma DigitsAre()
    ensures LOWER == [0x30, 0x31, 0x32, 0x33, 0x34, 0x35, 0x36, 0x37, 0x38, 0x39, 0x61, 0x62, 0x63, 0x64, 0x65, 0x66]
    ensures UPPER == [0x30, 0x31, 0x32, 0x33, 0x34, 0x35, 0x36, 0x37, 0x38, 0x39, 0x41, 0x42, 0x43, 0x44, 0x45, 0x46]
  {
  }

  /** A hex digit, in either case, has its place among the sixteen as its value, and nothing else is one. */
  lemma HexDigitsAre(b: Byte)
    ensures |LOWER| == |UPPER| == 16
    ensures forall v :: 0 <= v < 16 ==> HexValue(LOWER[v]) == v && HexValue(UPPER[v]) == v
    ensures IsHex(b) <==> b in LOWER || b in UPPER
  {
    DigitsAre();
    if IsHex(b) {
      assert b == LOWER[HexValue(b)] || b == UPPER[HexValue(b)];
    }
  }

  /** A digit of value `v`, in either case. */
  predicate IsDigitOf(b: Byte, v: nat) {
    v < 16 && |LOWER| == |UPPER| == 16 && (b == LOWER[v] || b == UPPER[v])
  }

  lemma DigitValue(b: Byte, v: nat)
    requires IsDigitOf(b, v)
    ensures IsHex(b) && HexValue(b) == v
  {
    HexDigitsAre(b);
  }

  /** Four digits are a number in base sixteen, the first the most significant. */
  lemma FourDigitsName(h0: Byte, h1: Byte, h2: Byte, h3: Byte, cp: nat)
    requires cp < 0x10000
    requires IsDigitOf(h0, cp / 4096) && IsDigitOf(h1, cp / 256 % 16) && IsDigitOf(h2, cp / 16 % 16)
    requires IsDigitOf(h3, cp % 16)
    ensures IsHex(h0) && IsHex(h1) && IsHex(h2) && IsHex(h3) && CodePoint(h0, h1, h2, h3) == cp
  {
    hide HexValue, IsDigitOf;
    DigitValue(h0, cp / 4096);
    DigitValue(h1, cp / 256 % 16);
    DigitValue(h2, cp / 16 % 16);
    DigitValue(h3, cp % 16);
    assert cp / 256 == cp / 16 / 16 && cp / 4096 == cp / 256 / 16;
  }

  /** The bytes that may stand for themselves: no control, no quotation mark, no backslash. */
  lemma UnescapedBytes(b: Byte)
    ensures Legal(Plain(b)) <==> b >= 0x20 && b !in Ascii("\"\\")
    ensures Legal(Plain(b)) ==> Meaning(Plain(b)) == [b]
  {
    assert Ascii("\"\\") == [0x22, 0x5c];
  }

  /** The token of one escape, read by any of the decoders that take it: its byte, and the end of the token. */
  lemma EscapeDecoded(r: Reader, i: nat)
    requires i < 8
    ensures |LETTERS| == |MEANT| == 8
    ensures Legal(Escape(LETTERS[i]))
    ensures DecodeString(r, [QUOTE, BACKSLASH, LETTERS[i], QUOTE], 0)
         == if Accepts(r, [], Escape(LETTERS[i])) then Good([MEANT[i]], 4) else Bad
    ensures (r.Client? && r.limit > 0) || r.Bridge? ==> Accepts(r, [], Escape(LETTERS[i]))
    ensures r.Tool? && r.cap > 1 ==> (Accepts(r, [], Escape(LETTERS[i])) <==> LETTERS[i] !in Ascii("bf"))
  {
    EscapesAreRfc8259(LETTERS[i]);
    LettersAre();
    assert Ascii("bf") == [0x62, 0x66];
    var s, body := [QUOTE, BACKSLASH, LETTERS[i], QUOTE], [Escape(LETTERS[i])];
    assert ShowAll(body) == [BACKSLASH, LETTERS[i]];
    assert Holds(s, 0, Quoted(body));
    DecodesQuoted(r, s, 0, body);
    assert MeaningAll(body) == [MEANT[i]];
    assert AcceptsAll(r, [], body) <==> Accepts(r, [], body[0]);
  }

  /**
   * How the encoders write a byte: the controls that have a letter by it, other controls as four lower-case digits,
   * the quotation mark and the backslash behind a backslash, and anything else, the slash included, as it is.
   */
  lemma EncodedAs(b: Byte)
    ensures |LOWER| == 16 && |LETTERS| == |MEANT| == 8
    ensures forall i :: 0 <= i < 8 && i != 2 ==> Show(PieceOf(MEANT[i])) == [BACKSLASH, LETTERS[i]]
    ensures b < 0x20 && b !in MEANT ==> Show(PieceOf(b)) == [BACKSLASH] + Ascii("u00") + [LOWER[b / 16], LOWER[b % 16]]
    ensures b >= 0x20 && b !in Ascii("\"\\") ==> Show(PieceOf(b)) == [b]
  {
    hide PieceOf, HexDigit;
    LettersAre();
    LowerDigit(0);
    assert Ascii("u00") == [0x75, 0x30, 0x30] && Ascii("\"\\") == [QUOTE, BACKSLASH];
    PiecesChosen(b);
    if b < 0x20 && b !in MEANT {
      assert MEANT[3] == 0x08 && MEANT[4] == 0x0c && MEANT[5] == 0x0a && MEANT[6] == 0x0d && MEANT[7] == 0x09;
      LowerDigit(b / 16);
      LowerDigit(b % 16);
    }
  }

  lemma PiecesChosen(b: Byte)
    ensures PieceOf(0x22) == Escape(0x22) && PieceOf(0x5c) == Escape(0x5c)
    ensures PieceOf(0x08) == Escape(0x62) && PieceOf(0x0c) == Escape(0x66) && PieceOf(0x0a) == Escape(0x6e)
    ensures PieceOf(0x0d) == Escape(0x72) && PieceOf(0x09) == Escape(0x74)
    ensures b < 0x20 && b != 0x08 && b != 0x0c && b != 0x0a && b != 0x0d && b != 0x09 ==>
              PieceOf(b) == Unicode(0x30, 0x30, HexDigit(b / 16), HexDigit(b % 16))
    ensures b >= 0x20 && b != QUOTE && b != BACKSLASH ==> PieceOf(b) == Plain(b)
  {
  }

  lemma LowerDigit(v: nat)
    requires v < 16
    ensures |LOWER| == 16 && HexDigit(v) == LOWER[v]
  {
    DigitsAre();
  }

  /** No decoder takes a string with a control byte between its quotation marks. */
  lemma NoControlsTaken(r: Reader, s: seq<Byte>, p: nat)
    requires p <= |s| && DecodeString(r, s, p).Good?
    ensures forall i :: p <= i < DecodeString(r, s, p).end ==> s[i] >= 0x20
  {
    var body := AcceptedToken(r, s, p);
    ShownHasNoControls(body);
    HoldsIndex(s, p, Quoted(body));
    forall i | p <= i < DecodeString(r, s, p).end ensures s[i] >= 0x20 {
      assert s[p + (i - p)] == Quoted(body)[i - p];
    }
  }

  lemma {:induction false} ShownHasNoControls(body: seq<Piece>)
    requires AllLegal(body)
    ensures forall i :: 0 <= i < |ShowAll(body)| ==> ShowAll(body)[i] >= 0x20
    decreases |body|
  {
    if body != [] {
      ShownHasNoControls(body[1..]);
      PieceHasNoControls(body[0]);
    }
  }

  lemma PieceHasNoControls(p: Piece)
    requires Legal(p)
    ensures forall i :: 0 <= i < |Show(p)| ==> Show(p)[i] >= 0x20
  {
  }
}
