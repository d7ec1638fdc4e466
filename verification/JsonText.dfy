/** JSON strings as a grammar of pieces (RFC 8259 section 7), shared by every decoder and encoder. */
module JsonText {
  import opened Bytes

  /** One unit of a string body: a plain byte, a two-byte escape, or an escape with four hex digits. */
  datatype Piece =
    | Plain(b: Byte)
    | Escape(c: Byte)
    | Unicode(h0: Byte, h1: Byte, h2: Byte, h3: Byte)

  function HexValue(b: Byte): (v: int)
    ensures -1 <= v < 16
  {
    if 0x30 <= b <= 0x39 then b - 0x30
    else if 0x61 <= b <= 0x66 then b - 0x61 + 10
    else if 0x41 <= b <= 0x46 then b - 0x41 + 10
    else -1
  }

  predicate IsHex(b: Byte) { HexValue(b) >= 0 }

  /** What the byte after a backslash stands for, if it is one of the eight single-character escapes. */
  function Unescaped(c: Byte): Option<Byte> {
    match c
    case 0x22 => Some(0x22)
    case 0x5c => Some(0x5c)
    case 0x2f => Some(0x2f)
    case 0x62 => Some(0x08)
    case 0x66 => Some(0x0c)
    case 0x6e => Some(0x0a)
    case 0x72 => Some(0x0d)
    case 0x74 => Some(0x09)
    case _ => None
  }

  predicate Legal(p: Piece) {
    match p
    case Plain(b) => b >= 0x20 && b != QUOTE && b != BACKSLASH
    case Escape(c) => Unescaped(c).Some?
    case Unicode(h0, h1, h2, h3) => IsHex(h0) && IsHex(h1) && IsHex(h2) && IsHex(h3)
  }

  function Show(p: Piece): (s: seq<Byte>)
    ensures |s| >= 1
  {
    match p
    case Plain(b) => [b]
    case Escape(c) => [BACKSLASH, c]
    case Unicode(h0, h1, h2, h3) => [BACKSLASH, 0x75, h0, h1, h2, h3]
  }

  function ShowAll(ps: seq<Piece>): seq<Byte> {
    if ps == [] then [] else Show(ps[0]) + ShowAll(ps[1..])
  }

  /** A whole string token. */
  function Quoted(ps: seq<Piece>): seq<Byte> {
    [QUOTE] + ShowAll(ps) + [QUOTE]
  }

  function CodePoint(h0: Byte, h1: Byte, h2: Byte, h3: Byte): (cp: nat)
    requires IsHex(h0) && IsHex(h1) && IsHex(h2) && IsHex(h3)
    ensures cp < 0x10000
  {
    ((HexValue(h0) * 16 + HexValue(h1)) * 16 + HexValue(h2)) * 16 + HexValue(h3)
  }

  predicate IsSurrogate(cp: nat) { 0xd800 <= cp <= 0xdfff }

  /** RFC 3629 section 3, for the code points one escape can name. */
  function Utf8(cp: nat): (s: seq<Byte>)
    requires cp < 0x10000
    ensures 1 <= |s| <= 3
  {
    if cp <= 0x7f then [cp]
    else if cp <= 0x7ff then [0xc0 + cp / 64, 0x80 + cp % 64]
    else [0xe0 + cp / 4096, 0x80 + cp / 64 % 64, 0x80 + cp % 64]
  }

  /**
   * The bytes the decoders make of a piece. A surrogate becomes a question mark, whether it stands alone or is half of
   * a pair that names one character; `RfcText` is the text RFC 8259 gives a body.
   */
  function Meaning(p: Piece): (s: seq<Byte>)
    requires Legal(p)
    ensures 1 <= |s| <= |Show(p)|
  {
    match p
    case Plain(b) => [b]
    case Escape(c) => [Unescaped(c).value]
    case Unicode(h0, h1, h2, h3) =>
      var cp := CodePoint(h0, h1, h2, h3);
      if IsSurrogate(cp) then [QUESTION] else Utf8(cp)
  }

  predicate AllLegal(ps: seq<Piece>) {
    forall i :: 0 <= i < |ps| ==> Legal(ps[i])
  }

  function MeaningAll(ps: seq<Piece>): (s: seq<Byte>)
    requires AllLegal(ps)
    ensures |ps| <= |s| <= |ShowAll(ps)|
    ensures ps != [] ==> s != []
  {
    if ps == [] then [] else Meaning(ps[0]) + MeaningAll(ps[1..])
  }

  /** Reading an encoding back by the bit distribution of RFC 3629 section 3. */
  function FromUtf8(s: seq<Byte>): int
    requires 1 <= |s| <= 3
  {
    var b0: int := s[0];
    if |s| == 1 then b0
    else
      var b1: int := s[1];
      if |s| == 2 then (b0 - 0xc0) * 64 + (b1 - 0x80)
      else
        var b2: int := s[2];
        (b0 - 0xe0) * 4096 + (b1 - 0x80) * 64 + (b2 - 0x80)
  }

  /** The encoding of a code point names that code point, in the fewest bytes, with proper lead and tail bytes. */
  lemma Utf8IsRfc3629(cp: nat)
    requires cp < 0x10000
    ensures FromUtf8(Utf8(cp)) == cp
    ensures |Utf8(cp)| == 1 <==> Utf8(cp)[0] < 0x80
    ensures |Utf8(cp)| == 2 <==> 0xc2 <= Utf8(cp)[0] < 0xe0
    ensures |Utf8(cp)| == 3 <==> 0xe0 <= Utf8(cp)[0] < 0xf0
    ensures forall i :: 1 <= i < |Utf8(cp)| ==> 0x80 <= Utf8(cp)[i] < 0xc0
  {
    assert cp / 4096 == cp / 64 / 64;
  }

  // ---- encoding ----

  function HexDigit(v: nat): (b: Byte)
    requires v < 16
    ensures IsHex(b) && HexValue(b) == v
  {
    if v < 10 then 0x30 + v else 0x61 + v - 10
  }

  /** The piece both encoders choose for a byte. */
  function PieceOf(b: Byte): (p: Piece)
    ensures Legal(p)
  {
    match b
    case 0x22 => Escape(0x22)
    case 0x5c => Escape(0x5c)
    case 0x08 => Escape(0x62)
    case 0x0c => Escape(0x66)
    case 0x0a => Escape(0x6e)
    case 0x0d => Escape(0x72)
    case 0x09 => Escape(0x74)
    case _ => if b < 0x20 then Unicode(0x30, 0x30, HexDigit(b / 16), HexDigit(b % 16)) else Plain(b)
  }

  function PiecesOf(text: seq<Byte>): (ps: seq<Piece>)
    ensures |ps| == |text|
    ensures AllLegal(ps)
  {
    if text == [] then [] else [PieceOf(text[0])] + PiecesOf(text[1..])
  }

  function Encode(text: seq<Byte>): seq<Byte> { Quoted(PiecesOf(text)) }

  lemma {:induction false} PiecesMeanTheText(text: seq<Byte>)
    ensures MeaningAll(PiecesOf(text)) == text
  {
    hide Meaning, PieceOf;
    if text == [] {
    } else {
      PiecesMeanTheText(text[1..]);
      assert PiecesOf(text)[1..] == PiecesOf(text[1..]);
      PieceMeansByte(text[0]);
    }
  }

  lemma PieceMeansByte(b: Byte)
    ensures Meaning(PieceOf(b)) == [b]
  {
  }

  lemma {:induction false} ShowAllAppend(a: seq<Piece>, b: seq<Piece>)
    ensures ShowAll(a + b) == ShowAll(a) + ShowAll(b)
  {
    if a == [] {
      assert a + b == b;
    } else {
      assert (a + b)[1..] == a[1..] + b;
      ShowAllAppend(a[1..], b);
    }
  }

  lemma {:induction false} PiecesOfAppend(a: seq<Byte>, b: seq<Byte>)
    ensures PiecesOf(a + b) == PiecesOf(a) + PiecesOf(b)
  {
    if a == [] {
      assert a + b == b;
    } else {
      assert (a + b)[1..] == a[1..] + b;
      PiecesOfAppend(a[1..], b);
    }
  }

  lemma ShowNext(text: seq<Byte>, k: nat)
    requires k < |text|
    ensures ShowAll(PiecesOf(text[..k + 1])) == ShowAll(PiecesOf(text[..k])) + Show(PieceOf(text[k]))
  {
    assert text[..k + 1] == text[..k] + [text[k]];
    PiecesOfAppend(text[..k], [text[k]]);
    ShowAllAppend(PiecesOf(text[..k]), PiecesOf([text[k]]));
    var one := [PieceOf(text[k])];
    assert PiecesOf([text[k]]) == one;
    assert ShowAll(one) == Show(one[0]) + ShowAll(one[1..]);
  }

  /** Encoding loses nothing: distinct texts have distinct encodings, and no encoding holds a bare quote. */
  lemma EncodeInjective(a: seq<Byte>, b: seq<Byte>)
    requires Encode(a) == Encode(b)
    ensures a == b
  {
    var x, y := ShowAll(PiecesOf(a)), ShowAll(PiecesOf(b));
    assert |x| == |Encode(a)| - 2 && |y| == |Encode(b)| - 2;
    assert x == Encode(a)[1..|Encode(a)| - 1];
    assert y == Encode(b)[1..|Encode(b)| - 1];
    ShowAllInjective(PiecesOf(a), PiecesOf(b));
    PiecesMeanTheText(a);
    PiecesMeanTheText(b);
  }

  /** The grammar is unambiguous. */
  lemma {:induction false} ShowAllInjective(a: seq<Piece>, b: seq<Piece>)
    requires AllLegal(a) && AllLegal(b) && ShowAll(a) == ShowAll(b)
    ensures a == b
  {
    if a != [] && b != [] {
      var s := ShowAll(a);
      assert s == Show(a[0]) + ShowAll(a[1..]) == Show(b[0]) + ShowAll(b[1..]);
      assert s[0] == Show(a[0])[0] == Show(b[0])[0];
      if s[0] == BACKSLASH {
        assert s[1] == Show(a[0])[1] == Show(b[0])[1];
      }
      assert |Show(a[0])| == |Show(b[0])|;
      assert Show(a[0]) == s[..|Show(a[0])|] == Show(b[0]);
      assert Show(a[0])[0] == Show(b[0])[0];
      assert a[0] == b[0] by {
        if a[0].Unicode? {
          assert Show(a[0])[2] == Show(b[0])[2] && Show(a[0])[3] == Show(b[0])[3];
          assert Show(a[0])[4] == Show(b[0])[4] && Show(a[0])[5] == Show(b[0])[5];
        }
      }
      assert ShowAll(a[1..]) == s[|Show(a[0])|..] == ShowAll(b[1..]);
      ShowAllInjective(a[1..], b[1..]);
      assert a == [a[0]] + a[1..] && b == [b[0]] + b[1..];
    }
  }
}
