/**
 * What the three JSON string decoders of the repository compute, as one reading of the grammar. They
 * differ only in which pieces they accept and in how much text they are willing to hold.
 */
module JsonStrings {
  import opened Bytes
  import opened JsonText

  datatype Decoded = Bad | Good(text: seq<Byte>, end: nat)

  /**
   * Client: decode_json_string of runtime/fx_eink.c, whose buffer holds at most `limit` bytes.
   * Bridge: parse_json_string of runtime/fx_wamr_native.c, which refuses surrogates.
   * Tool: string_value of runtime/fx_example_tools.c, for ASCII text in an array of `cap` bytes.
   */
  datatype Reader = Client(limit: nat) | Bridge | Tool(cap: nat)

  /** The text values that the tool decoder lets through: tab, newline, return and 0x20 to 0x7e. */
  predicate IsToolByte(b: Byte) {
    b == TAB || b == NEWLINE || b == RETURN || 0x20 <= b <= 0x7e
  }

  predicate Accepts(r: Reader, held: seq<Byte>, piece: Piece)
    requires Legal(piece)
  {
    match r
    case Client(limit) => |held| + |Meaning(piece)| <= limit
    case Bridge => piece.Unicode? ==> !IsSurrogate(CodePoint(piece.h0, piece.h1, piece.h2, piece.h3))
    case Tool(cap) =>
      && |held| + 1 < cap
      && (match piece
          case Plain(b) => b <= 0x7e
          case Escape(c) => c != 0x62 && c != 0x66
          case Unicode(h0, h1, h2, h3) => CodePoint(h0, h1, h2, h3) <= 0x7e && IsToolByte(CodePoint(h0, h1, h2, h3)))
  }

  predicate HexesAt(s: seq<Byte>, p: nat) {
    p + 4 <= |s| && IsHex(s[p]) && IsHex(s[p + 1]) && IsHex(s[p + 2]) && IsHex(s[p + 3])
  }

  /** The legal piece at a position, if there is one. */
  function ReadPiece(s: seq<Byte>, p: nat): (r: Option<Piece>)
    requires p < |s| && s[p] != QUOTE
  {
    if s[p] < 0x20 then None
    else if s[p] != BACKSLASH then Some(Plain(s[p]))
    else if p + 1 == |s| then None
    else if s[p + 1] == 0x75 then
      if HexesAt(s, p + 2) then Some(Unicode(s[p + 2], s[p + 3], s[p + 4], s[p + 5])) else None
    else if Unescaped(s[p + 1]).Some? then Some(Escape(s[p + 1]))
    else None
  }

  lemma ReadPieceIsThere(s: seq<Byte>, p: nat)
    requires p < |s| && s[p] != QUOTE && ReadPiece(s, p).Some?
    ensures Legal(ReadPiece(s, p).value)
    ensures Holds(s, p, Show(ReadPiece(s, p).value))
  {
    var piece := ReadPiece(s, p).value;
    assert s[p..p + |Show(piece)|] == Show(piece);
  }

  lemma ReadPieceFinds(s: seq<Byte>, p: nat, piece: Piece)
    requires Legal(piece) && Holds(s, p, Show(piece))
    ensures s[p] != QUOTE && ReadPiece(s, p) == Some(piece)
  {
    HoldsIndex(s, p, Show(piece));
    assert s[p + 0] == Show(piece)[0];
    if !piece.Plain? {
      assert s[p + 1] == Show(piece)[1];
    }
    if piece.Unicode? {
      assert s[p + 2] == piece.h0 && s[p + 3] == piece.h1;
      assert s[p + 4] == piece.h2 && s[p + 5] == piece.h3;
    }
  }

  /** Decoding from inside a string, with `held` already decoded. */
  function DecodeBody(r: Reader, s: seq<Byte>, p: nat, held: seq<Byte>): Decoded
    requires p <= |s|
    decreases |s| - p
  {
    if p == |s| then Bad
    else if s[p] == QUOTE then Good(held, p + 1)
    else
      match ReadPiece(s, p)
      case None => Bad
      case Some(piece) =>
        ReadPieceIsThere(s, p);
        if Accepts(r, held, piece) then DecodeBody(r, s, p + |Show(piece)|, held + Meaning(piece)) else Bad
  }

  lemma {:induction false} DecodeStays(r: Reader, s: seq<Byte>, p: nat, held: seq<Byte>)
    requires p <= |s|
    ensures var d := DecodeBody(r, s, p, held); d.Good? ==> p < d.end <= |s|
    decreases |s| - p
  {
    if p < |s| && s[p] != QUOTE && ReadPiece(s, p).Some? {
      ReadPieceIsThere(s, p);
      var piece := ReadPiece(s, p).value;
      DecodeStays(r, s, p + |Show(piece)|, held + Meaning(piece));
    }
  }

  function DecodeString(r: Reader, s: seq<Byte>, p: nat): (d: Decoded)
    requires p <= |s|
    ensures d.Good? ==> p < d.end <= |s|
  {
    if p == |s| || s[p] != QUOTE then Bad
    else
      DecodeStays(r, s, p + 1, []);
      DecodeBody(r, s, p + 1, [])
  }

  lemma DecodeStep(r: Reader, s: seq<Byte>, p: nat, held: seq<Byte>, piece: Piece)
    requires Legal(piece) && Holds(s, p, Show(piece))
    ensures DecodeBody(r, s, p, held)
         == if Accepts(r, held, piece) then DecodeBody(r, s, p + |Show(piece)|, held + Meaning(piece)) else Bad
  {
    ReadPieceFinds(s, p, piece);
  }

  /** One turn of a decoding loop, seen from the specification. */
  lemma DecodeTurn(r: Reader, s: seq<Byte>, p: nat, held: seq<Byte>)
    requires p < |s| && s[p] != QUOTE
    ensures match ReadPiece(s, p)
            case None => DecodeBody(r, s, p, held) == Bad
            case Some(piece) =>
              && Legal(piece) && p + |Show(piece)| <= |s|
              && DecodeBody(r, s, p, held)
                 == if Accepts(r, held, piece) then DecodeBody(r, s, p + |Show(piece)|, held + Meaning(piece)) else Bad
  {
    if ReadPiece(s, p).Some? {
      ReadPieceIsThere(s, p);
    }
  }

  /** The four-digit loop of a `\u` escape, which all three decoders run. */
  method FourHexDigits(s: seq<Byte>, p: nat) returns (ok: bool, codepoint: nat)
    requires p <= |s|
    ensures ok <==> HexesAt(s, p)
    ensures ok ==> codepoint == CodePoint(s[p], s[p + 1], s[p + 2], s[p + 3])
  {
    codepoint := 0;
    var i := 0;
    while i < 4
      invariant 0 <= i <= 4 && p + i <= |s|
      invariant i >= 1 ==> IsHex(s[p])
      invariant i >= 2 ==> IsHex(s[p + 1])
      invariant i >= 3 ==> IsHex(s[p + 2])
      invariant i >= 4 ==> IsHex(s[p + 3])
      invariant codepoint == match i
                             case 0 => 0
                             case 1 => HexValue(s[p])
                             case 2 => HexValue(s[p]) * 16 + HexValue(s[p + 1])
                             case 3 => (HexValue(s[p]) * 16 + HexValue(s[p + 1])) * 16 + HexValue(s[p + 2])
                             case _ => CodePoint(s[p], s[p + 1], s[p + 2], s[p + 3])
    {
      if p + i == |s| || HexValue(s[p + i]) < 0 {
        return false, codepoint;
      }
      codepoint := codepoint * 16 + HexValue(s[p + i]);
      i := i + 1;
    }
    ok := true;
  }

  /** Every piece of a body is accepted in turn. */
  predicate AcceptsAll(r: Reader, held: seq<Byte>, body: seq<Piece>)
    requires AllLegal(body)
    decreases |body|
  {
    body == [] || (Accepts(r, held, body[0]) && AcceptsAll(r, held + Meaning(body[0]), body[1..]))
  }

  /** A body and, right behind it, its closing quote. */
  ghost predicate IsClosedBody(s: seq<Byte>, p: nat, body: seq<Piece>) {
    && AllLegal(body)
    && Holds(s, p, ShowAll(body))
    && p + |ShowAll(body)| < |s|
    && s[p + |ShowAll(body)|] == QUOTE
  }

  lemma ClosedBodyTail(s: seq<Byte>, p: nat, body: seq<Piece>)
    requires IsClosedBody(s, p, body) && body != []
    ensures Legal(body[0]) && AllLegal(body[1..])
    ensures Holds(s, p, Show(body[0])) && IsClosedBody(s, p + |Show(body[0])|, body[1..])
  {
    HoldsSplit(s, p, Show(body[0]), ShowAll(body[1..]));
  }

  lemma EmptyBodyDecodes(r: Reader, s: seq<Byte>, p: nat, held: seq<Byte>)
    requires IsClosedBody(s, p, [])
    ensures DecodeBody(r, s, p, held) == Good(held + MeaningAll([]), p + |ShowAll([])| + 1) && AcceptsAll(r, held, [])
  {
    assert held + [] == held;
  }

  lemma BodyUnfolds(r: Reader, held: seq<Byte>, body: seq<Piece>)
    requires AllLegal(body) && body != []
    ensures Legal(body[0]) && AllLegal(body[1..])
    ensures |ShowAll(body)| == |Show(body[0])| + |ShowAll(body[1..])|
    ensures MeaningAll(body) == Meaning(body[0]) + MeaningAll(body[1..])
    ensures AcceptsAll(r, held, body)
       <==> Accepts(r, held, body[0]) && AcceptsAll(r, held + Meaning(body[0]), body[1..])
  {
    hide Show, Meaning, Accepts;
  }

  lemma ClosedBodyIsLegal(s: seq<Byte>, p: nat, body: seq<Piece>)
    requires IsClosedBody(s, p, body)
    ensures AllLegal(body) && p + |ShowAll(body)| < |s|
  {
  }

  /** Completeness: a legal body before its closing quote is decoded to its meaning, whatever follows. */
  lemma {:induction false} DecodesBody(r: Reader, s: seq<Byte>, p: nat, body: seq<Piece>, held: seq<Byte>)
    requires IsClosedBody(s, p, body)
    ensures DecodeBody(r, s, p, held)
         == if AcceptsAll(r, held, body) then Good(held + MeaningAll(body), p + |ShowAll(body)| + 1) else Bad
    decreases |body|
  {
    hide *;
    ClosedBodyIsLegal(s, p, body);
    if body == [] {
      EmptyBodyDecodes(r, s, p, held);
    } else {
      BodyUnfolds(r, held, body);
      ClosedBodyTail(s, p, body);
      DecodeStep(r, s, p, held, body[0]);
      if Accepts(r, held, body[0]) {
        DecodesBody(r, s, p + |Show(body[0])|, body[1..], held + Meaning(body[0]));
        Assoc(held, Meaning(body[0]), MeaningAll(body[1..]));
      }
    }
  }

  lemma QuotedIsClosed(s: seq<Byte>, p: nat, body: seq<Piece>)
    requires AllLegal(body)
    ensures Holds(s, p, Quoted(body)) <==> p < |s| && s[p] == QUOTE && IsClosedBody(s, p + 1, body)
  {
    hide Holds, ShowAll, AllLegal;
    var shown := ShowAll(body);
    HoldsBoth(s, p, [QUOTE] + shown, [QUOTE]);
    HoldsBoth(s, p, [QUOTE], shown);
    OneByte(s, p, QUOTE);
    OneByte(s, p + 1 + |shown|, QUOTE);
  }

  lemma DecodesQuoted(r: Reader, s: seq<Byte>, p: nat, body: seq<Piece>)
    requires AllLegal(body) && Holds(s, p, Quoted(body))
    ensures DecodeString(r, s, p)
         == if AcceptsAll(r, [], body) then Good(MeaningAll(body), p + |Quoted(body)|) else Bad
  {
    QuotedIsClosed(s, p, body);
    DecodesBody(r, s, p + 1, body, []);
    assert [] + MeaningAll(body) == MeaningAll(body);
  }

  lemma ClosedBodyCons(r: Reader, s: seq<Byte>, p: nat, held: seq<Byte>, piece: Piece, rest: seq<Piece>)
    requires Legal(piece) && Holds(s, p, Show(piece)) && IsClosedBody(s, p + |Show(piece)|, rest)
    requires Accepts(r, held, piece) && AcceptsAll(r, held + Meaning(piece), rest)
    ensures IsClosedBody(s, p, [piece] + rest) && AcceptsAll(r, held, [piece] + rest)
  {
    var body := [piece] + rest;
    assert body[1..] == rest;
    HoldsJoin(s, p, Show(piece), ShowAll(rest));
  }

  lemma NothingShown(s: seq<Byte>, p: nat)
    requires p <= |s|
    ensures Holds(s, p, ShowAll([]))
  {
  }

  /** Soundness: whatever is accepted is a legal body, and every piece of it is acceptable. */
  lemma {:induction false} AcceptedBody(r: Reader, s: seq<Byte>, p: nat, held: seq<Byte>) returns (body: seq<Piece>)
    requires p <= |s| && DecodeBody(r, s, p, held).Good?
    ensures IsClosedBody(s, p, body) && AcceptsAll(r, held, body)
    decreases |s| - p
  {
    hide Show, Meaning, ReadPiece, Accepts, Holds;
    if s[p] == QUOTE {
      body := [];
      NothingShown(s, p);
    } else {
      ReadPieceIsThere(s, p);
      var piece := ReadPiece(s, p).value;
      var q := p + |Show(piece)|;
      var rest := AcceptedBody(r, s, q, held + Meaning(piece));
      body := [piece] + rest;
      ClosedBodyCons(r, s, p, held, piece, rest);
    }
  }

  ghost predicate IsToken(s: seq<Byte>, p: nat, body: seq<Piece>) {
    AllLegal(body) && Holds(s, p, Quoted(body))
  }

  lemma AcceptedToken(r: Reader, s: seq<Byte>, p: nat) returns (body: seq<Piece>)
    requires p <= |s| && DecodeString(r, s, p).Good?
    ensures IsToken(s, p, body) && AcceptsAll(r, [], body)
    ensures DecodeString(r, s, p) == Good(MeaningAll(body), p + |Quoted(body)|)
  {
    body := AcceptedBody(r, s, p + 1, []);
    QuotedIsClosed(s, p, body);
    DecodesQuoted(r, s, p, body);
  }

  /**
   * A decoder accepts exactly the legal string tokens made of pieces it accepts; its answer is the meaning
   * of the token and the position behind the closing quote.
   */
  lemma DecoderAcceptsExactly(r: Reader, s: seq<Byte>, p: nat, text: seq<Byte>, end: nat)
    requires p <= |s|
    ensures DecodeString(r, s, p) == Good(text, end)
       <==> exists body :: && IsToken(s, p, body)
                           && AcceptsAll(r, [], body)
                           && text == MeaningAll(body)
                           && end == p + |Quoted(body)|
  {
    if DecodeString(r, s, p) == Good(text, end) {
      var body := AcceptedToken(r, s, p);
      assert IsToken(s, p, body);
    }
    forall body | IsToken(s, p, body) && AcceptsAll(r, [], body)
      && text == MeaningAll(body) && end == p + |Quoted(body)|
      ensures DecodeString(r, s, p) == Good(text, end)
    {
      DecodesQuoted(r, s, p, body);
    }
  }

  // ---- what acceptance amounts to, reader by reader ----

  lemma {:induction false} ClientAcceptsWhatFits(limit: nat, held: seq<Byte>, body: seq<Piece>)
    requires AllLegal(body) && |held| <= limit
    ensures AcceptsAll(Client(limit), held, body) <==> |held| + |MeaningAll(body)| <= limit
    decreases |body|
  {
    if body != [] {
      if |held| + |Meaning(body[0])| <= limit {
        ClientAcceptsWhatFits(limit, held + Meaning(body[0]), body[1..]);
      }
    }
  }

  lemma {:induction false} BridgeAcceptsAllButSurrogates(held: seq<Byte>, body: seq<Piece>)
    requires AllLegal(body)
    ensures AcceptsAll(Bridge, held, body) <==> forall i :: 0 <= i < |body| ==> Accepts(Bridge, [], body[i])
    decreases |body|
  {
    if body != [] {
      BridgeAcceptsAllButSurrogates(held + Meaning(body[0]), body[1..]);
      assert forall i :: 0 < i < |body| ==> body[i] == body[1..][i - 1];
    }
  }

  lemma {:induction false} ToolTokens(cap: nat, held: seq<Byte>, body: seq<Piece>)
    requires AllLegal(body) && AcceptsAll(Tool(cap), held, body)
    ensures AcceptsAll(Bridge, held, body)
    ensures |MeaningAll(body)| == |body|
    ensures body != [] ==> |held| + |MeaningAll(body)| < cap
    ensures forall i :: 0 <= i < |MeaningAll(body)| ==> IsToolByte(MeaningAll(body)[i])
    decreases |body|
  {
    if body != [] {
      ToolTokens(cap, held + Meaning(body[0]), body[1..]);
      assert |Meaning(body[0])| == 1 && IsToolByte(Meaning(body[0])[0]);
    }
  }

  /**
   * Decoder agreement: whatever the narrow tool decoder accepts, the other two accept with the same text
   * and the same end, and that text is NUL-free ASCII shorter than the tool's array.
   */
  lemma DecodersAgree(cap: nat, limit: nat, s: seq<Byte>, p: nat)
    requires p <= |s| && 0 < cap <= limit + 1
    requires DecodeString(Tool(cap), s, p).Good?
    ensures DecodeString(Bridge, s, p) == DecodeString(Tool(cap), s, p)
    ensures DecodeString(Client(limit), s, p) == DecodeString(Tool(cap), s, p)
    ensures var text := DecodeString(Tool(cap), s, p).text;
            |text| < cap && forall i :: 0 <= i < |text| ==> IsToolByte(text[i])
  {
    var body := AcceptedToken(Tool(cap), s, p);
    ToolTokens(cap, [], body);
    DecodesQuoted(Tool(cap), s, p, body);
    DecodesQuoted(Bridge, s, p, body);
    DecodesQuoted(Client(limit), s, p, body);
    ClientAcceptsWhatFits(limit, [], body);
  }

  /** The bridge accepts nothing the client would decode differently, as long as the client's buffer suffices. */
  lemma BridgeAndClientAgree(limit: nat, s: seq<Byte>, p: nat)
    requires p <= |s| && DecodeString(Bridge, s, p).Good?
    ensures DecodeString(Client(limit), s, p)
         == if |DecodeString(Bridge, s, p).text| <= limit then DecodeString(Bridge, s, p) else Bad
  {
    var body := AcceptedToken(Bridge, s, p);
    DecodesQuoted(Client(limit), s, p, body);
    ClientAcceptsWhatFits(limit, [], body);
  }

  /** Round trip: both wide decoders recover any encoded text exactly and stop at its closing quote. */
  lemma EncodedTextRoundTrips(limit: nat, s: seq<Byte>, p: nat, text: seq<Byte>)
    requires Holds(s, p, Encode(text))
    ensures DecodeString(Bridge, s, p) == Good(text, p + |Encode(text)|)
    ensures DecodeString(Client(limit), s, p) == if |text| <= limit then Good(text, p + |Encode(text)|) else Bad
  {
    hide DecodeString, Holds, MeaningAll, ShowAll, AcceptsAll;
    var body := PiecesOf(text);
    PiecesMeanTheText(text);
    DecodesQuoted(Bridge, s, p, body);
    DecodesQuoted(Client(limit), s, p, body);
    ClientAcceptsWhatFits(limit, [], body);
    forall i | 0 <= i < |body| ensures Accepts(Bridge, [], body[i]) {
      PiecesOfAt(text, i);
    }
    BridgeAcceptsAllButSurrogates([], body);
  }

  lemma {:induction false} PiecesOfAt(text: seq<Byte>, i: nat)
    requires i < |text|
    ensures PiecesOf(text)[i] == PieceOf(text[i])
  {
    if i > 0 {
      PiecesOfAt(text[1..], i - 1);
    }
  }
}
