/** The text RFC 8259 section 7 gives a string, and when the decoders produce it. */
module RfcText {
  import opened Bytes
  import opened JsonText
  import opened JsonStrings

  /** The code unit a piece escapes, if it is a four-digit escape. */
  function CodeUnit(p: Piece): Option<nat>
    requires Legal(p)
  {
    match p
    case Unicode(h0, h1, h2, h3) => Some(CodePoint(h0, h1, h2, h3))
    case _ => None
  }

  predicate IsHigh(p: Piece)
    requires Legal(p)
  {
    CodeUnit(p).Some? && 0xd800 <= CodeUnit(p).value <= 0xdbff
  }

  predicate IsLow(p: Piece)
    requires Legal(p)
  {
    CodeUnit(p).Some? && 0xdc00 <= CodeUnit(p).value <= 0xdfff
  }

  predicate IsHalf(p: Piece)
    requires Legal(p)
  {
    IsHigh(p) || IsLow(p)
  }

  /** The character two halves name, outside the basic plane. */
  function Joined(high: Piece, low: Piece): (cp: nat)
    requires Legal(high) && Legal(low) && IsHigh(high) && IsLow(low)
    ensures 0x10000 <= cp <= 0x10ffff
  {
    0x10000 + (CodeUnit(high).value - 0xd800) * 0x400 + (CodeUnit(low).value - 0xdc00)
  }

  /** RFC 3629 section 3, for the code points four bytes encode. */
  function Utf8Four(cp: nat): (s: seq<Byte>)
    requires 0x10000 <= cp <= 0x10ffff
    ensures |s| == 4 && 0xf0 <= s[0] <= 0xf4 && forall i :: 1 <= i < 4 ==> 0x80 <= s[i] < 0xc0
  {
    [0xf0 + cp / 0x40000, 0x80 + cp / 0x1000 % 64, 0x80 + cp / 64 % 64, 0x80 + cp % 64]
  }

  /** Reading the four bytes back by the bit distribution of RFC 3629 section 3. */
  lemma Utf8FourIsRfc3629(cp: nat)
    requires 0x10000 <= cp <= 0x10ffff
    ensures var s := Utf8Four(cp);
            var a: int, b: int, c: int, d: int := s[0], s[1], s[2], s[3];
            (((a - 0xf0) * 64 + (b - 0x80)) * 64 + (c - 0x80)) * 64 + (d - 0x80) == cp
  {
    var low, mid := cp / 64, cp / 0x1000;
    assert mid == low / 64 && cp / 0x40000 == mid / 64;
    assert cp == low * 64 + cp % 64 && low == mid * 64 + low % 64 && mid == mid / 64 * 64 + mid % 64;
  }

  function Before(front: seq<Byte>, text: Option<seq<Byte>>): Option<seq<Byte>> {
    if text.Some? then Some(front + text.value) else None
  }

  /** The text of a body: pairs of halves are one character, and a half on its own names none. */
  function TextOf(body: seq<Piece>): Option<seq<Byte>>
    requires AllLegal(body)
  {
    if body == [] then Some([])
    else if IsHigh(body[0]) then
      if |body| > 1 && IsLow(body[1]) then Before(Utf8Four(Joined(body[0], body[1])), TextOf(body[2..])) else None
    else if IsLow(body[0]) then None
    else Before(Meaning(body[0]), TextOf(body[1..]))
  }

  predicate HasHalves(body: seq<Piece>)
    requires AllLegal(body)
  {
    exists i :: 0 <= i < |body| && IsHalf(body[i])
  }

  lemma HalfMeans(p: Piece)
    requires Legal(p)
    ensures IsHalf(p) ==> Meaning(p) == [QUESTION]
  {
  }

  lemma HalvesUnfold(body: seq<Piece>)
    requires AllLegal(body) && body != []
    ensures AllLegal(body[1..]) && (HasHalves(body) <==> IsHalf(body[0]) || HasHalves(body[1..]))
  {
    hide IsHalf;
    if HasHalves(body) && !IsHalf(body[0]) {
      var i :| 0 <= i < |body| && IsHalf(body[i]);
      assert IsHalf(body[1..][i - 1]);
    }
    if HasHalves(body[1..]) {
      var i :| 0 <= i < |body[1..]| && IsHalf(body[1..][i]);
      assert IsHalf(body[i + 1]);
    }
  }

  /** The decoded bytes begin with a question mark where the text has a character of four bytes, or none at all. */
  lemma HalvesDiffer(body: seq<Piece>)
    requires AllLegal(body) && body != [] && IsHalf(body[0])
    ensures MeaningAll(body)[0] == QUESTION
    ensures TextOf(body).Some? ==> TextOf(body).value != [] && TextOf(body).value[0] >= 0xf0
  {
    hide TextOf, Meaning, Utf8Four, Joined, CodeUnit;
    HalfMeans(body[0]);
    assert MeaningAll(body) == Meaning(body[0]) + MeaningAll(body[1..]);
    TextUnfolds(body);
  }

  lemma TextUnfolds(body: seq<Piece>)
    requires AllLegal(body) && body != []
    ensures AllLegal(body[1..])
    ensures IsHalf(body[0]) && TextOf(body).Some? ==>
              |body| > 1 && IsHigh(body[0]) && IsLow(body[1]) && AllLegal(body[2..]) && TextOf(body[2..]).Some?
              && TextOf(body).value == Utf8Four(Joined(body[0], body[1])) + TextOf(body[2..]).value
    ensures !IsHalf(body[0]) ==> TextOf(body) == Before(Meaning(body[0]), TextOf(body[1..]))
  {
  }

  /**
   * The bytes a decoder makes of a body are its text exactly when no escape in it is a surrogate; with one, they differ
   * even where they begin: neither continues the other.
   */
  lemma {:induction false} MeaningIsText(body: seq<Piece>)
    requires AllLegal(body)
    ensures TextOf(body) == Some(MeaningAll(body)) <==> !HasHalves(body)
    ensures HasHalves(body) && TextOf(body).Some? ==>
              !(TextOf(body).value <= MeaningAll(body)) && !(MeaningAll(body) <= TextOf(body).value)
    decreases |body|
  {
    hide TextOf, Meaning, MeaningAll, IsHalf, HasHalves, Utf8Four, Joined;
    if body == [] {
      EmptyBody();
    } else {
      HalvesUnfold(body);
      TextUnfolds(body);
      MeaningUnfolds(body);
      if IsHalf(body[0]) {
        HalvesDiffer(body);
      } else {
        MeaningIsText(body[1..]);
        if TextOf(body[1..]).Some? {
          SameFront(Meaning(body[0]), TextOf(body[1..]).value, MeaningAll(body[1..]));
        }
      }
    }
  }

  lemma EmptyBody()
    ensures AllLegal([]) && TextOf([]) == Some(MeaningAll([])) && !HasHalves([])
  {
  }

  lemma MeaningUnfolds(body: seq<Piece>)
    requires AllLegal(body) && body != []
    ensures AllLegal(body[1..]) && MeaningAll(body) == Meaning(body[0]) + MeaningAll(body[1..])
            && MeaningAll(body) != []
  {
  }

  lemma SameFront(front: seq<Byte>, a: seq<Byte>, b: seq<Byte>)
    ensures front + a == front + b <==> a == b
    ensures front + a <= front + b <==> a <= b
    ensures front + b <= front + a <==> b <= a
  {
    FrontPrefix(front, a, b);
    FrontPrefix(front, b, a);
    assert front + a == front + b ==> (front + a)[|front|..] == (front + b)[|front|..];
    assert (front + a)[|front|..] == a && (front + b)[|front|..] == b;
  }

  lemma FrontPrefix(front: seq<Byte>, a: seq<Byte>, b: seq<Byte>)
    ensures front + a <= front + b <==> a <= b
  {
    if front + a <= front + b {
      forall i | 0 <= i < |a| ensures a[i] == b[i] {
        assert (front + a)[|front| + i] == (front + b)[|front| + i];
      }
    }
  }

  // ---- the decoders and the encoders ----

  /** The bridge refuses surrogates, so what it accepts it gives the text of. */
  lemma {:induction false} BridgeTakesNoHalves(held: seq<Byte>, body: seq<Piece>)
    requires AllLegal(body) && AcceptsAll(Bridge, held, body)
    ensures !HasHalves(body)
    decreases |body|
  {
    BridgeAcceptsAllButSurrogates(held, body);
    forall i | 0 <= i < |body| ensures !IsHalf(body[i]) {
      assert Accepts(Bridge, [], body[i]);
    }
  }

  /** The bridge decodes exactly the strings without surrogate escapes, and every one of them to its text. */
  lemma BridgeReadsTexts(s: seq<Byte>, p: nat, body: seq<Piece>)
    requires AllLegal(body) && Holds(s, p, Quoted(body))
    ensures DecodeString(Bridge, s, p).Good? <==> !HasHalves(body)
    ensures DecodeString(Bridge, s, p).Good? ==>
              TextOf(body) == Some(DecodeString(Bridge, s, p).text)
              && DecodeString(Bridge, s, p).end == p + |Quoted(body)|
  {
    hide DecodeString, TextOf, AcceptsAll, HasHalves, Quoted, Holds;
    DecodesQuoted(Bridge, s, p, body);
    MeaningIsText(body);
    if !HasHalves(body) {
      NoHalvesTaken([], body);
    }
    if AcceptsAll(Bridge, [], body) {
      BridgeTakesNoHalves([], body);
    }
  }

  lemma NoHalvesTaken(held: seq<Byte>, body: seq<Piece>)
    requires AllLegal(body) && !HasHalves(body)
    ensures AcceptsAll(Bridge, held, body)
  {
    hide AcceptsAll;
    BridgeAcceptsAllButSurrogates(held, body);
    forall i | 0 <= i < |body| ensures Accepts(Bridge, [], body[i]) {
      assert !IsHalf(body[i]);
    }
  }

  /** The client decodes a string it has room for to its text exactly when no escape in it is a surrogate. */
  lemma ClientReadsTexts(limit: nat, s: seq<Byte>, p: nat, body: seq<Piece>)
    requires AllLegal(body) && Holds(s, p, Quoted(body)) && |MeaningAll(body)| <= limit
    ensures DecodeString(Client(limit), s, p) == Good(MeaningAll(body), p + |Quoted(body)|)
    ensures TextOf(body) == Some(DecodeString(Client(limit), s, p).text) <==> !HasHalves(body)
  {
    hide DecodeString, TextOf, AcceptsAll, HasHalves, Quoted, Holds, MeaningAll;
    DecodesQuoted(Client(limit), s, p, body);
    ClientAcceptsWhatFits(limit, [], body);
    MeaningIsText(body);
  }

  /** Tab, newline, return and what is printable in ASCII. */
  predicate IsToolText(text: seq<Byte>) {
    forall i :: 0 <= i < |text| ==> text[i] in Ascii("\t\n\r") || ' ' as int <= text[i] <= '~' as int
  }

  /** The tool decoder takes exactly the strings whose text is such ASCII and leaves its array room for a NUL. */
  lemma ToolReadsTexts(cap: nat, s: seq<Byte>, p: nat, body: seq<Piece>)
    requires cap > 0 && AllLegal(body) && Holds(s, p, Quoted(body))
    ensures DecodeString(Tool(cap), s, p).Good?
       <==> TextOf(body).Some? && IsToolText(TextOf(body).value) && |TextOf(body).value| < cap
    ensures DecodeString(Tool(cap), s, p).Good? ==>
              DecodeString(Tool(cap), s, p) == Good(TextOf(body).value, p + |Quoted(body)|)
  {
    hide DecodeString, TextOf, AcceptsAll, Quoted, Holds, IsToolText;
    DecodesQuoted(Tool(cap), s, p, body);
    ToolTakes(cap, [], body);
    MeaningIsText(body);
    if AcceptsAll(Tool(cap), [], body) {
      ToolTokens(cap, [], body);
      BridgeTakesNoHalves([], body);
    }
  }

  lemma {:induction false} ToolTakes(cap: nat, held: seq<Byte>, body: seq<Piece>)
    requires AllLegal(body) && |held| < cap
    ensures AcceptsAll(Tool(cap), held, body)
       <==> TextOf(body).Some? && IsToolText(TextOf(body).value) && |held| + |TextOf(body).value| < cap
    decreases |body|
  {
    hide AcceptsAll, Accepts, Meaning, IsToolText, MeaningAll, ShowAll;
    if body == [] {
      NothingTaken(cap, held);
    } else {
      BodyUnfolds(Tool(cap), held, body);
      TextUnfolds(body);
      ToolTakesOne(cap, held, body[0]);
      if IsHalf(body[0]) {
        FourBytesAreNoTool(body);
      } else {
        var rest := TextOf(body[1..]);
        if rest.Some? {
          ToolTextJoins(Meaning(body[0]), rest.value);
        }
        if Accepts(Tool(cap), held, body[0]) {
          ToolTakes(cap, held + Meaning(body[0]), body[1..]);
        }
      }
    }
  }

  lemma NothingTaken(cap: nat, held: seq<Byte>)
    ensures AllLegal([]) && AcceptsAll(Tool(cap), held, []) && TextOf([]) == Some([]) && IsToolText([])
  {
  }

  /** A piece is taken exactly when it means one such character, written as itself, and there is room. */
  lemma ToolTakesOne(cap: nat, held: seq<Byte>, p: Piece)
    requires Legal(p)
    ensures IsHalf(p) ==> !Accepts(Tool(cap), held, p)
    ensures !IsHalf(p) ==> (Accepts(Tool(cap), held, p) <==> |held| + 1 < cap && IsToolText(Meaning(p)))
    ensures Accepts(Tool(cap), held, p) ==> |Meaning(p)| == 1
    ensures |Meaning(p)| >= 1
  {
    assert Ascii("\t\n\r") == [TAB, NEWLINE, RETURN];
    if !IsHalf(p) && IsToolText(Meaning(p)) {
      assert Meaning(p)[0] in Ascii("\t\n\r") || 0x20 <= Meaning(p)[0] <= 0x7e;
    }
  }

  lemma ToolTextJoins(a: seq<Byte>, b: seq<Byte>)
    ensures IsToolText(a + b) <==> IsToolText(a) && IsToolText(b)
  {
    forall i | 0 <= i < |b| ensures (a + b)[|a| + i] == b[i] {
    }
    forall i | 0 <= i < |a| ensures (a + b)[i] == a[i] {
    }
  }

  lemma FourBytesAreNoTool(body: seq<Piece>)
    requires AllLegal(body) && body != [] && IsHalf(body[0])
    ensures TextOf(body).Some? ==> !IsToolText(TextOf(body).value)
  {
    hide TextOf, MeaningAll, IsHalf;
    HalvesDiffer(body);
    if TextOf(body).Some? {
      assert Ascii("\t\n\r") == [TAB, NEWLINE, RETURN];
      assert TextOf(body).value[0] >= 0xf0;
    }
  }

  /** Both encoders write a string whose text is what they were given. */
  lemma EncodersWriteTexts(text: seq<Byte>)
    ensures TextOf(PiecesOf(text)) == Some(text)
  {
    hide TextOf;
    PiecesMeanTheText(text);
    MeaningIsText(PiecesOf(text));
    PiecesHaveNoHalves(text);
  }

  lemma {:induction false} PiecesHaveNoHalves(text: seq<Byte>)
    ensures !HasHalves(PiecesOf(text))
    decreases |text|
  {
    hide HasHalves;
    if text == [] {
      EmptyBody();
    } else {
      PieceIsNoHalf(text[0]);
      PiecesHaveNoHalves(text[1..]);
      assert PiecesOf(text)[1..] == PiecesOf(text[1..]);
      HalvesUnfold(PiecesOf(text));
    }
  }

  lemma PieceIsNoHalf(b: Byte)
    ensures Legal(PieceOf(b)) && !IsHalf(PieceOf(b))
  {
  }
}
