/**
 * JSON objects whose members are all strings, as the HTTP bridge reads header objects and the example tools
 * read their arguments: one reading of the grammar, and exactly which texts it accepts.
 */
module FlatObjects {
  import opened Bytes
  import opened JsonText
  import opened JsonStrings

  /** Which decoder reads a key, and which one reads the value behind a given key. */
  datatype Style = HeaderStyle | ArgumentStyle

  const PATH: seq<Byte> := Ascii("path")
  const CONTENT: seq<Byte> := Ascii("content")

  function KeyReader(style: Style): Reader {
    if style == HeaderStyle then Bridge else Tool(16)
  }

  function ValueReader(style: Style, key: seq<Byte>): Reader {
    if style == HeaderStyle then Bridge else if key == PATH then Tool(32) else Tool(4097)
  }

  datatype Pair = Pair(key: seq<Byte>, value: seq<Byte>)
  datatype Fields = NoFields | Fields(pairs: seq<Pair>, end: nat)

  predicate IsBlank(b: Byte) { b == SPACE || b == TAB || b == RETURN || b == NEWLINE }

  predicate AllBlank(s: seq<Byte>) {
    forall i :: 0 <= i < |s| ==> IsBlank(s[i])
  }

  function SkipBlank(s: seq<Byte>, p: nat): (q: nat)
    requires p <= |s|
    ensures p <= q <= |s|
    decreases |s| - p
  {
    if p < |s| && IsBlank(s[p]) then SkipBlank(s, p + 1) else p
  }

  /** One member from its key on: the pair, and the position behind the blanks that follow it. */
  function ReadField(style: Style, s: seq<Byte>, p: nat): (r: Option<(Pair, nat)>)
    requires p <= |s|
    ensures r.Some? ==> p < r.value.1 <= |s|
  {
    var k := DecodeString(KeyReader(style), s, p);
    if k.Bad? then None
    else
      var c := SkipBlank(s, k.end);
      if !ByteAt(s, c, COLON) then None
      else
        var q := SkipBlank(s, c + 1);
        var v := DecodeString(ValueReader(style, k.text), s, q);
        if v.Bad? then None
        else
          Some((Pair(k.text, v.text), SkipBlank(s, v.end)))
  }

  /** Members up to the closing brace, from a position where a key must stand. */
  function ReadFields(style: Style, s: seq<Byte>, p: nat): (r: Fields)
    requires p <= |s|
    ensures r.Fields? ==> p < r.end <= |s|
    decreases |s| - p
  {
    match ReadField(style, s, p)
    case None => NoFields
    case Some((pair, e)) =>
      if ByteAt(s, e, 0x7d) then Fields([pair], e + 1)
      else if ByteAt(s, e, COMMA) then
        match ReadFields(style, s, SkipBlank(s, e + 1))
        case NoFields => NoFields
        case Fields(pairs, end) => Fields([pair] + pairs, end)
      else NoFields
  }

  function ReadObject(style: Style, s: seq<Byte>, p: nat): (r: Fields)
    requires p <= |s|
    ensures r.Fields? ==> p < r.end <= |s|
  {
    if !ByteAt(s, p, 0x7b) then NoFields
    else
      var q := SkipBlank(s, p + 1);
      if ByteAt(s, q, 0x7d) then Fields([], q + 1) else ReadFields(style, s, q)
  }

  /** The blank-skipping loop of both parsers. */
  method SkipBlanks(s: seq<Byte>, p: nat) returns (cursor: nat)
    requires p <= |s|
    ensures cursor == SkipBlank(s, p)
  {
    cursor := p;
    while cursor < |s| && IsBlank(s[cursor])
      invariant p <= cursor <= |s| && SkipBlank(s, cursor) == SkipBlank(s, p)
    {
      cursor := cursor + 1;
    }
  }

  ghost function Prepend(met: seq<Pair>, r: Fields): Fields {
    if r.NoFields? then NoFields else Fields(met + r.pairs, r.end)
  }

  /** One turn of a member loop, seen from the specification. */
  lemma ReadFieldsTurn(style: Style, s: seq<Byte>, p: nat, met: seq<Pair>)
    requires p <= |s|
    ensures match ReadField(style, s, p)
            case None => ReadFields(style, s, p) == NoFields
            case Some((pair, e)) =>
              Prepend(met, ReadFields(style, s, p))
              == if ByteAt(s, e, 0x7d) then Fields(met + [pair], e + 1)
                 else if ByteAt(s, e, COMMA) then Prepend(met + [pair], ReadFields(style, s, SkipBlank(s, e + 1)))
                 else NoFields
  {
    hide ReadField, SkipBlank;
    if ReadField(style, s, p).Some? {
      var (pair, e) := ReadField(style, s, p).value;
      if ByteAt(s, e, COMMA) {
        var rest := ReadFields(style, s, SkipBlank(s, e + 1));
        if rest.Fields? {
          Assoc(met, [pair], rest.pairs);
        }
      }
    }
  }

  // ---- the grammar ----

  /** One member with its layout. */
  datatype Field = Field(key: seq<Piece>, afterKey: seq<Byte>, beforeValue: seq<Byte>,
                         value: seq<Piece>, after: seq<Byte>)

  ghost predicate FieldOk(style: Style, f: Field) {
    && AllLegal(f.key) && AcceptsAll(KeyReader(style), [], f.key)
    && AllLegal(f.value) && AcceptsAll(ValueReader(style, MeaningAll(f.key)), [], f.value)
    && AllBlank(f.afterKey) && AllBlank(f.beforeValue) && AllBlank(f.after)
  }

  function ShowField(f: Field): seq<Byte> {
    Quoted(f.key) + f.afterKey + [COLON] + f.beforeValue + Quoted(f.value) + f.after
  }

  ghost function FieldPair(f: Field): Pair
    requires AllLegal(f.key) && AllLegal(f.value)
  {
    Pair(MeaningAll(f.key), MeaningAll(f.value))
  }

  /** Members separated by commas and closed by a brace; `gap` is the blank space behind each comma. */
  datatype Chain = Last(f: Field) | More(f: Field, gap: seq<Byte>, rest: Chain)

  ghost predicate ChainOk(style: Style, c: Chain) {
    && FieldOk(style, c.f)
    && (c.More? ==> AllBlank(c.gap) && ChainOk(style, c.rest))
  }

  function ShowChain(c: Chain): seq<Byte> {
    match c
    case Last(f) => ShowField(f) + [0x7d]
    case More(f, gap, rest) => ShowField(f) + [COMMA] + gap + ShowChain(rest)
  }

  ghost function ChainPairs(style: Style, c: Chain): seq<Pair>
    requires ChainOk(style, c)
  {
    match c
    case Last(f) => [FieldPair(f)]
    case More(f, gap, rest) => [FieldPair(f)] + ChainPairs(style, rest)
  }

  datatype Object = Empty(pad: seq<Byte>) | Full(pad: seq<Byte>, chain: Chain)

  ghost predicate ObjectOk(style: Style, o: Object) {
    AllBlank(o.pad) && (o.Full? ==> ChainOk(style, o.chain))
  }

  function ShowObject(o: Object): seq<Byte> {
    match o
    case Empty(pad) => [0x7b] + pad + [0x7d]
    case Full(pad, chain) => [0x7b] + pad + ShowChain(chain)
  }

  ghost function ObjectPairs(style: Style, o: Object): seq<Pair>
    requires ObjectOk(style, o)
  {
    if o.Empty? then [] else ChainPairs(style, o.chain)
  }

  // ---- objects as their writers print them ----

  /** A member without any layout, its strings as the encoders write them. */
  function Written(key: seq<Byte>, text: seq<Byte>): Field { Field(PiecesOf(key), [], [], PiecesOf(text), []) }

  function WrittenText(key: seq<Byte>, text: seq<Byte>): seq<Byte> { Encode(key) + Ascii(":") + Encode(text) }

  /** How an object of two such members prints. */
  lemma TwoWritten(k1: seq<Byte>, v1: seq<Byte>, k2: seq<Byte>, v2: seq<Byte>)
    ensures ShowObject(Full([], More(Written(k1, v1), [], Last(Written(k2, v2)))))
         == Ascii("{") + WrittenText(k1, v1) + Ascii(",") + WrittenText(k2, v2) + Ascii("}")
  {
    hide WrittenText, ShowField;
    WrittenPrints(k1, v1);
    WrittenPrints(k2, v2);
    assert Ascii("{") == [0x7b] && Ascii(",") == [COMMA] && Ascii("}") == [0x7d];
    var first, second := WrittenText(k1, v1), WrittenText(k2, v2);
    assert ShowChain(Last(Written(k2, v2))) == second + [0x7d];
    assert ShowChain(More(Written(k1, v1), [], Last(Written(k2, v2)))) == first + [COMMA] + [] + (second + [0x7d]);
    assert [0x7b] + [] + (first + [COMMA] + [] + (second + [0x7d])) == [0x7b] + first + [COMMA] + second + [0x7d];
  }

  lemma WrittenPrints(key: seq<Byte>, text: seq<Byte>)
    ensures ShowField(Written(key, text)) == WrittenText(key, text)
  {
    hide Quoted;
    assert Ascii(":") == [COLON];
  }

  // ---- blanks ----

  lemma {:induction false} SkipBlankOver(s: seq<Byte>, p: nat, q: nat)
    requires p <= q <= |s| && (forall i :: p <= i < q ==> IsBlank(s[i])) && (q < |s| ==> !IsBlank(s[q]))
    ensures SkipBlank(s, p) == q
    decreases q - p
  {
    if p < q {
      SkipBlankOver(s, p + 1, q);
    }
  }

  lemma SkipsNothing(s: seq<Byte>, p: nat)
    requires p <= |s| && (p < |s| ==> !IsBlank(s[p]))
    ensures SkipBlank(s, p) == p
  {
  }

  /** Skipping over a run of blanks that something solid, or the end, follows. */
  lemma SkipsBlanks(s: seq<Byte>, p: nat, blanks: seq<Byte>)
    requires Holds(s, p, blanks) && AllBlank(blanks)
    requires p + |blanks| < |s| ==> !IsBlank(s[p + |blanks|])
    ensures p + |blanks| <= |s| && SkipBlank(s, p) == p + |blanks|
  {
    HoldsIndex(s, p, blanks);
    forall i | p <= i < p + |blanks| ensures IsBlank(s[i]) {
      assert s[p + (i - p)] == blanks[i - p];
    }
    SkipBlankOver(s, p, p + |blanks|);
  }

  lemma {:induction false} SkippedBlanks(s: seq<Byte>, p: nat)
    requires p <= |s|
    ensures var q := SkipBlank(s, p);
            && Holds(s, p, s[p..q]) && AllBlank(s[p..q]) && (q < |s| ==> !IsBlank(s[q]))
    decreases |s| - p
  {
    if p < |s| && IsBlank(s[p]) {
      SkippedBlanks(s, p + 1);
      var q := SkipBlank(s, p + 1);
      assert s[p..q] == [s[p]] + s[p + 1..q];
    }
  }

  // ---- completeness: printed objects are read back ----

  lemma QuotedStarts(s: seq<Byte>, p: nat, body: seq<Piece>)
    requires AllLegal(body) && Holds(s, p, Quoted(body))
    ensures p + |Quoted(body)| <= |s| && s[p] == QUOTE && !IsBlank(s[p])
  {
    hide DecodeBody, ShowAll;
    QuotedIsClosed(s, p, body);
  }

  ghost predicate FieldAt(s: seq<Byte>, p: nat, f: Field) {
    var c := p + |Quoted(f.key)| + |f.afterKey|;
    var v := c + 1 + |f.beforeValue|;
    && Holds(s, p, Quoted(f.key))
    && Holds(s, p + |Quoted(f.key)|, f.afterKey)
    && ByteAt(s, c, COLON)
    && Holds(s, c + 1, f.beforeValue)
    && Holds(s, v, Quoted(f.value))
    && Holds(s, v + |Quoted(f.value)|, f.after)
  }

  lemma FieldParts(s: seq<Byte>, p: nat, f: Field)
    ensures Holds(s, p, ShowField(f)) <==> FieldAt(s, p, f)
    ensures |ShowField(f)| == |Quoted(f.key)| + |f.afterKey| + 1 + |f.beforeValue| + |Quoted(f.value)| + |f.after|
  {
    hide Quoted, Holds, ByteAt;
    var a, b, c, d, e, g := Quoted(f.key), f.afterKey, [COLON], f.beforeValue, Quoted(f.value), f.after;
    OneByte(s, p + |a| + |b|, COLON);
    HoldsFour(s, p, a, b, c, d);
    HoldsBoth(s, p, a + b + c + d, e);
    HoldsBoth(s, p, a + b + c + d + e, g);
  }

  lemma ReadsField(style: Style, s: seq<Byte>, p: nat, f: Field)
    requires FieldOk(style, f) && Holds(s, p, ShowField(f))
    requires var e := p + |ShowField(f)|; e < |s| ==> !IsBlank(s[e])
    ensures p + |ShowField(f)| <= |s|
    ensures ReadField(style, s, p) == Some((FieldPair(f), p + |ShowField(f)|))
  {
    hide DecodeString, Quoted, Holds, AllBlank, AllLegal, AcceptsAll, MeaningAll, SkipBlank, IsBlank;
    FieldParts(s, p, f);
    var k := p + |Quoted(f.key)|;
    var c := k + |f.afterKey|;
    var v := c + 1 + |f.beforeValue|;
    var w := v + |Quoted(f.value)|;
    ColonIsSolid();
    QuotedStarts(s, p, f.key);
    QuotedStarts(s, v, f.value);
    DecodesQuoted(KeyReader(style), s, p, f.key);
    SkipsBlanks(s, k, f.afterKey);
    SkipsBlanks(s, c + 1, f.beforeValue);
    DecodesQuoted(ValueReader(style, MeaningAll(f.key)), s, v, f.value);
    SkipsBlanks(s, w, f.after);
  }

  lemma ColonIsSolid()
    ensures !IsBlank(COLON) && !IsBlank(COMMA) && !IsBlank(0x7b) && !IsBlank(0x7d) && !IsBlank(QUOTE)
  {
  }

  /** A printed chain of members, closing brace included, is read back pair by pair. */
  lemma {:induction false} ReadsChain(style: Style, s: seq<Byte>, p: nat, c: Chain)
    requires ChainOk(style, c) && Holds(s, p, ShowChain(c))
    ensures p + |ShowChain(c)| <= |s|
    ensures ReadFields(style, s, p) == Fields(ChainPairs(style, c), p + |ShowChain(c)|)
    decreases c
  {
    hide ReadField, ShowField, FieldOk, FieldPair, Holds, AllBlank;
    var e := p + |ShowField(c.f)|;
    ColonIsSolid();
    if c.Last? {
      HoldsSplit(s, p, ShowField(c.f), [0x7d]);
      OneByte(s, e, 0x7d);
      ReadsField(style, s, p, c.f);
    } else {
      MoreParts(s, p, c.f, c.gap, c.rest);
      ReadsField(style, s, p, c.f);
      ChainStarts(style, s, e + 1 + |c.gap|, c.rest);
      SkipsBlanks(s, e + 1, c.gap);
      ReadsChain(style, s, e + 1 + |c.gap|, c.rest);
    }
  }

  lemma MoreParts(s: seq<Byte>, p: nat, f: Field, gap: seq<Byte>, rest: Chain)
    ensures Holds(s, p, ShowChain(More(f, gap, rest)))
       <==> Holds(s, p, ShowField(f)) && (var e := p + |ShowField(f)|;
            ByteAt(s, e, COMMA) && Holds(s, e + 1, gap) && Holds(s, e + 1 + |gap|, ShowChain(rest)))
    ensures |ShowChain(More(f, gap, rest))| == |ShowField(f)| + 1 + |gap| + |ShowChain(rest)|
  {
    hide ShowField, Holds, ByteAt;
    var a, b, c, d := ShowField(f), [COMMA], gap, ShowChain(rest);
    OneByte(s, p + |a|, COMMA);
    HoldsFour(s, p, a, b, c, d);
  }

  lemma ChainStarts(style: Style, s: seq<Byte>, p: nat, c: Chain)
    requires ChainOk(style, c) && Holds(s, p, ShowChain(c))
    ensures p < |s| && s[p] == QUOTE
  {
    hide Quoted, Holds;
    if c.Last? {
      HoldsSplit(s, p, ShowField(c.f), [0x7d]);
    } else {
      MoreParts(s, p, c.f, c.gap, c.rest);
    }
    FieldParts(s, p, c.f);
    QuotedStarts(s, p, c.f.key);
  }

  /** What follows the blanks behind the opening brace. */
  function Inner(o: Object): seq<Byte> {
    if o.Empty? then [0x7d] else ShowChain(o.chain)
  }

  lemma ObjectParts(s: seq<Byte>, p: nat, o: Object)
    requires Holds(s, p, ShowObject(o))
    ensures ByteAt(s, p, 0x7b) && Holds(s, p + 1, o.pad) && Holds(s, p + 1 + |o.pad|, Inner(o))
    ensures |ShowObject(o)| == 1 + |o.pad| + |Inner(o)|
    ensures Inner(o) == if o.Empty? then [0x7d] else ShowChain(o.chain)
  {
    hide ShowChain, Holds;
    HoldsSplit(s, p, [0x7b] + o.pad, Inner(o));
    HoldsSplit(s, p, [0x7b], o.pad);
    OneByte(s, p, 0x7b);
  }

  lemma ReadsObject(style: Style, s: seq<Byte>, p: nat, o: Object)
    requires ObjectOk(style, o) && Holds(s, p, ShowObject(o))
    ensures p + |ShowObject(o)| <= |s|
    ensures ReadObject(style, s, p) == Fields(ObjectPairs(style, o), p + |ShowObject(o)|)
  {
    hide ReadFields, ShowChain, ChainOk, ChainPairs, Holds, AllBlank, IsBlank, SkipBlank, ShowObject, Inner;
    var q := p + 1 + |o.pad|;
    ColonIsSolid();
    ObjectParts(s, p, o);
    if o.Empty? {
      OneByte(s, q, 0x7d);
    } else {
      ChainStarts(style, s, q, o.chain);
      ReadsChain(style, s, q, o.chain);
    }
    SkipsBlanks(s, p + 1, o.pad);
  }

  lemma ObjectStarts(s: seq<Byte>, p: nat, o: Object)
    requires Holds(s, p, ShowObject(o))
    ensures p < |s| && s[p] == 0x7b
  {
    hide ShowChain;
    HoldsIndex(s, p, ShowObject(o));
    assert s[p + 0] == ShowObject(o)[0];
  }

  // ---- soundness: whatever is read was printed ----

  lemma FieldRead(style: Style, s: seq<Byte>, p: nat) returns (f: Field)
    requires p <= |s| && ReadField(style, s, p).Some?
    ensures FieldOk(style, f) && Holds(s, p, ShowField(f))
    ensures p + |ShowField(f)| <= |s|
    ensures ReadField(style, s, p) == Some((FieldPair(f), p + |ShowField(f)|))
  {
    hide DecodeString, Quoted, Holds, AllBlank, AllLegal, AcceptsAll, MeaningAll, SkipBlank, IsBlank;
    var k := DecodeString(KeyReader(style), s, p);
    var key := AcceptedToken(KeyReader(style), s, p);
    var c := SkipBlank(s, k.end);
    SkippedBlanks(s, k.end);
    var q := SkipBlank(s, c + 1);
    SkippedBlanks(s, c + 1);
    var vr := ValueReader(style, k.text);
    var v := DecodeString(vr, s, q);
    var value := AcceptedToken(vr, s, q);
    SkippedBlanks(s, v.end);
    f := Field(key, s[k.end..c], s[c + 1..q], value, s[v.end..SkipBlank(s, v.end)]);
    FieldParts(s, p, f);
  }

  lemma {:induction false} ChainRead(style: Style, s: seq<Byte>, p: nat) returns (c: Chain)
    requires p <= |s| && ReadFields(style, s, p).Fields?
    ensures ChainOk(style, c) && Holds(s, p, ShowChain(c))
    decreases |s| - p
  {
    hide ReadField, ShowField, FieldOk, FieldPair, Holds, AllBlank;
    var f := FieldRead(style, s, p);
    var e := p + |ShowField(f)|;
    if ByteAt(s, e, 0x7d) {
      OneByte(s, e, 0x7d);
      HoldsJoin(s, p, ShowField(f), [0x7d]);
      c := Last(f);
    } else {
      var q := SkipBlank(s, e + 1);
      SkippedBlanks(s, e + 1);
      var rest := ChainRead(style, s, q);
      c := More(f, s[e + 1..q], rest);
      MoreParts(s, p, f, s[e + 1..q], rest);
    }
  }

  lemma ObjectRead(style: Style, s: seq<Byte>, p: nat) returns (o: Object)
    requires p <= |s| && ReadObject(style, s, p).Fields?
    ensures ObjectOk(style, o) && Holds(s, p, ShowObject(o))
    ensures ReadObject(style, s, p) == Fields(ObjectPairs(style, o), p + |ShowObject(o)|)
  {
    hide ReadFields, ShowChain, ChainOk, ChainPairs, Holds, AllBlank;
    var q := SkipBlank(s, p + 1);
    SkippedBlanks(s, p + 1);
    OneByte(s, p, 0x7b);
    HoldsJoin(s, p, [0x7b], s[p + 1..q]);
    if ByteAt(s, q, 0x7d) {
      OneByte(s, q, 0x7d);
      HoldsJoin(s, p, [0x7b] + s[p + 1..q], [0x7d]);
      o := Empty(s[p + 1..q]);
    } else {
      var chain := ChainRead(style, s, q);
      HoldsJoin(s, p, [0x7b] + s[p + 1..q], ShowChain(chain));
      o := Full(s[p + 1..q], chain);
    }
    ReadsObject(style, s, p, o);
  }

  ghost predicate PrintedObject(style: Style, s: seq<Byte>, p: nat, o: Object, pairs: seq<Pair>, end: nat) {
    ObjectOk(style, o) && Holds(s, p, ShowObject(o)) && pairs == ObjectPairs(style, o) && end == p + |ShowObject(o)|
  }

  /** Reading succeeds on exactly the printed objects of decodable strings, and yields exactly their members. */
  lemma ObjectReaderAcceptsExactly(style: Style, s: seq<Byte>, p: nat, pairs: seq<Pair>, end: nat)
    requires p <= |s|
    ensures ReadObject(style, s, p) == Fields(pairs, end) <==> exists o :: PrintedObject(style, s, p, o, pairs, end)
  {
    hide ReadObject, ObjectOk, Holds, ShowObject, ObjectPairs;
    if ReadObject(style, s, p) == Fields(pairs, end) {
      var o := ObjectRead(style, s, p);
      assert PrintedObject(style, s, p, o, pairs, end);
    }
    forall o | PrintedObject(style, s, p, o, pairs, end) ensures ReadObject(style, s, p) == Fields(pairs, end) {
      ReadsObject(style, s, p, o);
    }
  }
}
