/** What the ACP client reads out of lines that are JSON documents (runtime/fx_eink.c, lines 251-277 and 455-520). */
module AcpDocuments {
  import opened Bytes
  import opened JsonText
  import opened JsonStrings
  import opened EinkJson
  import opened JsonDocument
  import opened JsonScanner
  import opened ScannerTheorem
  import opened ScannerKeys
  import opened RfcText
  import opened AcpReader

  // ---- the first member with a key ----

  /** How many members come before the first one whose key matches. */
  ghost function FirstIndex(occs: seq<Occurrence>, wanted: CString): (i: nat)
    ensures i <= |occs| && (i < |occs| ==> KeyMatches(occs[i].key, wanted))
    ensures forall j :: 0 <= j < i ==> !KeyMatches(occs[j].key, wanted)
  {
    if occs == [] || KeyMatches(occs[0].key, wanted) then 0 else 1 + FirstIndex(occs[1..], wanted)
  }

  /** The value of the first member whose key matches. */
  ghost function FirstValue(occs: seq<Occurrence>, wanted: CString): Option<Value> {
    var i := FirstIndex(occs, wanted);
    if i < |occs| then Some(occs[i].value) else None
  }

  /** Its text, when it is a string. */
  ghost function FirstString(occs: seq<Occurrence>, wanted: CString): Option<seq<Byte>> {
    match FirstValue(occs, wanted)
    case Some(Text(body)) => if AllLegal(body) then Some(MeaningAll(body)) else None
    case _ => None
  }

  lemma {:induction false} FirstMatchIs(occs: seq<Occurrence>, wanted: CString, i: nat)
    requires i <= |occs| && (forall j :: 0 <= j < i ==> !KeyMatches(occs[j].key, wanted))
    requires i < |occs| ==> KeyMatches(occs[i].key, wanted)
    ensures FirstMatch(occs, wanted) == if i < |occs| then Some(occs[i].at) else None
  {
    hide KeyMatches;
    if i > 0 {
      FirstMatchIs(occs[1..], wanted, i - 1);
    }
  }

  /** A value in place either starts with a quotation mark and decodes, or starts with something else. */
  lemma ValueReads(s: CString, p: nat, v: Value)
    requires WellFormed(v, LIMIT) && Holds(s, p, Print(v))
    ensures p < |s|
    ensures v.Text? ==> s[p] == QUOTE && Decode(s, p, []) == Good(MeaningAll(v.body), p + |Print(v)|)
    ensures !v.Text? ==> s[p] != QUOTE
  {
    hide Decode, Holds;
    if v.Text? {
      TokenDecodes(s, p, v.body);
    } else {
      PrintNonempty(v, LIMIT);
      HoldsIndex(s, p, Print(v));
      assert s[p + 0] == Print(v)[0];
    }
  }

  ghost predicate ValuesWellFormed(occs: seq<Occurrence>) {
    forall i :: 0 <= i < |occs| ==> WellFormed(occs[i].value, LIMIT)
  }

  lemma {:induction false} OccurrencesWellFormed(v: Value, p: nat)
    requires WellFormed(v, LIMIT)
    ensures ValuesWellFormed(Occurrences(v, LIMIT, p))
    decreases v
  {
    match v
    case Scalar(_) =>
    case Text(_) =>
    case List(pad, items) => ItemsWellFormed(items, p + 1 + |pad|, false);
    case Record(pad, members) => MembersWellFormed(members, p + 1 + |pad|, false);
  }

  lemma {:induction false} ItemsWellFormed(items: Items, p: nat, comma: bool)
    requires WellFormedItems(items, LIMIT)
    ensures ValuesWellFormed(ItemOccurrences(items, LIMIT, p, comma))
    decreases items
  {
    if items.Item? {
      var at := p + |Lead(comma)| + |items.before|;
      OccurrencesWellFormed(items.value, at);
      ItemsWellFormed(items.rest, at + |Print(items.value)| + |items.after|, true);
    }
  }

  lemma {:induction false} MembersWellFormed(m: Members, p: nat, comma: bool)
    requires WellFormedMembers(m, LIMIT)
    ensures ValuesWellFormed(MemberOccurrences(m, LIMIT, p, comma))
    decreases m
  {
    hide Print, Quoted, MeaningAll, AllLegal, AllSpace;
    if m.Member? {
      var at := p + |Lead(comma)| + |m.before| + |Quoted(m.key)| + |m.afterKey| + 1 + |m.beforeValue|;
      var q := at + |Print(m.value)| + |m.after|;
      OccurrencesWellFormed(m.value, at);
      MembersWellFormed(m.rest, q, true);
      MemberWellFormed(Occurrence(m.key, MeaningAll(m.key), m.value, at), Occurrences(m.value, LIMIT, at),
                       MemberOccurrences(m.rest, LIMIT, q, true));
    }
  }

  lemma MemberWellFormed(o: Occurrence, a: seq<Occurrence>, b: seq<Occurrence>)
    requires WellFormed(o.value, LIMIT) && ValuesWellFormed(a) && ValuesWellFormed(b)
    ensures ValuesWellFormed([o] + a + b)
  {
    hide WellFormed;
  }

  // ---- strings ----

  /** On a document, the string value of a key is the text of the first member with that key, if it has one. */
  lemma StringValueOfDocument(pre: seq<Byte>, v: Value, post: seq<Byte>, wanted: CString)
    requires WellFormed(v, LIMIT) && AllSpace(pre) && AllSpace(post)
    ensures 0 !in Document(pre, v, post)
    ensures StringValue(Document(pre, v, post), wanted)
         == match FirstString(Occurrences(v, LIMIT, |pre|), wanted)
            case Some(text) => GoodText(text)
            case None => NoText
  {
    hide Scan, Decode, Occurrences, Print, KeyMatches, Holds, FirstIndex;
    FindsFirstMember(pre, v, post, wanted);
    var occs := Occurrences(v, LIMIT, |pre|);
    var i := FirstIndex(occs, wanted);
    FirstMatchIs(occs, wanted, i);
    OccurrencesWellFormed(v, |pre|);
    if i < |occs| {
      ValueReads(Document(pre, v, post), occs[i].at, occs[i].value);
    }
  }

  lemma DocumentIsLine(pre: seq<Byte>, v: Value, post: seq<Byte>)
    requires WellFormed(v, LIMIT) && AllSpace(pre) && AllSpace(post)
    ensures 0 !in Document(pre, v, post) && UpToNul(Document(pre, v, post)) == Document(pre, v, post)
  {
    hide WellFormed, AllSpace, Document;
    DocumentIsCString(pre, v, post);
  }

  /**
   * A line that is a JSON document adds its first "text" if that is a string and its first "sessionUpdate" is the
   * string agent_message_chunk, and nothing otherwise.
   */
  lemma ChunkOfDocument(pre: seq<Byte>, v: Value, post: seq<Byte>)
    requires WellFormed(v, LIMIT) && AllSpace(pre) && AllSpace(post)
    ensures var occs := Occurrences(v, LIMIT, |pre|);
            var update, text := FirstString(occs, SESSION_UPDATE), FirstString(occs, TEXT);
            ChunkText(Document(pre, v, post))
            == if update.Some? && KeyMatches(update.value, AGENT_MESSAGE_CHUNK) && text.Some? then text.value else []
  {
    hide StringValue, Occurrences, Print, KeyMatches, WellFormed, AllSpace, FirstString, Document, UpToNul;
    DocumentIsLine(pre, v, post);
    StringValueOfDocument(pre, v, post, SESSION_UPDATE);
    StringValueOfDocument(pre, v, post, TEXT);
  }

  // ---- strings as RFC 8259 reads them ----

  /** For the keys the client asks for, the first match is the first member so named, unless a NUL misleads it. */
  lemma {:induction false} FirstIsNamedOne(occs: seq<Occurrence>, wanted: CString)
    requires AllDecoded(occs) && wanted != [] && IsBasic(wanted)
    ensures FirstIndex(occs, wanted) == NamedIndex(occs, wanted)
       <==> forall i :: 0 <= i < NamedIndex(occs, wanted) ==> !Continues(occs[i].key, wanted)
    ensures FirstIndex(occs, wanted) <= NamedIndex(occs, wanted)
    decreases |occs|
  {
    hide KeyMatches, IsNamed, PassesFor, Halved, DecodedOne, Continues, IsBasic;
    if occs != [] {
      assert DecodedOne(occs[0]);
      NameTest(occs[0], wanted);
      BasicTest(occs[0], wanted);
      if !IsNamed(occs[0], wanted) {
        FirstIsNamedOne(occs[1..], wanted);
        ContinuesTail(occs, NamedIndex(occs[1..], wanted), wanted);
      }
    }
  }

  lemma ContinuesTail(occs: seq<Occurrence>, n: nat, wanted: CString)
    requires n < |occs|
    ensures (forall i :: 0 <= i < 1 + n ==> !Continues(occs[i].key, wanted))
       <==> !Continues(occs[0].key, wanted) && forall i :: 0 <= i < n ==> !Continues(occs[1..][i].key, wanted)
  {
    hide Continues;
    var rest := occs[1..];
    if !Continues(occs[0].key, wanted) && forall i :: 0 <= i < n ==> !Continues(rest[i].key, wanted) {
      forall i | 0 <= i < 1 + n ensures !Continues(occs[i].key, wanted) {
        if i > 0 {
          assert !Continues(rest[i - 1].key, wanted);
        }
      }
    }
    if forall i :: 0 <= i < 1 + n ==> !Continues(occs[i].key, wanted) {
      forall i | 0 <= i < n ensures !Continues(rest[i].key, wanted) {
        assert !Continues(occs[i + 1].key, wanted);
      }
    }
  }

  /** The body of the first member with a name, when it is a string. */
  ghost function NamedBody(occs: seq<Occurrence>, wanted: CString): Option<seq<Piece>> {
    var i := NamedIndex(occs, wanted);
    if i < |occs| && occs[i].value.Text? && AllLegal(occs[i].value.body) then Some(occs[i].value.body) else None
  }

  ghost predicate NulFreeKeys(occs: seq<Occurrence>) {
    forall i :: 0 <= i < |occs| ==> 0 !in occs[i].key
  }

  /** Without NULs in keys, the string value of a basic key is what the decoder makes of the first member so named. */
  lemma StringValueOfNamed(pre: seq<Byte>, v: Value, post: seq<Byte>, wanted: CString)
    requires WellFormed(v, LIMIT) && AllSpace(pre) && AllSpace(post) && wanted != [] && IsBasic(wanted)
    requires NulFreeKeys(Occurrences(v, LIMIT, |pre|))
    ensures 0 !in Document(pre, v, post)
    ensures StringValue(Document(pre, v, post), wanted)
         == match NamedBody(Occurrences(v, LIMIT, |pre|), wanted)
            case Some(body) => GoodText(MeaningAll(body))
            case None => NoText
  {
    hide StringValue, Occurrences, WellFormed, AllSpace, Document, IsBasic, MeaningAll, KeyMatches, IsNamed;
    StringValueOfDocument(pre, v, post, wanted);
    OccurrencesDecoded(v, |pre|);
    FirstIsNamedOne(Occurrences(v, LIMIT, |pre|), wanted);
  }

  lemma ClientKeysAreBasic()
    ensures IsBasic(SESSION_UPDATE) && IsBasic(TEXT) && IsBasic(ID) && IsBasic(ERROR)
  {
  }

  /**
   * In RFC terms: when the first member named "sessionUpdate" says agent_message_chunk, the line adds the text of the
   * first member named "text" exactly when no escape in that is a surrogate.
   */
  lemma ChunkIsText(pre: seq<Byte>, v: Value, post: seq<Byte>, update: seq<Piece>, body: seq<Piece>)
    requires WellFormed(v, LIMIT) && AllSpace(pre) && AllSpace(post) && NulFreeKeys(Occurrences(v, LIMIT, |pre|))
    requires NamedBody(Occurrences(v, LIMIT, |pre|), SESSION_UPDATE) == Some(update) && AllLegal(update)
    requires NamedBody(Occurrences(v, LIMIT, |pre|), TEXT) == Some(body) && AllLegal(body)
    requires TextOf(update) == Some(AGENT_MESSAGE_CHUNK)
    ensures TextOf(body) == Some(ChunkText(Document(pre, v, post))) <==> !HasHalves(body)
    ensures ChunkText(Document(pre, v, post)) == MeaningAll(body)
  {
    hide StringValue, Occurrences, WellFormed, AllSpace, Document, MeaningAll, NamedBody, NulFreeKeys, UpToNul,
         KeyMatches, TextOf, HasHalves, IsBasic;
    ClientKeysAreBasic();
    DocumentIsLine(pre, v, post);
    StringValueOfNamed(pre, v, post, SESSION_UPDATE);
    StringValueOfNamed(pre, v, post, TEXT);
    UpdateRead(update);
    MeaningIsText(body);
  }

  lemma UpdateRead(update: seq<Piece>)
    requires AllLegal(update) && TextOf(update) == Some(AGENT_MESSAGE_CHUNK)
    ensures KeyMatches(MeaningAll(update), AGENT_MESSAGE_CHUNK)
  {
    hide TextOf, MeaningAll, HasHalves, KeyMatches, AllLegal;
    MeaningIsText(update);
    if HasHalves(update) {
      PairsShow(update);
    } else {
      KeyMatchesItself(AGENT_MESSAGE_CHUNK);
    }
  }

  // ---- what comes right behind a value ----

  /** The byte behind each value is there and cannot continue a number. */
  ghost predicate Delimited(s: seq<Byte>, occs: seq<Occurrence>) {
    forall i :: 0 <= i < |occs| ==> DelimitedAt(s, occs[i].at + |Print(occs[i].value)|)
  }

  predicate DelimitedAt(s: seq<Byte>, q: nat) { q < |s| && !IsScalarByte(s[q]) }

  lemma DelimitedJoin(s: seq<Byte>, a: seq<Occurrence>, b: seq<Occurrence>)
    requires Delimited(s, a) && Delimited(s, b)
    ensures Delimited(s, a + b)
  {
    hide DelimitedAt;
  }

  lemma DelimitedOne(s: seq<Byte>, o: Occurrence)
    requires DelimitedAt(s, o.at + |Print(o.value)|)
    ensures Delimited(s, [o])
  {
    hide DelimitedAt;
  }

  /** Space, then a comma or a closing brace. */
  lemma BehindMember(s: seq<Byte>, q: nat, after: seq<Byte>, rest: Members)
    requires AllSpace(after) && Holds(s, q, after) && Holds(s, q + |after|, PrintMembers(rest, true))
    requires DelimitedAt(s, q + |after| + |PrintMembers(rest, true)|)
    ensures DelimitedAt(s, q)
  {
    if after != [] {
      HoldsIndex(s, q, after);
      assert s[q + 0] == after[0];
      assert IsSpace(after[0]);
    } else if rest.Member? {
      hide Holds, DelimitedAt;
      MemberParts(s, q, rest, true);
      assert Lead(true) + rest.before == [COMMA] + rest.before;
      HoldsSplit(s, q, [COMMA], rest.before);
      CommaDelimits(s, q);
    }
  }

  lemma CommaDelimits(s: seq<Byte>, q: nat)
    requires Holds(s, q, [COMMA])
    ensures DelimitedAt(s, q)
  {
    HoldsIndex(s, q, [COMMA]);
    assert s[q + 0] == COMMA;
  }

  lemma BraceDelimits(s: seq<Byte>, q: nat)
    requires Holds(s, q, [0x7d])
    ensures DelimitedAt(s, q)
  {
    HoldsIndex(s, q, [0x7d]);
    assert s[q + 0] == 0x7d;
  }

  lemma {:induction false} OccurrencesDelimited(s: seq<Byte>, p: nat, v: Value)
    requires WellFormed(v, LIMIT) && Holds(s, p, Print(v))
    ensures Delimited(s, Occurrences(v, LIMIT, p))
    decreases v
  {
    hide Holds, PrintItems, PrintMembers, ItemOccurrences, MemberOccurrences, Delimited, DelimitedAt, WellFormedItems,
         WellFormedMembers;
    if v.List? {
      ListUnfolds(s, p, v);
      ItemsDelimited(s, p + 1 + |v.pad|, v.items, false);
    } else if v.Record? {
      RecordUnfolds(s, p, v);
      BraceDelimits(s, p + 1 + |v.pad| + |PrintMembers(v.members, false)|);
      MembersDelimited(s, p + 1 + |v.pad|, v.members, false);
    } else {
      NothingDelimited(s);
    }
  }

  lemma NothingDelimited(s: seq<Byte>)
    ensures Delimited(s, [])
  {
  }

  lemma {:induction false} ItemsDelimited(s: seq<Byte>, p: nat, items: Items, comma: bool)
    requires WellFormedItems(items, LIMIT) && Holds(s, p, PrintItems(items, comma))
    ensures Delimited(s, ItemOccurrences(items, LIMIT, p, comma))
    decreases items
  {
    hide Holds, PrintItems, Print, Occurrences, Delimited, WellFormed, AllSpace, Lead;
    if items.Item? {
      var at := p + |Lead(comma) + items.before|;
      var r := at + |Print(items.value)| + |items.after|;
      ItemParts(s, p, items, comma);
      ItemUnfolds(s, p, items, comma);
      OccurrencesDelimited(s, at, items.value);
      ItemsDelimited(s, r, items.rest, true);
      DelimitedJoin(s, Occurrences(items.value, LIMIT, at), ItemOccurrences(items.rest, LIMIT, r, true));
    } else {
      NothingDelimited(s);
    }
  }

  lemma {:induction false} MembersDelimited(s: seq<Byte>, p: nat, m: Members, comma: bool)
    requires WellFormedMembers(m, LIMIT) && Holds(s, p, PrintMembers(m, comma))
    requires DelimitedAt(s, p + |PrintMembers(m, comma)|)
    ensures Delimited(s, MemberOccurrences(m, LIMIT, p, comma))
    decreases m
  {
    hide *;
    if m.NoMember? {
      NoMembersDelimited(s, p, m, comma);
    } else {
      var at := p + |Lead(comma) + m.before| + |Quoted(m.key)| + |m.afterKey| + 1 + |m.beforeValue|;
      var q := at + |Print(m.value)|;
      var r := q + |m.after|;
      MemberParts(s, p, m, comma);
      MemberUnfolds(s, p, m, comma);
      OccurrencesDelimited(s, at, m.value);
      MembersDelimited(s, r, m.rest, true);
      BehindMember(s, q, m.after, m.rest);
      var own := Occurrence(m.key, MeaningAll(m.key), m.value, at);
      DelimitedOne(s, own);
      DelimitedJoin(s, [own], Occurrences(m.value, LIMIT, at));
      DelimitedJoin(s, [own] + Occurrences(m.value, LIMIT, at), MemberOccurrences(m.rest, LIMIT, r, true));
    }
  }

  lemma NoMembersDelimited(s: seq<Byte>, p: nat, m: Members, comma: bool)
    requires m.NoMember?
    ensures Delimited(s, MemberOccurrences(m, LIMIT, p, comma))
  {
  }

  // ---- numbers ----

  predicate AllDigits(s: seq<Byte>) {
    forall i :: 0 <= i < |s| ==> IsDigit(s[i])
  }

  function Accumulate(ds: seq<Byte>, n: nat): nat
    requires AllDigits(ds)
  {
    if ds == [] then n else Accumulate(ds[1..], 10 * n + (ds[0] - 0x30))
  }

  lemma {:induction false} AccumulateAppend(a: seq<Byte>, b: seq<Byte>, n: nat)
    requires AllDigits(a) && AllDigits(b)
    ensures AllDigits(a + b) && Accumulate(a + b, n) == Accumulate(b, Accumulate(a, n))
    decreases |a|
  {
    if a == [] {
      assert a + b == b;
    } else {
      assert (a + b)[1..] == a[1..] + b;
      AccumulateAppend(a[1..], b, 10 * n + (a[0] - 0x30));
    }
  }

  lemma OneDigit(d: nat, n: nat)
    requires d < 10
    ensures AllDigits([0x30 + d]) && Accumulate([0x30 + d], n) == 10 * n + d
  {
    var one: seq<Byte> := [0x30 + d];
    assert one[1..] == [];
  }

  /** The digits of a number add up to it. */
  lemma {:induction false} DecimalAddsUp(n: nat)
    ensures AllDigits(Decimal(n)) && Decimal(n) != [] && Accumulate(Decimal(n), 0) == n
  {
    hide Accumulate;
    OneDigit(n % 10, n / 10);
    if n < 10 {
      OneDigit(n, 0);
    } else {
      DecimalAddsUp(n / 10);
      AccumulateAppend(Decimal(n / 10), [0x30 + n % 10], 0);
    }
  }

  lemma {:induction false} DigitsRead(s: CString, p: nat, ds: seq<Byte>, n: nat)
    requires Holds(s, p, ds) && AllDigits(ds) && p + |ds| <= |s| && (p + |ds| < |s| ==> !IsDigit(s[p + |ds|]))
    ensures ReadDigits(s, p, n) == Accumulate(ds, n)
    decreases |ds|
  {
    if ds != [] {
      HoldsIndex(s, p, ds);
      assert s[p + 0] == ds[0];
      assert ds == [ds[0]] + ds[1..];
      HoldsSplit(s, p, [ds[0]], ds[1..]);
      DigitsRead(s, p + 1, ds[1..], 10 * n + (ds[0] - 0x30));
    }
  }

  /** An integer as JSON writes it: a minus sign or none, and its digits. */
  function Literal(minus: bool, n: nat): (s: CString) { (if minus then [0x2d] else []) + Decimal(n) }

  function Signed(minus: bool, n: nat): int { if minus then 0 - n else n }

  function InLong(n: int): IntegerResult {
    if -LONG_MAX - 1 <= n <= LONG_MAX then GoodInteger(n) else BrokenInteger
  }

  lemma NotSpace(s: CString, p: nat)
    requires p < |s| && !IsSpace(s[p])
    ensures SkipSpace(s, p) == p
  {
  }

  /** A printed integer is read back, unless a long cannot hold it, whatever but a digit follows. */
  lemma LiteralRead(s: CString, p: nat, minus: bool, n: nat)
    requires Holds(s, p, Literal(minus, n)) && p + |Literal(minus, n)| <= |s|
    requires p + |Literal(minus, n)| < |s| ==> !IsDigit(s[p + |Literal(minus, n)|])
    ensures ToLong(s, p) == InLong(Signed(minus, n))
  {
    hide Decimal, SkipSpace, ReadDigits, Accumulate, Holds;
    var sign: seq<Byte> := if minus then [0x2d] else [];
    DecimalAddsUp(n);
    HoldsSplit(s, p, sign, Decimal(n));
    DigitsRead(s, p + |sign|, Decimal(n), 0);
    HoldsIndex(s, p, Literal(minus, n));
    assert s[p + 0] == Literal(minus, n)[0];
    HoldsIndex(s, p + |sign|, Decimal(n));
    assert s[p + |sign| + 0] == Decimal(n)[0];
    assert IsDigit(Decimal(n)[0]);
    NotSpace(s, p);
  }

  /** In front of it strtol skips whitespace, and takes a plus sign for nothing. */
  lemma BeforeTheDigits(s: CString, p: nat)
    requires p < |s|
    ensures IsSpace(s[p]) ==> ToLong(s, p) == ToLong(s, p + 1)
    ensures s[p] == '+' as int && p + 1 < |s| && IsDigit(s[p + 1]) ==> ToLong(s, p) == ToLong(s, p + 1)
    ensures IsDigit(s[p]) <==> '0' as int <= s[p] <= '9' as int
  {
    hide ReadDigits;
    if s[p] == 0x2b && p + 1 < |s| && IsDigit(s[p + 1]) {
      NotSpace(s, p);
      NotSpace(s, p + 1);
    }
  }

  lemma {:induction false} DigitsWithin(s: CString, p: nat, t: CString, k: nat, n: nat)
    requires Holds(s, p, t) && p + |t| <= |s| && k <= |t| && (p + |t| < |s| ==> !IsDigit(s[p + |t|]))
    ensures ReadDigits(s, p + k, n) == ReadDigits(t, k, n)
    decreases |t| - k
  {
    HoldsIndex(s, p, t);
    if k < |t| {
      assert s[p + k] == t[k];
      if IsDigit(t[k]) {
        DigitsWithin(s, p, t, k + 1, 10 * n + (t[k] - 0x30));
      }
    }
  }

  /** A scalar in place is read as on its own. */
  lemma ScalarRead(s: CString, p: nat, t: CString)
    requires IsScalar(t) && Holds(s, p, t) && p + |t| <= |s| && DelimitedAt(s, p + |t|)
    ensures ToLong(s, p) == ToLong(t, 0)
  {
    hide SkipSpace, ReadDigits, Holds;
    HoldsIndex(s, p, t);
    assert s[p + 0] == t[0] && IsScalarByte(t[0]);
    NotSpace(s, p);
    NotSpace(t, 0);
    var d := if t[0] == 0x2b || t[0] == 0x2d then 1 else 0;
    assert d < |t| ==> s[p + d] == t[d];
    DigitsWithin(s, p, t, d, 0);
  }

  lemma NoNumber(s: CString, p: nat)
    requires p < |s| && (s[p] == QUOTE || s[p] == 0x5b || s[p] == 0x7b)
    ensures ToLong(s, p) == BrokenInteger
  {
    NotSpace(s, p);
  }

  /** What a value is read as: a scalar as its leading integer, anything else as none. */
  ghost function ValueInteger(v: Value): IntegerResult {
    if v.Scalar? && 0 !in v.text then ToLong(v.text, 0) else BrokenInteger
  }

  lemma ValueIntegerRead(s: CString, p: nat, v: Value)
    requires WellFormed(v, LIMIT) && Holds(s, p, Print(v)) && DelimitedAt(s, p + |Print(v)|)
    ensures p <= |s| && ToLong(s, p) == ValueInteger(v)
  {
    hide Holds, ToLong, DelimitedAt, PrintItems, PrintMembers, WellFormedItems, WellFormedMembers, ShowAll;
    PrintNonempty(v, LIMIT);
    HoldsIndex(s, p, Print(v));
    assert s[p + 0] == Print(v)[0];
    if v.Scalar? {
      ScalarHasNoNul(v.text);
      ScalarRead(s, p, v.text);
    } else {
      NoNumber(s, p);
    }
  }

  lemma ScalarHasNoNul(t: seq<Byte>)
    requires IsScalar(t)
    ensures 0 !in t
  {
  }

  /** An integer literal, perhaps with a fraction or exponent behind it, is read as that integer if a long holds it. */
  lemma LiteralValue(minus: bool, n: nat, rest: seq<Byte>)
    requires 0 !in rest && (rest != [] ==> !IsDigit(rest[0]))
    ensures ValueInteger(Scalar(Literal(minus, n) + rest)) == InLong(Signed(minus, n))
  {
    hide Literal, ToLong, InLong;
    var text: CString := Literal(minus, n) + rest;
    HoldsThree([], Literal(minus, n), rest);
    assert [] + Literal(minus, n) + rest == text;
    LiteralRead(text, 0, minus, n);
  }

  /** On a document, the integer value of a key is that of the first member with the key, if there is one. */
  lemma IntegerValueOfDocument(pre: seq<Byte>, v: Value, post: seq<Byte>, wanted: CString)
    requires WellFormed(v, LIMIT) && AllSpace(pre) && AllSpace(post)
    ensures 0 !in Document(pre, v, post)
    ensures IntegerValue(Document(pre, v, post), wanted)
         == match FirstValue(Occurrences(v, LIMIT, |pre|), wanted)
            case Some(value) => ValueInteger(value)
            case None => NoInteger
  {
    hide Scan, Occurrences, Print, KeyMatches, Holds, FirstIndex, ToLong, WellFormed, AllSpace, ValueInteger,
         DelimitedAt, Document;
    FindsFirstMember(pre, v, post, wanted);
    var s: CString := Document(pre, v, post);
    var occs := Occurrences(v, LIMIT, |pre|);
    var i := FirstIndex(occs, wanted);
    FirstMatchIs(occs, wanted, i);
    OccurrencesWellFormed(v, |pre|);
    DocumentParts(pre, v, post);
    OccurrencesDelimited(s, |pre|, v);
    if i < |occs| {
      ValueIntegerRead(s, occs[i].at, occs[i].value);
    }
  }

  // ---- which lines answer, and which break the exchange ----

  ghost predicate HasKey(occs: seq<Occurrence>, wanted: CString) {
    exists i :: 0 <= i < |occs| && KeyMatches(occs[i].key, wanted)
  }

  lemma ScanOfKey(pre: seq<Byte>, v: Value, post: seq<Byte>, wanted: CString)
    requires WellFormed(v, LIMIT) && AllSpace(pre) && AllSpace(post)
    ensures 0 !in Document(pre, v, post)
    ensures Scan(Document(pre, v, post), 0, wanted).Some? <==> HasKey(Occurrences(v, LIMIT, |pre|), wanted)
  {
    hide Scan, Occurrences, KeyMatches, WellFormed, AllSpace, Document, FirstIndex, FirstMatch, Placed;
    FindsFirstMember(pre, v, post, wanted);
    var occs := Occurrences(v, LIMIT, |pre|);
    FirstMatchIs(occs, wanted, FirstIndex(occs, wanted));
  }

  /** The integer a document carries as its first "id". */
  ghost function IdOf(occs: seq<Occurrence>): IntegerResult {
    match FirstValue(occs, ID)
    case Some(value) => ValueInteger(value)
    case None => NoInteger
  }

  /** A document answers a request exactly when its first "id" is the request's and it has no "error" at any depth. */
  lemma AnswersOfDocument(pre: seq<Byte>, v: Value, post: seq<Byte>, id: int)
    requires WellFormed(v, LIMIT) && AllSpace(pre) && AllSpace(post)
    ensures var occs := Occurrences(v, LIMIT, |pre|);
            Answers(Document(pre, v, post), id) == (IdOf(occs) == GoodInteger(id) && !HasKey(occs, ERROR))
  {
    hide Scan, IntegerValue, Occurrences, WellFormed, AllSpace, Document, UpToNul, FirstValue, ValueInteger, HasKey;
    DocumentIsLine(pre, v, post);
    IntegerValueOfDocument(pre, v, post, ID);
    ScanOfKey(pre, v, post, ERROR);
  }

  /** In particular, when the first "id" is written as an integer: exactly when it is this one and a long holds it. */
  lemma AnswersLiteral(pre: seq<Byte>, v: Value, post: seq<Byte>, id: int, minus: bool, n: nat)
    requires WellFormed(v, LIMIT) && AllSpace(pre) && AllSpace(post)
    ensures var occs := Occurrences(v, LIMIT, |pre|);
            FirstValue(occs, ID) == Some(Scalar(Literal(minus, n))) ==>
              Answers(Document(pre, v, post), id)
              == (Signed(minus, n) == id && -LONG_MAX - 1 <= id <= LONG_MAX && !HasKey(occs, ERROR))
  {
    hide Answers, Occurrences, WellFormed, AllSpace, Document, FirstValue, ValueInteger, HasKey, Literal;
    AnswersOfDocument(pre, v, post, id);
    LiteralValue(minus, n, []);
    assert Literal(minus, n) + [] == Literal(minus, n);
  }

  /**
   * A document breaks the exchange exactly when it is too long, its first "id" is no integer a long holds, or it
   * carries the awaited id and an error. Its strings never do.
   */
  lemma BreaksOfDocument(pre: seq<Byte>, v: Value, post: seq<Byte>, id: int, collecting: bool)
    requires WellFormed(v, LIMIT) && AllSpace(pre) && AllSpace(post)
    ensures var occs := Occurrences(v, LIMIT, |pre|);
            Breaks(Document(pre, v, post), id, collecting)
            == (|| |Document(pre, v, post)| > MAX_PROTOCOL_LINE_BYTES
                || IdOf(occs).BrokenInteger?
                || (IdOf(occs) == GoodInteger(id) && HasKey(occs, ERROR)))
  {
    hide Scan, IntegerValue, StringValue, Occurrences, WellFormed, AllSpace, Document, UpToNul, FirstValue, FirstString,
         ValueInteger, HasKey, KeyMatches;
    DocumentIsLine(pre, v, post);
    IntegerValueOfDocument(pre, v, post, ID);
    ScanOfKey(pre, v, post, ERROR);
    StringValueOfDocument(pre, v, post, SESSION_UPDATE);
    StringValueOfDocument(pre, v, post, TEXT);
  }
}
