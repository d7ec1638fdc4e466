/** find_json_key: finding a member without building a tree (runtime/fx_eink.c). */
module JsonScanner {
  import opened Bytes
  import opened JsonText
  import opened JsonStrings
  import opened TextBuffers
  import opened EinkJson
  import opened JsonDocument

  /** strchr for a quotation mark; the terminator's position when there is none. */
  function NextQuote(s: CString, p: nat): (q: nat)
    requires p <= |s|
    ensures p <= q <= |s|
    ensures q < |s| ==> s[q] == QUOTE
    decreases |s| - p
  {
    if p == |s| || s[p] == QUOTE then p else NextQuote(s, p + 1)
  }

  function SkipSpace(s: CString, p: nat): (q: nat)
    requires p <= |s|
    ensures p <= q <= |s|
    decreases |s| - p
  {
    if p < |s| && IsSpace(s[p]) then SkipSpace(s, p + 1) else p
  }

  /** The key test: the decoded bytes up to their first NUL, unless nothing at all was decoded. */
  predicate KeyMatches(key: seq<Byte>, wanted: CString) {
    key != [] && UpToNul(key) == wanted
  }

  /** What a quotation mark opens, and where the scan stands after it: at a value when a key was read. */
  datatype Token = Other(next: nat) | Key(text: seq<Byte>, next: nat)

  function TokenAt(s: CString, q: nat): (t: Token)
    requires q < |s|
    ensures q < t.next <= |s|
  {
    var d := Decode(s, q, []);
    if d.Bad? then Other(q + 1)
    else
      var c := SkipSpace(s, d.end);
      if At(s, c) == COLON then Key(d.text, SkipSpace(s, c + 1)) else Other(c)
  }

  /** The scan from a position: where the value of the first matching key starts. */
  function Scan(s: CString, p: nat, wanted: CString): (r: Option<nat>)
    requires p <= |s|
    ensures r.Some? ==> p < r.value <= |s|
    decreases |s| - p
  {
    var q := NextQuote(s, p);
    if q == |s| then None
    else
      var t := TokenAt(s, q);
      if t.Key? && KeyMatches(t.text, wanted) then Some(t.next) else Scan(s, t.next, wanted)
  }

  method SkipWhitespace(s: CString, p: nat) returns (cursor: nat)
    requires p <= |s|
    ensures cursor == SkipSpace(s, p)
  {
    cursor := p;
    while At(s, cursor) != 0 && IsSpace(At(s, cursor))
      invariant p <= cursor <= |s|
      invariant SkipSpace(s, cursor) == SkipSpace(s, p)
      decreases |s| - cursor
    {
      cursor := cursor + 1;
    }
  }

  method FindQuote(s: CString, p: nat) returns (cursor: nat)
    requires p <= |s|
    ensures cursor == NextQuote(s, p)
  {
    cursor := p;
    while At(s, cursor) != 0 && At(s, cursor) != QUOTE
      invariant p <= cursor <= |s|
      invariant NextQuote(s, cursor) == NextQuote(s, p)
      decreases |s| - cursor
    {
      cursor := cursor + 1;
    }
  }

  /** One turn of the scanning loop, from a quotation mark. */
  method NextToken(json: CString, start: nat, wanted: CString) returns (next: nat, matches: bool)
    requires start < |json|
    ensures next == TokenAt(json, start).next
    ensures matches <==> TokenAt(json, start).Key? && KeyMatches(TokenAt(json, start).text, wanted)
  {
    var key := new TextBuffer();
    var decoded, after := DecodeJsonString(json, start, key);
    matches := decoded && key.data.Length > 0 && UpToNul(key.data[..key.length]) == wanted;
    if !decoded {
      return start + 1, false;
    }
    next := SkipWhitespace(json, after);
    if At(json, next) != COLON {
      return next, false;
    }
    next := SkipWhitespace(json, next + 1);
  }

  method FindJsonKey(json: CString, wanted: CString) returns (found: Option<nat>)
    ensures found == Scan(json, 0, wanted)
  {
    var cursor := FindQuote(json, 0);
    while cursor < |json|
      invariant cursor <= |json| && NextQuote(json, cursor) == cursor
      invariant Scan(json, cursor, wanted) == Scan(json, 0, wanted)
      decreases |json| - cursor
    {
      var next, matches := NextToken(json, cursor, wanted);
      if matches {
        return Some(next);
      }
      cursor := FindQuote(json, next);
    }
    found := None;
  }

  // ---- the scan over a printed document ----

  /** The first occurrence, in document order, whose key matches. */
  ghost function FirstMatch(occs: seq<Occurrence>, wanted: CString): Option<nat> {
    if occs == [] then None
    else if KeyMatches(occs[0].key, wanted) then Some(occs[0].at)
    else FirstMatch(occs[1..], wanted)
  }

  ghost function Or(a: Option<nat>, b: Option<nat>): Option<nat> { if a.Some? then a else b }

  lemma {:induction false} FirstMatchAppend(a: seq<Occurrence>, b: seq<Occurrence>, wanted: CString)
    ensures FirstMatch(a + b, wanted) == Or(FirstMatch(a, wanted), FirstMatch(b, wanted))
  {
    if a == [] {
      assert a + b == b;
    } else {
      assert (a + b)[1..] == a[1..] + b;
      FirstMatchAppend(a[1..], b, wanted);
    }
  }

  lemma {:induction false} NextQuoteSkips(s: CString, p: nat, q: nat)
    requires p <= q <= |s| && forall i :: p <= i < q ==> s[i] != QUOTE
    ensures NextQuote(s, p) == NextQuote(s, q)
    decreases q - p
  {
    if p < q {
      NextQuoteSkips(s, p + 1, q);
    }
  }

  /** Bytes other than quotes are passed over. */
  lemma ScanSkips(s: CString, p: nat, part: seq<Byte>, wanted: CString)
    requires Holds(s, p, part) && forall i :: 0 <= i < |part| ==> part[i] != QUOTE
    ensures Scan(s, p, wanted) == Scan(s, p + |part|, wanted)
  {
    hide Holds, TokenAt, KeyMatches, NextQuote;
    HoldsIndex(s, p, part);
    forall i | p <= i < p + |part| ensures s[i] != QUOTE {
      assert s[p + (i - p)] == part[i - p];
    }
    NextQuoteSkips(s, p, p + |part|);
  }

  lemma {:induction false} SkippedIsSpace(s: CString, p: nat)
    requires p <= |s|
    ensures forall i :: p <= i < SkipSpace(s, p) ==> IsSpace(s[i])
    decreases |s| - p
  {
    if p < |s| && IsSpace(s[p]) {
      SkippedIsSpace(s, p + 1);
    }
  }

  lemma {:induction false} SkipSpaceTo(s: CString, p: nat, q: nat)
    requires p <= q <= |s| && forall i :: p <= i < q ==> IsSpace(s[i])
    ensures SkipSpace(s, p) == SkipSpace(s, q)
    decreases q - p
  {
    if p < q {
      SkipSpaceTo(s, p + 1, q);
    }
  }

  lemma SkipSpacePart(s: CString, p: nat, part: seq<Byte>)
    requires Holds(s, p, part) && AllSpace(part)
    ensures SkipSpace(s, p) == SkipSpace(s, p + |part|)
  {
    HoldsIndex(s, p, part);
    forall i | p <= i < p + |part| ensures IsSpace(s[i]) {
      assert s[p + (i - p)] == part[i - p];
    }
    SkipSpaceTo(s, p, p + |part|);
  }

  /** What follows a value never reads as the colon of a member. */
  predicate Ends(s: CString, p: nat)
    requires p <= |s|
  {
    At(s, SkipSpace(s, p)) != COLON
  }

  lemma TokenDecodes(s: CString, p: nat, body: seq<Piece>)
    requires AllLegal(body) && |MeaningAll(body)| <= MAX_RESPONSE_BYTES && Holds(s, p, Quoted(body))
    ensures p < |s| && s[p] == QUOTE && p + |Quoted(body)| <= |s|
    ensures Decode(s, p, []) == Good(MeaningAll(body), p + |Quoted(body)|)
  {
    QuotedIsClosed(s, p, body);
    DecodesQuoted(CLIENT, s, p, body);
    ClientAcceptsWhatFits(MAX_RESPONSE_BYTES, [], body);
  }

  lemma ScanStep(s: CString, p: nat, wanted: CString)
    requires p < |s| && s[p] == QUOTE
    ensures var t := TokenAt(s, p);
            Scan(s, p, wanted) == if t.Key? && KeyMatches(t.text, wanted) then Some(t.next) else Scan(s, t.next, wanted)
  {
    assert NextQuote(s, p) == p;
  }

  lemma TokenBehind(s: CString, q: nat, text: seq<Byte>, end: nat)
    requires q < |s| && end <= |s| && Decode(s, q, []) == Good(text, end)
    ensures var c := SkipSpace(s, end);
            TokenAt(s, q) == if At(s, c) == COLON then Key(text, SkipSpace(s, c + 1)) else Other(c)
  {
    hide DecodeBody, SkipSpace;
  }

  lemma ScanText(s: CString, p: nat, body: seq<Piece>, wanted: CString)
    requires AllLegal(body) && |MeaningAll(body)| <= MAX_RESPONSE_BYTES && Holds(s, p, Quoted(body))
    requires Ends(s, p + |Quoted(body)|)
    ensures Scan(s, p, wanted) == Scan(s, p + |Quoted(body)|, wanted)
  {
    hide Decode, Scan, SkipSpace, TokenAt, Quoted, MeaningAll, AllLegal;
    TokenDecodes(s, p, body);
    TokenBehind(s, p, MeaningAll(body), p + |Quoted(body)|);
    ScanStep(s, p, wanted);
    ScanSpace(s, p + |Quoted(body)|, wanted);
  }

  lemma ScanSpace(s: CString, p: nat, wanted: CString)
    requires p <= |s|
    ensures Scan(s, SkipSpace(s, p), wanted) == Scan(s, p, wanted)
  {
    SkippedIsSpace(s, p);
    NextQuoteSkips(s, p, SkipSpace(s, p));
  }

  /** How a member begins: its key, its colon, the space around the colon, and then its value at `at`. */
  ghost predicate MemberHead(s: CString, p: nat, key: seq<Piece>, afterKey: seq<Byte>,
    beforeValue: seq<Byte>, at: nat) {
    && AllLegal(key) && |MeaningAll(key)| <= MAX_RESPONSE_BYTES && AllSpace(afterKey) && AllSpace(beforeValue)
    && Holds(s, p, Quoted(key))
    && Holds(s, p + |Quoted(key)|, afterKey)
    && Holds(s, p + |Quoted(key)| + |afterKey|, [COLON])
    && Holds(s, p + |Quoted(key)| + |afterKey| + 1, beforeValue)
    && at == p + |Quoted(key)| + |afterKey| + 1 + |beforeValue|
    && at < |s| && !IsSpace(s[at])
  }

  lemma KeyToken(s: CString, p: nat, key: seq<Piece>, afterKey: seq<Byte>, beforeValue: seq<Byte>)
    requires AllLegal(key) && |MeaningAll(key)| <= MAX_RESPONSE_BYTES && AllSpace(afterKey) && AllSpace(beforeValue)
    requires Holds(s, p, Quoted(key))
    requires var e := p + |Quoted(key)|;
             && Holds(s, e, afterKey) && Holds(s, e + |afterKey|, [COLON]) && Holds(s, e + |afterKey| + 1, beforeValue)
             && (var at := e + |afterKey| + 1 + |beforeValue|; at < |s| && !IsSpace(s[at]))
    ensures p < |s| && s[p] == QUOTE
    ensures TokenAt(s, p) == Key(MeaningAll(key), p + |Quoted(key)| + |afterKey| + 1 + |beforeValue|)
  {
    hide *;
    TokenDecodes(s, p, key);
    TokenBehind(s, p, MeaningAll(key), p + |Quoted(key)|);
    ColonBetween(s, p + |Quoted(key)|, afterKey, beforeValue);
  }

  lemma ColonBetween(s: CString, e: nat, afterKey: seq<Byte>, beforeValue: seq<Byte>)
    requires AllSpace(afterKey) && AllSpace(beforeValue)
    requires Holds(s, e, afterKey) && Holds(s, e + |afterKey|, [COLON]) && Holds(s, e + |afterKey| + 1, beforeValue)
    requires var at := e + |afterKey| + 1 + |beforeValue|; at < |s| && !IsSpace(s[at])
    ensures var c := SkipSpace(s, e);
            At(s, c) == COLON && SkipSpace(s, c + 1) == e + |afterKey| + 1 + |beforeValue|
  {
    var c := e + |afterKey|;
    HoldsIndex(s, c, [COLON]);
    assert s[c + 0] == COLON;
    SkipSpacePart(s, e, afterKey);
    SkipSpacePart(s, c + 1, beforeValue);
  }

  lemma ScanKey(s: CString, p: nat, key: seq<Piece>, afterKey: seq<Byte>,
    beforeValue: seq<Byte>, at: nat, wanted: CString)
    requires MemberHead(s, p, key, afterKey, beforeValue, at)
    ensures Scan(s, p, wanted) == if KeyMatches(MeaningAll(key), wanted) then Some(at) else Scan(s, at, wanted)
  {
    hide Scan, TokenAt, KeyMatches, Quoted, MeaningAll, AllLegal;
    KeyToken(s, p, key, afterKey, beforeValue);
    ScanStep(s, p, wanted);
  }
}
