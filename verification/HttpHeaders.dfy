/** The header list the HTTP bridge takes as a JSON array of name/value objects (runtime/fx_wamr_native.c). */
module HttpHeaders {
  import opened Bytes
  import opened JsonStrings
  import opened FlatObjects
  import opened BridgeJson

  const MAX_HEADERS_BYTES: nat := 65536
  const NAME: CString := Ascii("name")
  const VALUE: CString := Ascii("value")

  datatype HeaderResult = NoHeaders | Headers(lines: seq<seq<Byte>>, end: nat)

  /** A C string may stand in a header line: no control characters and no DEL. */
  predicate IsSafe(text: CString) {
    forall i :: 0 <= i < |text| ==> text[i] >= 0x20 && text[i] != 0x7f
  }

  /** The last member with a key, as the C strings both sides are compared and kept as. */
  function LastOf(pairs: seq<Pair>, key: CString): Option<CString> {
    if pairs == [] then None
    else
      var last := pairs[|pairs| - 1];
      if UpToNul(last.key) == key then Some(UpToNul(last.value)) else LastOf(pairs[..|pairs| - 1], key)
  }

  function LineOf(name: Option<CString>, value: Option<CString>): Option<seq<Byte>> {
    if name == None || value == None || name.value == [] || !IsSafe(name.value) || !IsSafe(value.value)
       || COLON in name.value
    then None
    else Some(name.value + [COLON, SPACE] + value.value)
  }

  /** The header line an object stands for. */
  function HeaderLine(pairs: seq<Pair>): Option<seq<Byte>> {
    LineOf(LastOf(pairs, NAME), LastOf(pairs, VALUE))
  }

  /** Header objects up to the closing bracket, from a position where an object must stand. */
  function ReadHeaders(s: seq<Byte>, p: nat): (r: HeaderResult)
    requires p <= |s|
    ensures r.Headers? ==> p < r.end <= |s|
    decreases |s| - p
  {
    var o := ReadObject(HeaderStyle, s, p);
    if o.NoFields? || HeaderLine(o.pairs) == None then NoHeaders
    else
      var line := HeaderLine(o.pairs).value;
      var c := SkipBlank(s, o.end);
      if ByteAt(s, c, 0x5d) then Headers([line], c + 1)
      else if ByteAt(s, c, COMMA) then
        match ReadHeaders(s, SkipBlank(s, c + 1))
        case NoHeaders => NoHeaders
        case Headers(lines, end) => Headers([line] + lines, end)
      else NoHeaders
  }

  function ReadList(s: seq<Byte>, p: nat): (r: HeaderResult)
    requires p <= |s|
    ensures r.Headers? ==> p < r.end <= |s|
  {
    if !ByteAt(s, p, 0x5b) then NoHeaders
    else
      var q := SkipBlank(s, p + 1);
      if ByteAt(s, q, 0x5d) then Headers([], q + 1) else ReadHeaders(s, q)
  }

  function ReadHeaderList(s: seq<Byte>): Option<seq<seq<Byte>>> {
    if |s| > MAX_HEADERS_BYTES then None
    else
      var r := ReadList(s, SkipBlank(s, 0));
      if r.Headers? && SkipBlank(s, r.end) == |s| then Some(r.lines) else None
  }

  // ---- the parser ----

  method HeaderIsSafe(text: CString) returns (safe: bool)
    ensures safe == IsSafe(text)
  {
    var p := 0;
    while At(text, p) != 0
      invariant p <= |text| && forall i :: 0 <= i < p ==> text[i] >= 0x20 && text[i] != 0x7f
      decreases |text| - p
    {
      if text[p] == RETURN || text[p] == NEWLINE || text[p] == 0x7f || text[p] < 0x20 {
        return false;
      }
      p := p + 1;
    }
    safe := true;
  }

  /** One member, with the blanks behind it. */
  method ParseMember(s: seq<Byte>, p: nat)
    returns (ok: bool, after: nat, key: CString, field: CString, ghost pair: Pair)
    requires p <= |s|
    ensures ok <==> ReadField(HeaderStyle, s, p).Some?
    ensures ok ==> ReadField(HeaderStyle, s, p) == Some((pair, after)) && p < after <= |s|
                   && key == UpToNul(pair.key) && field == UpToNul(pair.value)
  {
    hide DecodeString, UpToNul, SkipBlank;
    after, key, field, pair := p, [], [], Pair([], []);
    var ok1, c, k, klen := ParseJsonString(s, p, true);
    if !ok1 {
      return false, after, key, field, pair;
    }
    c := SkipBlanks(s, c);
    if c >= |s| || s[c] != COLON {
      return false, after, key, field, pair;
    }
    c := SkipBlanks(s, c + 1);
    var ok2, e, v, vlen := ParseJsonString(s, c, true);
    if !ok2 {
      return false, after, key, field, pair;
    }
    pair := Pair(k[..klen], v[..vlen]);
    TerminatedText(k[..], klen);
    TerminatedText(v[..], vlen);
    assert k[..][..klen] == k[..klen] && v[..][..vlen] == v[..vlen];
    key, field := UpToNul(k[..]), UpToNul(v[..]);
    after := SkipBlanks(s, e);
    ok := true;
  }

  lemma LastOfAppend(met: seq<Pair>, pair: Pair, key: CString)
    ensures LastOf(met + [pair], key)
            == if UpToNul(pair.key) == key then Some(UpToNul(pair.value)) else LastOf(met, key)
  {
    hide UpToNul;
    var all := met + [pair];
    assert all[|all| - 1] == pair && all[..|all| - 1] == met;
  }

  /** The members of one object, from its first key on; the last name and the last value win. */
  method ParseMembers(s: seq<Byte>, start: nat)
    returns (ok: bool, p: nat, name: Option<CString>, value: Option<CString>)
    requires start <= |s|
    ensures ok <==> ReadFields(HeaderStyle, s, start).Fields?
    ensures ok ==> var r := ReadFields(HeaderStyle, s, start);
                   p == r.end && name == LastOf(r.pairs, NAME) && value == LastOf(r.pairs, VALUE)
  {
    hide ReadField, ReadFields, SkipBlank, UpToNul, LastOf;
    p, name, value := start, None, None;
    ghost var met := [];
    NothingMet();
    ghost var r := ReadFields(HeaderStyle, s, start);
    assert r.Fields? ==> [] + r.pairs == r.pairs;
    while true
      invariant p <= |s|
      invariant r == Prepend(met, ReadFields(HeaderStyle, s, p))
      invariant name == LastOf(met, NAME) && value == LastOf(met, VALUE)
      decreases |s| - p
    {
      ReadFieldsTurn(HeaderStyle, s, p, met);
      ghost var pair;
      var one, e, key, field;
      one, e, key, field, pair := ParseMember(s, p);
      if !one {
        return false, p, name, value;
      }
      NamesDiffer();
      LastOfAppend(met, pair, NAME);
      LastOfAppend(met, pair, VALUE);
      if key == NAME {
        name := Some(field);
      } else if key == VALUE {
        value := Some(field);
      }
      met := met + [pair];
      if e < |s| && s[e] == 0x7d {
        return true, e + 1, name, value;
      }
      if e >= |s| || s[e] != COMMA {
        return false, p, name, value;
      }
      p := SkipBlanks(s, e + 1);
    }
  }

  lemma NothingMet()
    ensures LastOf([], NAME) == None && LastOf([], VALUE) == None
  {
  }

  lemma NamesDiffer()
    ensures NAME != VALUE
  {
    assert |NAME| == 4 && |VALUE| == 5;
  }

  /** The list libcurl is handed. */
  class HeaderList {
    var lines: seq<seq<Byte>>

    constructor ()
      ensures lines == []
    {
      lines := [];
    }
  }

  method ParseHeaderObject(s: seq<Byte>, cursor: nat, headers: HeaderList) returns (ok: bool, after: nat)
    requires cursor <= |s|
    modifies headers
    ensures var r := ReadObject(HeaderStyle, s, cursor);
            && (ok <==> r.Fields? && HeaderLine(r.pairs).Some?)
            && (ok ==> after == r.end && headers.lines == old(headers.lines) + [HeaderLine(r.pairs).value])
            && (!ok ==> headers.lines == old(headers.lines))
  {
    hide ReadFields, SkipBlank, LastOf, IsSafe;
    after := cursor;
    if cursor >= |s| || s[cursor] != 0x7b {
      return false, after;
    }
    var p := SkipBlanks(s, cursor + 1);
    var name: Option<CString>, value: Option<CString> := None, None;
    NothingMet();
    if p < |s| && s[p] == 0x7d {
      p := p + 1;
    } else {
      var members;
      members, p, name, value := ParseMembers(s, p);
      if !members {
        return false, after;
      }
    }
    if name == None || value == None || name.value == [] {
      return false, after;
    }
    var nameSafe := HeaderIsSafe(name.value);
    var valueSafe := HeaderIsSafe(value.value);
    if !nameSafe || !valueSafe || COLON in name.value {
      return false, after;
    }
    headers.lines := headers.lines + [name.value + [COLON, SPACE] + value.value];
    return true, p;
  }

  ghost function PrependLines(met: seq<seq<Byte>>, r: HeaderResult): HeaderResult {
    if r.NoHeaders? then NoHeaders else Headers(met + r.lines, r.end)
  }

  method ParseHeaders(s: seq<Byte>, headers: HeaderList) returns (ok: bool)
    modifies headers
    ensures ok <==> ReadHeaderList(s).Some?
    ensures ok ==> headers.lines == old(headers.lines) + ReadHeaderList(s).value
  {
    hide ReadObject, SkipBlank, HeaderLine;
    if |s| > MAX_HEADERS_BYTES {
      return false;
    }
    var p := SkipBlanks(s, 0);
    if p >= |s| || s[p] != 0x5b {
      return false;
    }
    p := SkipBlanks(s, p + 1);
    ghost var had := headers.lines;
    if p < |s| && s[p] == 0x5d {
      p := SkipBlanks(s, p + 1);
      assert had + [] == had;
      return p == |s|;
    }
    ghost var r := ReadHeaders(s, p);
    while true
      invariant p <= |s|
      invariant PrependLines(had, r) == PrependLines(headers.lines, ReadHeaders(s, p))
      decreases |s| - p
    {
      ghost var met := headers.lines;
      HeadersTurn(s, p, met);
      var one, e := ParseHeaderObject(s, p, headers);
      if !one {
        return false;
      }
      p := SkipBlanks(s, e);
      if p < |s| && s[p] == 0x5d {
        p := SkipBlanks(s, p + 1);
        return p == |s|;
      }
      if p >= |s| || s[p] != COMMA {
        return false;
      }
      p := SkipBlanks(s, p + 1);
    }
  }

  lemma HeadersTurn(s: seq<Byte>, p: nat, met: seq<seq<Byte>>)
    requires p <= |s|
    ensures var o := ReadObject(HeaderStyle, s, p);
            if o.NoFields? || HeaderLine(o.pairs) == None then ReadHeaders(s, p) == NoHeaders
            else
              var now := met + [HeaderLine(o.pairs).value];
              var c := SkipBlank(s, o.end);
              PrependLines(met, ReadHeaders(s, p))
              == if ByteAt(s, c, 0x5d) then Headers(now, c + 1)
                 else if ByteAt(s, c, COMMA) then PrependLines(now, ReadHeaders(s, SkipBlank(s, c + 1)))
                 else NoHeaders
  {
    hide ReadObject, SkipBlank, HeaderLine;
    var o := ReadObject(HeaderStyle, s, p);
    if o.Fields? && HeaderLine(o.pairs).Some? {
      var c := SkipBlank(s, o.end);
      if ByteAt(s, c, COMMA) {
        var rest := ReadHeaders(s, SkipBlank(s, c + 1));
        if rest.Headers? {
          Assoc(met, [HeaderLine(o.pairs).value], rest.lines);
        }
      }
    }
  }

  // ---- what is accepted ----

  /** Header objects separated by commas and closed by a bracket. */
  datatype HeaderChain =
    | LastHeader(o: Object, after: seq<Byte>)
    | MoreHeaders(o: Object, after: seq<Byte>, gap: seq<Byte>, rest: HeaderChain)

  ghost predicate HeaderOk(o: Object) {
    ObjectOk(HeaderStyle, o) && HeaderLine(ObjectPairs(HeaderStyle, o)).Some?
  }

  ghost predicate HeadersOk(c: HeaderChain) {
    && HeaderOk(c.o) && AllBlank(c.after)
    && (c.MoreHeaders? ==> AllBlank(c.gap) && HeadersOk(c.rest))
  }

  function ShowHeaders(c: HeaderChain): seq<Byte> {
    match c
    case LastHeader(o, after) => ShowObject(o) + after + [0x5d]
    case MoreHeaders(o, after, gap, rest) => ShowObject(o) + after + [COMMA] + gap + ShowHeaders(rest)
  }

  ghost function HeaderLines(c: HeaderChain): seq<seq<Byte>>
    requires HeadersOk(c)
  {
    [HeaderLine(ObjectPairs(HeaderStyle, c.o)).value] + if c.LastHeader? then [] else HeaderLines(c.rest)
  }

  lemma ObjectThen(s: seq<Byte>, p: nat, o: Object, after: seq<Byte>, b: Byte)
    ensures Holds(s, p, ShowObject(o) + after + [b])
       <==> Holds(s, p, ShowObject(o)) && Holds(s, p + |ShowObject(o)|, after)
            && ByteAt(s, p + |ShowObject(o)| + |after|, b)
  {
    hide ShowObject, Holds, ByteAt;
    var a := ShowObject(o);
    OneByte(s, p + |a| + |after|, b);
    HoldsBoth(s, p, a + after, [b]);
    HoldsBoth(s, p, a, after);
  }

  lemma MoreHeadersParts(s: seq<Byte>, p: nat, c: HeaderChain)
    requires c.MoreHeaders?
    ensures var e := p + |ShowObject(c.o)| + |c.after|;
            && |ShowHeaders(c)| == |ShowObject(c.o)| + |c.after| + 1 + |c.gap| + |ShowHeaders(c.rest)|
            && (Holds(s, p, ShowHeaders(c))
                <==> Holds(s, p, ShowObject(c.o) + c.after + [COMMA]) && Holds(s, e + 1, c.gap)
                     && Holds(s, e + 1 + |c.gap|, ShowHeaders(c.rest)))
  {
    hide ShowObject, Holds;
    var a, b, d := ShowObject(c.o) + c.after + [COMMA], c.gap, ShowHeaders(c.rest);
    assert ShowHeaders(c) == a + b + d;
    HoldsBoth(s, p, a + b, d);
    HoldsBoth(s, p, a, b);
  }

  lemma HeadersStart(s: seq<Byte>, p: nat, c: HeaderChain)
    requires Holds(s, p, ShowHeaders(c))
    ensures p < |s| && s[p] == 0x7b
  {
    hide ShowObject, Holds;
    if c.LastHeader? {
      ObjectThen(s, p, c.o, c.after, 0x5d);
    } else {
      MoreHeadersParts(s, p, c);
      ObjectThen(s, p, c.o, c.after, COMMA);
    }
    ObjectStarts(s, p, c.o);
  }

  /** Printed header objects are read back as their lines, in order. */
  lemma {:induction false} ReadsHeaders(s: seq<Byte>, p: nat, c: HeaderChain)
    requires HeadersOk(c) && Holds(s, p, ShowHeaders(c))
    ensures p + |ShowHeaders(c)| <= |s|
    ensures ReadHeaders(s, p) == Headers(HeaderLines(c), p + |ShowHeaders(c)|)
    decreases c
  {
    hide ReadObject, ObjectOk, ObjectPairs, ShowObject, HeaderLine, Holds, AllBlank, SkipBlank;
    var q := p + |ShowObject(c.o)|;
    var e := q + |c.after|;
    ColonIsSolid();
    BracketIsSolid();
    if c.LastHeader? {
      ObjectThen(s, p, c.o, c.after, 0x5d);
      ReadsObject(HeaderStyle, s, p, c.o);
      SkipsBlanks(s, q, c.after);
    } else {
      MoreHeadersParts(s, p, c);
      ObjectThen(s, p, c.o, c.after, COMMA);
      ReadsObject(HeaderStyle, s, p, c.o);
      SkipsBlanks(s, q, c.after);
      HeadersStart(s, e + 1 + |c.gap|, c.rest);
      SkipsBlanks(s, e + 1, c.gap);
      ReadsHeaders(s, e + 1 + |c.gap|, c.rest);
    }
  }

  lemma BracketIsSolid()
    ensures !IsBlank(0x5b) && !IsBlank(0x5d)
  {
  }

  /** Whatever is read as header objects was printed as some. */
  lemma {:induction false} HeadersRead(s: seq<Byte>, p: nat) returns (c: HeaderChain)
    requires p <= |s| && ReadHeaders(s, p).Headers?
    ensures HeadersOk(c) && Holds(s, p, ShowHeaders(c))
    decreases |s| - p
  {
    hide ReadObject, ObjectOk, ObjectPairs, ShowObject, HeaderLine, Holds, AllBlank, IsBlank;
    var o := ObjectRead(HeaderStyle, s, p);
    var q := p + |ShowObject(o)|;
    var e := SkipBlank(s, q);
    SkippedBlanks(s, q);
    if ByteAt(s, e, 0x5d) {
      c := LastHeader(o, s[q..e]);
      ObjectThen(s, p, o, s[q..e], 0x5d);
    } else {
      var r := SkipBlank(s, e + 1);
      SkippedBlanks(s, e + 1);
      var rest := HeadersRead(s, r);
      c := MoreHeaders(o, s[q..e], s[e + 1..r], rest);
      ObjectThen(s, p, o, s[q..e], COMMA);
      MoreHeadersParts(s, p, c);
    }
  }

  /** A whole header list with its layout. */
  datatype Listing = NoneListed(pad: seq<Byte>) | Listed(pad: seq<Byte>, chain: HeaderChain)

  function ShowList(l: Listing): seq<Byte> {
    [0x5b] + l.pad + if l.NoneListed? then [0x5d] else ShowHeaders(l.chain)
  }

  ghost predicate ListOk(l: Listing) { AllBlank(l.pad) && (l.Listed? ==> HeadersOk(l.chain)) }

  ghost function ListLines(l: Listing): seq<seq<Byte>>
    requires ListOk(l)
  {
    if l.NoneListed? then [] else HeaderLines(l.chain)
  }

  lemma ListStarts(s: seq<Byte>, p: nat, l: Listing)
    requires Holds(s, p, ShowList(l))
    ensures ByteAt(s, p, 0x5b)
    ensures Holds(s, p + 1, l.pad)
    ensures Holds(s, p + 1 + |l.pad|, if l.NoneListed? then [0x5d] else ShowHeaders(l.chain))
  {
    hide Holds, ShowHeaders;
    HoldsSplit(s, p, [0x5b] + l.pad, if l.NoneListed? then [0x5d] else ShowHeaders(l.chain));
    HoldsSplit(s, p, [0x5b], l.pad);
    OneByte(s, p, 0x5b);
  }

  lemma ReadsList(s: seq<Byte>, p: nat, l: Listing)
    requires ListOk(l) && Holds(s, p, ShowList(l))
    ensures p + |ShowList(l)| <= |s|
    ensures ReadList(s, p) == Headers(ListLines(l), p + |ShowList(l)|)
  {
    hide ReadHeaders, HeadersOk, ShowHeaders, HeaderLines, Holds, AllBlank, SkipBlank, IsBlank;
    var q := p + 1 + |l.pad|;
    BracketIsSolid();
    ColonIsSolid();
    ListStarts(s, p, l);
    if l.NoneListed? {
      OneByte(s, q, 0x5d);
    } else {
      HeadersStart(s, q, l.chain);
      ReadsHeaders(s, q, l.chain);
    }
    SkipsBlanks(s, p + 1, l.pad);
  }

  lemma ListRead(s: seq<Byte>, p: nat) returns (l: Listing)
    requires p <= |s| && ReadList(s, p).Headers?
    ensures ListOk(l) && Holds(s, p, ShowList(l))
    ensures p + |ShowList(l)| <= |s| && ReadList(s, p) == Headers(ListLines(l), p + |ShowList(l)|)
  {
    hide ReadHeaders, HeadersOk, ShowHeaders, HeaderLines, Holds, AllBlank, SkipBlank;
    var q := SkipBlank(s, p + 1);
    SkippedBlanks(s, p + 1);
    OneByte(s, p, 0x5b);
    HoldsJoin(s, p, [0x5b], s[p + 1..q]);
    if ByteAt(s, q, 0x5d) {
      l := NoneListed(s[p + 1..q]);
      OneByte(s, q, 0x5d);
      HoldsJoin(s, p, [0x5b] + s[p + 1..q], [0x5d]);
    } else {
      var chain := HeadersRead(s, q);
      l := Listed(s[p + 1..q], chain);
      HoldsJoin(s, p, [0x5b] + s[p + 1..q], ShowHeaders(chain));
    }
    ReadsList(s, p, l);
  }

  ghost predicate PrintedList(s: seq<Byte>, pre: seq<Byte>, l: Listing, post: seq<Byte>, lines: seq<seq<Byte>>) {
    && s == pre + ShowList(l) + post && |s| <= MAX_HEADERS_BYTES
    && AllBlank(pre) && AllBlank(post) && ListOk(l) && lines == ListLines(l)
  }

  lemma PrintedListRead(s: seq<Byte>, pre: seq<Byte>, l: Listing, post: seq<Byte>, lines: seq<seq<Byte>>)
    requires PrintedList(s, pre, l, post, lines)
    ensures ReadHeaderList(s) == Some(lines)
  {
    hide ReadList, ListOk, ListLines, ShowList, ShowHeaders, Holds, AllBlank, SkipBlank, IsBlank;
    var p, end := |pre|, |pre| + |ShowList(l)|;
    BracketIsSolid();
    HoldsThree(pre, ShowList(l), post);
    ListStarts(s, p, l);
    SkipsBlanks(s, 0, pre);
    ReadsList(s, p, l);
    SkipsBlanks(s, end, post);
    assert SkipBlank(s, 0) == p && SkipBlank(s, end) == |s|;
  }

  lemma ReadListPrinted(s: seq<Byte>) returns (pre: seq<Byte>, l: Listing, post: seq<Byte>)
    requires ReadHeaderList(s).Some?
    ensures PrintedList(s, pre, l, post, ReadHeaderList(s).value)
  {
    hide ReadList, ListOk, ListLines, ShowList, Holds, AllBlank, SkipBlank;
    var p := SkipBlank(s, 0);
    SkippedBlanks(s, 0);
    l := ListRead(s, p);
    var end := p + |ShowList(l)|;
    SkippedBlanks(s, end);
    HeldParts(s, p, ShowList(l));
    pre, post := s[0..p], s[end..|s|];
  }

  lemma HeldParts(s: seq<Byte>, p: nat, part: seq<Byte>)
    requires Holds(s, p, part)
    ensures p + |part| <= |s| && s == s[0..p] + part + s[p + |part|..|s|]
  {
  }

  /**
   * The parser accepts exactly the printed lists of header objects that each carry a safe, nonempty, colon-free
   * name and a safe value, and yields their lines in order, whatever the layout, escaping and further members.
   */
  lemma HeadersAcceptedExactly(s: seq<Byte>, lines: seq<seq<Byte>>)
    ensures ReadHeaderList(s) == Some(lines) <==> exists pre, l, post :: PrintedList(s, pre, l, post, lines)
  {
    hide ReadHeaderList, PrintedList;
    if ReadHeaderList(s) == Some(lines) {
      var pre, l, post := ReadListPrinted(s);
    }
    forall pre, l, post | PrintedList(s, pre, l, post, lines) ensures ReadHeaderList(s) == Some(lines) {
      PrintedListRead(s, pre, l, post, lines);
    }
  }
}
