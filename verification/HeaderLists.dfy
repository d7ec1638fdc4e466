/** Header lists as their writers print them, and the lines they come to (runtime/fx_wamr_native.c, 470-594). */
module HeaderLists {
  import opened Bytes
  import opened JsonText
  import opened JsonStrings
  import opened FlatObjects
  import opened HttpHeaders

  /** A header, and which of its two members is printed first. */
  datatype Entry = Entry(name: seq<Byte>, value: seq<Byte>, nameFirst: bool) {
    // what strlen sees of the two
    function Name(): CString { UpToNul(name) }
    function Value(): CString { UpToNul(value) }
  }

  /** What may be in a header: no control character, no DEL, and in a name no colon, but something. */
  predicate EntryOk(e: Entry) {
    && (forall i :: 0 <= i < |e.Name()| ==> e.Name()[i] >= 0x20 && e.Name()[i] != 0x7f && e.Name()[i] != ':' as int)
    && (forall i :: 0 <= i < |e.Value()| ==> e.Value()[i] >= 0x20 && e.Value()[i] != 0x7f)
    && e.Name() != []
  }

  /** name, colon, space, value */
  function Line(e: Entry): seq<Byte> { e.Name() + Ascii(": ") + e.Value() }

  function Lines(entries: seq<Entry>): (lines: seq<seq<Byte>>)
    ensures |lines| == |entries| && forall i :: 0 <= i < |lines| ==> lines[i] == Line(entries[i])
  {
    seq(|entries|, i requires 0 <= i < |entries| => Line(entries[i]))
  }

  predicate AllOk(entries: seq<Entry>) {
    forall i :: 0 <= i < |entries| ==> EntryOk(entries[i])
  }

  /** How a header prints, character by character. */
  function EntryText(e: Entry): seq<Byte> {
    var name, value := WrittenText(NAME, e.name), WrittenText(VALUE, e.value);
    if e.nameFirst then Ascii("{") + name + Ascii(",") + value + Ascii("}")
    else Ascii("{") + value + Ascii(",") + name + Ascii("}")
  }

  /** Headers with commas between them, closed by a bracket. */
  function EntryTexts(entries: seq<Entry>): seq<Byte>
    requires entries != []
  {
    if |entries| == 1 then EntryText(entries[0]) + Ascii("]")
    else EntryText(entries[0]) + (Ascii(",") + EntryTexts(entries[1..]))
  }

  function ListText(entries: seq<Entry>): seq<Byte> {
    Ascii("[") + if entries == [] then Ascii("]") else EntryTexts(entries)
  }

  /** The text of a list of headers comes to their lines, in order, name before value; an unfit header spoils it. */
  lemma PrintedHeadersRead(entries: seq<Entry>)
    requires |ListText(entries)| <= 65536
    ensures ReadHeaderList(ListText(entries)) == if AllOk(entries) then Some(Lines(entries)) else None
  {
    hide ReadHeaders, AllOk, Lines, SkipBlank, IsBlank, EntryTexts, Holds;
    var s := ListText(entries);
    ColonIsSolid();
    BracketIsSolid();
    assert Ascii("[") == [0x5b] && Ascii("]") == [0x5d];
    SkipsNothing(s, 0);
    if entries == [] {
      SkipsNothing(s, 1);
      SkipsNothing(s, 2);
      NothingSpoils();
    } else {
      HeldBehind([0x5b], EntryTexts(entries));
      EntriesStart(s, 1, entries);
      SkipsNothing(s, 1);
      EntriesRead(s, 1, entries);
      SkipsNothing(s, |s|);
    }
  }

  lemma NothingSpoils()
    ensures AllOk([]) && Lines([]) == []
  {
  }

  lemma HeldBehind(a: seq<Byte>, b: seq<Byte>)
    ensures Holds(a + b, |a|, b)
  {
  }

  lemma EntriesStart(s: seq<Byte>, p: nat, entries: seq<Entry>)
    requires entries != [] && Holds(s, p, EntryTexts(entries))
    ensures p < |s| && s[p] == 0x7b
  {
    hide WrittenText, Holds;
    HoldsIndex(s, p, EntryTexts(entries));
    assert Ascii("{") == [0x7b];
    assert s[p + 0] == EntryTexts(entries)[0];
  }

  lemma {:induction false} EntriesRead(s: seq<Byte>, p: nat, entries: seq<Entry>)
    requires entries != [] && Holds(s, p, EntryTexts(entries))
    ensures p + |EntryTexts(entries)| <= |s|
    ensures ReadHeaders(s, p)
         == if AllOk(entries) then Headers(Lines(entries), p + |EntryTexts(entries)|) else NoHeaders
    decreases |entries|
  {
    hide ReadHeaders, EntryText, EntryTexts, EntryOk, AllOk, Line, SkipBlank, Holds, HeaderLine, ObjectOf, Lines;
    EntriesUnfold(entries);
    EntriesHeld(s, p, entries);
    var e, q := entries[0], p + |EntryText(entries[0])|;
    if |entries| > 1 {
      EntriesRead(s, q + 1, entries[1..]);
    }
    EntryRead(s, p, e);
    ReadsOn(s, p, ObjectPairs(HeaderStyle, ObjectOf(e)), q);
  }

  /** The first entry is in place, and behind it the bracket, or a comma and the other entries. */
  lemma EntriesHeld(s: seq<Byte>, p: nat, entries: seq<Entry>)
    requires entries != [] && Holds(s, p, EntryTexts(entries))
    ensures Holds(s, p, EntryText(entries[0]))
    ensures var q := p + |EntryText(entries[0])|;
            && q < |s| && SkipBlank(s, q) == q
            && if |entries| == 1 then ByteAt(s, q, 0x5d)
               else ByteAt(s, q, COMMA) && Holds(s, q + 1, EntryTexts(entries[1..])) && SkipBlank(s, q + 1) == q + 1
  {
    hide EntryText, EntryTexts, SkipBlank, IsBlank, Holds;
    TextsUnfold(entries);
    var text := EntryText(entries[0]);
    var q := p + |text|;
    ColonIsSolid();
    BracketIsSolid();
    if |entries| == 1 {
      HoldsSplit(s, p, text, [0x5d]);
      OneByte(s, q, 0x5d);
    } else {
      var rest := entries[1..];
      HoldsSplit(s, p, text, [COMMA] + EntryTexts(rest));
      HoldsSplit(s, q, [COMMA], EntryTexts(rest));
      OneByte(s, q, COMMA);
      EntriesStart(s, q + 1, rest);
      SkipsNothing(s, q + 1);
    }
    SkipsNothing(s, q);
  }

  lemma EntriesUnfold(entries: seq<Entry>)
    requires entries != []
    ensures var rest := entries[1..];
            && (AllOk(entries) <==> EntryOk(entries[0]) && AllOk(rest))
            && Lines(entries) == [Line(entries[0])] + Lines(rest)
            && (rest == [] ==> Lines(rest) == [] && AllOk(rest))
            && |EntryTexts(entries)| == |EntryText(entries[0])| + 1 + if rest == [] then 0 else |EntryTexts(rest)|
  {
    hide EntryOk, Line, EntryText;
  }

  lemma TextsUnfold(entries: seq<Entry>)
    requires entries != []
    ensures |entries| == 1 ==> EntryTexts(entries) == EntryText(entries[0]) + [0x5d]
    ensures |entries| > 1 ==> EntryTexts(entries) == EntryText(entries[0]) + ([COMMA] + EntryTexts(entries[1..]))
  {
    hide EntryText;
    assert Ascii(",") == [COMMA] && Ascii("]") == [0x5d];
  }

  /** One turn of the list, seen from the specification. */
  lemma ReadsOn(s: seq<Byte>, p: nat, pairs: seq<Pair>, q: nat)
    requires p <= |s| && q <= |s| && ReadObject(HeaderStyle, s, p) == Fields(pairs, q) && SkipBlank(s, q) == q
    ensures HeaderLine(pairs) == None ==> ReadHeaders(s, p) == NoHeaders
    ensures HeaderLine(pairs).Some? && ByteAt(s, q, 0x5d) ==>
              ReadHeaders(s, p) == Headers([HeaderLine(pairs).value], q + 1)
    ensures HeaderLine(pairs).Some? && ByteAt(s, q, COMMA) && SkipBlank(s, q + 1) == q + 1 ==>
              ReadHeaders(s, p) == match ReadHeaders(s, q + 1)
                                   case NoHeaders => NoHeaders
                                   case Headers(lines, end) => Headers([HeaderLine(pairs).value] + lines, end)
  {
    hide ReadObject, HeaderLine, SkipBlank;
  }

  // ---- one header ----

  function ObjectOf(e: Entry): Object {
    var name, value := Written(NAME, e.name), Written(VALUE, e.value);
    Full([], if e.nameFirst then More(name, [], Last(value)) else More(value, [], Last(name)))
  }

  lemma EntryPrints(e: Entry)
    ensures ShowObject(ObjectOf(e)) == EntryText(e)
  {
    hide ShowObject, WrittenText;
    TwoWritten(NAME, e.name, VALUE, e.value);
    TwoWritten(VALUE, e.value, NAME, e.name);
  }

  /** One printed header is read as an object, and its line, if it may have one, has name and value in their places. */
  lemma EntryRead(s: seq<Byte>, p: nat, e: Entry)
    requires Holds(s, p, EntryText(e))
    ensures ObjectOk(HeaderStyle, ObjectOf(e)) && p + |EntryText(e)| <= |s|
    ensures ReadObject(HeaderStyle, s, p) == Fields(ObjectPairs(HeaderStyle, ObjectOf(e)), p + |EntryText(e)|)
    ensures HeaderLine(ObjectPairs(HeaderStyle, ObjectOf(e))) == if EntryOk(e) then Some(Line(e)) else None
  {
    hide EntryText, ReadObject, ObjectOk, ObjectPairs, ObjectOf, EntryOk, HeaderLine, ShowObject;
    EntryPrints(e);
    EntryIsObject(e);
    ReadsObject(HeaderStyle, s, p, ObjectOf(e));
    LineOfTwo(e);
  }

  lemma EntryIsObject(e: Entry)
    ensures ObjectOk(HeaderStyle, ObjectOf(e))
    ensures ObjectPairs(HeaderStyle, ObjectOf(e))
         == if e.nameFirst then [Pair(NAME, e.name), Pair(VALUE, e.value)]
            else [Pair(VALUE, e.value), Pair(NAME, e.name)]
  {
    hide FieldOk, FieldPair, Written, ObjectOk, ObjectPairs, AllLegal;
    MemberReads(NAME, e.name);
    MemberReads(VALUE, e.value);
    if e.nameFirst {
      TwoMembers(Written(NAME, e.name), Written(VALUE, e.value));
    } else {
      TwoMembers(Written(VALUE, e.value), Written(NAME, e.name));
    }
  }

  lemma LineOfTwo(e: Entry)
    ensures HeaderLine([Pair(NAME, e.name), Pair(VALUE, e.value)]) == if EntryOk(e) then Some(Line(e)) else None
    ensures HeaderLine([Pair(VALUE, e.value), Pair(NAME, e.name)]) == if EntryOk(e) then Some(Line(e)) else None
  {
    hide LastOf, EntryOk, UpToNul, IsSafe;
    NamesDiffer();
    EntryIsSafe(e);
    var name, value := Pair(NAME, e.name), Pair(VALUE, e.value);
    assert UpToNul(NAME) == NAME && UpToNul(VALUE) == VALUE;
    LastOfTwo(name, value, NAME);
    LastOfTwo(name, value, VALUE);
    LastOfTwo(value, name, NAME);
    LastOfTwo(value, name, VALUE);
    assert Ascii(": ") == [COLON, SPACE];
  }

  lemma EntryIsSafe(e: Entry)
    ensures EntryOk(e) <==> IsSafe(e.Name()) && IsSafe(e.Value()) && COLON !in e.Name() && e.Name() != []
  {
  }

  lemma MemberReads(key: seq<Byte>, text: seq<Byte>)
    ensures AllLegal(Written(key, text).key) && AllLegal(Written(key, text).value)
    ensures FieldOk(HeaderStyle, Written(key, text)) && FieldPair(Written(key, text)) == Pair(key, text)
  {
    hide AcceptsAll, AllLegal, PiecesOf, MeaningAll;
    PiecesMeanTheText(key);
    PiecesMeanTheText(text);
    PiecesTaken(key);
    PiecesTaken(text);
  }

  lemma PiecesTaken(text: seq<Byte>)
    ensures AcceptsAll(Bridge, [], PiecesOf(text))
  {
    hide AcceptsAll;
    forall i | 0 <= i < |text| ensures Accepts(Bridge, [], PiecesOf(text)[i]) {
      PiecesOfAt(text, i);
    }
    BridgeAcceptsAllButSurrogates([], PiecesOf(text));
  }

  lemma TwoMembers(first: Field, second: Field)
    requires FieldOk(HeaderStyle, first) && FieldOk(HeaderStyle, second)
    ensures AllLegal(first.key) && AllLegal(first.value) && AllLegal(second.key) && AllLegal(second.value)
    ensures var o := Full([], More(first, [], Last(second)));
            ObjectOk(HeaderStyle, o) && ObjectPairs(HeaderStyle, o) == [FieldPair(first), FieldPair(second)]
  {
    hide FieldPair, AcceptsAll, AllLegal, MeaningAll;
    assert ChainOk(HeaderStyle, Last(second));
    assert ChainPairs(HeaderStyle, Last(second)) == [FieldPair(second)];
  }

  lemma LastOfTwo(a: Pair, b: Pair, key: CString)
    requires UpToNul(a.key) != UpToNul(b.key)
    ensures LastOf([a, b], key) == if UpToNul(a.key) == key then Some(UpToNul(a.value))
                                   else if UpToNul(b.key) == key then Some(UpToNul(b.value))
                                   else None
  {
    hide UpToNul;
    LastOfAppend([a], b, key);
    LastOfAppend([], a, key);
    assert [] + [a] == [a] && [a] + [b] == [a, b];
    assert LastOf([], key) == None;
  }

  /** Of several members with a key the last counts, and there is none exactly when no member has it. */
  lemma {:induction false} LastCounts(pairs: seq<Pair>, key: CString)
    ensures LastOf(pairs, key).None? <==> forall i :: 0 <= i < |pairs| ==> UpToNul(pairs[i].key) != key
    ensures LastOf(pairs, key).Some? ==>
              exists i :: && 0 <= i < |pairs| && UpToNul(pairs[i].key) == key
                          && UpToNul(pairs[i].value) == LastOf(pairs, key).value
                          && forall j :: i < j < |pairs| ==> UpToNul(pairs[j].key) != key
    decreases |pairs|
  {
    hide UpToNul;
    if pairs != [] {
      var front := pairs[..|pairs| - 1];
      LastCounts(front, key);
      assert forall i :: 0 <= i < |front| ==> front[i] == pairs[i];
    }
  }
}
