/** find_json_key on printed documents: the first member, in document order, whose key matches. */
module ScannerTheorem {
  import opened Bytes
  import opened JsonText
  import opened JsonStrings
  import opened TextBuffers
  import opened EinkJson
  import opened JsonDocument
  import opened JsonScanner

  const LIMIT: nat := MAX_RESPONSE_BYTES

  predicate Quoteless(s: seq<Byte>) {
    forall i :: 0 <= i < |s| ==> s[i] != QUOTE
  }

  lemma EndsThroughSpace(s: CString, p: nat, after: seq<Byte>)
    requires Holds(s, p, after) && AllSpace(after) && p + |after| <= |s| && Ends(s, p + |after|)
    ensures Ends(s, p)
  {
    SkipSpacePart(s, p, after);
  }

  lemma EndsAtByte(s: CString, p: nat, b: Byte)
    requires Holds(s, p, [b]) && !IsSpace(b) && b != COLON
    ensures p < |s| && Ends(s, p)
  {
    HoldsIndex(s, p, [b]);
    assert s[p + 0] == b;
  }

  /** The parts of a list element at their places. */
  lemma ItemParts(s: seq<Byte>, p: nat, items: Items, comma: bool)
    requires items.Item? && Holds(s, p, PrintItems(items, comma))
    ensures var at := p + |Lead(comma) + items.before|; var q := at + |Print(items.value)|;
            && Holds(s, p, Lead(comma) + items.before)
            && Holds(s, at, Print(items.value))
            && Holds(s, q, items.after)
            && Holds(s, q + |items.after|, PrintItems(items.rest, true))
  {
    var a, b, c, d := Lead(comma) + items.before, Print(items.value), items.after, PrintItems(items.rest, true);
    HoldsSplit(s, p, a + b + c, d);
    HoldsSplit(s, p, a + b, c);
    HoldsSplit(s, p, a, b);
  }

  /** The parts of a member at their places. */
  lemma MemberParts(s: seq<Byte>, p: nat, m: Members, comma: bool)
    requires m.Member? && Holds(s, p, PrintMembers(m, comma))
    ensures var k := p + |Lead(comma) + m.before|; var c := k + |Quoted(m.key)| + |m.afterKey|;
            var at := c + 1 + |m.beforeValue|; var q := at + |Print(m.value)|;
            && Holds(s, p, Lead(comma) + m.before)
            && Holds(s, k, Quoted(m.key))
            && Holds(s, k + |Quoted(m.key)|, m.afterKey)
            && Holds(s, c, [COLON])
            && Holds(s, c + 1, m.beforeValue)
            && Holds(s, at, Print(m.value))
            && Holds(s, q, m.after)
            && Holds(s, q + |m.after|, PrintMembers(m.rest, true))
  {
    hide Holds, Lead, Quoted, Print;
    var a, b, c, d, e := Lead(comma) + m.before, Quoted(m.key), m.afterKey, [COLON], m.beforeValue;
    var f, g, h := Print(m.value), m.after, PrintMembers(m.rest, true);
    HoldsSplit(s, p, a + b + c + d + e + f + g, h);
    HoldsSplit(s, p, a + b + c + d + e + f, g);
    HoldsSplit(s, p, a + b + c + d + e, f);
    MemberHeadParts(s, p, a, b, c, d, e);
  }

  lemma MemberHeadParts(s: seq<Byte>, p: nat, a: seq<Byte>, b: seq<Byte>, c: seq<Byte>, d: seq<Byte>, e: seq<Byte>)
    requires Holds(s, p, a + b + c + d + e)
    ensures Holds(s, p, a) && Holds(s, p + |a|, b) && Holds(s, p + |a| + |b|, c)
    ensures Holds(s, p + |a| + |b| + |c|, d) && Holds(s, p + |a| + |b| + |c| + |d|, e)
  {
    HoldsBoth(s, p, a + b + c + d, e);
    HoldsFour(s, p, a, b, c, d);
  }

  lemma BracketParts(s: seq<Byte>, p: nat, open: Byte, pad: seq<Byte>, inner: seq<Byte>, close: Byte)
    requires Holds(s, p, [open] + pad + inner + [close])
    ensures Holds(s, p, [open] + pad)
    ensures Holds(s, p + 1 + |pad|, inner)
    ensures Holds(s, p + 1 + |pad| + |inner|, [close])
  {
    HoldsSplit(s, p, [open] + pad + inner, [close]);
    HoldsSplit(s, p, [open] + pad, inner);
  }

  lemma ValueStartsSolid(s: seq<Byte>, p: nat, v: Value)
    requires WellFormed(v, LIMIT) && Holds(s, p, Print(v))
    ensures p < |s| && !IsSpace(s[p])
  {
    PrintNonempty(v, LIMIT);
    HoldsIndex(s, p, Print(v));
    assert s[p + 0] == Print(v)[0];
  }

  /** A list element unfolded: its parts are in order and in place, and its occurrences come before the rest's. */
  lemma ItemUnfolds(s: seq<Byte>, p: nat, items: Items, comma: bool)
    requires items.Item? && WellFormedItems(items, LIMIT) && Holds(s, p, PrintItems(items, comma))
    ensures AllSpace(items.before) && AllSpace(items.after)
    ensures WellFormed(items.value, LIMIT) && WellFormedItems(items.rest, LIMIT)
    ensures var at := p + |Lead(comma) + items.before|; var q := at + |Print(items.value)|; var r := q + |items.after|;
            && ItemOccurrences(items, LIMIT, p, comma)
               == Occurrences(items.value, LIMIT, at) + ItemOccurrences(items.rest, LIMIT, r, true)
            && p + |PrintItems(items, comma)| == r + |PrintItems(items.rest, true)|
  {
  }

  lemma MemberUnfolds(s: seq<Byte>, p: nat, m: Members, comma: bool)
    requires m.Member? && WellFormedMembers(m, LIMIT) && Holds(s, p, PrintMembers(m, comma))
    ensures AllSpace(m.before) && AllSpace(m.afterKey) && AllSpace(m.beforeValue) && AllSpace(m.after)
    ensures AllLegal(m.key) && |MeaningAll(m.key)| <= LIMIT
    ensures WellFormed(m.value, LIMIT) && WellFormedMembers(m.rest, LIMIT)
    ensures var at := p + |Lead(comma) + m.before| + |Quoted(m.key)| + |m.afterKey| + 1 + |m.beforeValue|;
            var r := at + |Print(m.value)| + |m.after|;
            && MemberOccurrences(m, LIMIT, p, comma)
               == [Occurrence(m.key, MeaningAll(m.key), m.value, at)] + Occurrences(m.value, LIMIT, at)
                  + MemberOccurrences(m.rest, LIMIT, r, true)
            && p + |PrintMembers(m, comma)| == r + |PrintMembers(m.rest, true)|
  {
    hide Quoted, MeaningAll, AllLegal, Occurrences, WellFormed, Print;
  }

  lemma ListUnfolds(s: seq<Byte>, p: nat, v: Value)
    requires v.List? && WellFormed(v, LIMIT) && Holds(s, p, Print(v))
    ensures var inner := PrintItems(v.items, false);
            && AllSpace(v.pad) && WellFormedItems(v.items, LIMIT)
            && Holds(s, p, [0x5b] + v.pad)
            && Holds(s, p + 1 + |v.pad|, inner)
            && Holds(s, p + 1 + |v.pad| + |inner|, [0x5d])
            && |Print(v)| == 1 + |v.pad| + |inner| + 1
    ensures Occurrences(v, LIMIT, p) == ItemOccurrences(v.items, LIMIT, p + 1 + |v.pad|, false)
  {
    hide Holds, PrintItems, ItemOccurrences, WellFormedItems, AllSpace;
    BracketParts(s, p, 0x5b, v.pad, PrintItems(v.items, false), 0x5d);
  }

  lemma RecordUnfolds(s: seq<Byte>, p: nat, v: Value)
    requires v.Record? && WellFormed(v, LIMIT) && Holds(s, p, Print(v))
    ensures var inner := PrintMembers(v.members, false);
            && AllSpace(v.pad) && WellFormedMembers(v.members, LIMIT)
            && Holds(s, p, [0x7b] + v.pad)
            && Holds(s, p + 1 + |v.pad|, inner)
            && Holds(s, p + 1 + |v.pad| + |inner|, [0x7d])
            && |Print(v)| == 1 + |v.pad| + |inner| + 1
    ensures Occurrences(v, LIMIT, p) == MemberOccurrences(v.members, LIMIT, p + 1 + |v.pad|, false)
  {
    hide Holds, PrintMembers, MemberOccurrences, WellFormedMembers, AllSpace;
    BracketParts(s, p, 0x7b, v.pad, PrintMembers(v.members, false), 0x7d);
  }

  lemma SpaceIsQuoteless(open: seq<Byte>, space: seq<Byte>)
    requires Quoteless(open) && AllSpace(space)
    ensures Quoteless(open + space)
  {
  }

  lemma ScanGap(s: CString, p: nat, lead: seq<Byte>, space: seq<Byte>, wanted: CString)
    requires Holds(s, p, lead + space) && Quoteless(lead) && AllSpace(space)
    ensures p + |lead + space| <= |s|
    ensures Scan(s, p, wanted) == Scan(s, p + |lead + space|, wanted)
  {
    hide Scan, Holds;
    SpaceIsQuoteless(lead, space);
    HoldsIndex(s, p, lead + space);
    ScanSkips(s, p, lead + space, wanted);
  }

  lemma ScanSpaces(s: CString, p: nat, space: seq<Byte>, wanted: CString)
    requires Holds(s, p, space) && AllSpace(space)
    ensures p + |space| <= |s|
    ensures Scan(s, p, wanted) == Scan(s, p + |space|, wanted)
  {
    hide Scan, Holds;
    assert [] + space == space;
    ScanGap(s, p, [], space, wanted);
  }

  lemma ScanByte(s: CString, p: nat, b: Byte, wanted: CString)
    requires Holds(s, p, [b]) && b != QUOTE && b != COLON && !IsSpace(b)
    ensures p < |s| && Ends(s, p)
    ensures Scan(s, p, wanted) == Scan(s, p + 1, wanted)
  {
    hide Scan, Ends, Holds;
    HoldsIndex(s, p, [b]);
    EndsAtByte(s, p, b);
    ScanSkips(s, p, [b], wanted);
  }

  /** Every key of every member is met in document order, and nothing inside a string value is taken for one. */
  lemma {:induction false} ScanValue(s: CString, p: nat, v: Value, wanted: CString)
    requires WellFormed(v, LIMIT) && Holds(s, p, Print(v)) && p + |Print(v)| <= |s| && Ends(s, p + |Print(v)|)
    ensures Scan(s, p, wanted)
         == Or(FirstMatch(Occurrences(v, LIMIT, p), wanted), Scan(s, p + |Print(v)|, wanted))
    decreases v
  {
    hide Scan, Ends, Holds, PrintItems, PrintMembers;
    match v
    case Scalar(text) => ScanSkips(s, p, text, wanted);
    case Text(body) => ScanText(s, p, body, wanted);
    case List(pad, items) => ScanList(s, p, v, wanted);
    case Record(pad, members) => ScanRecord(s, p, v, wanted);
  }

  lemma {:induction false} ScanList(s: CString, p: nat, v: Value, wanted: CString)
    requires v.List? && WellFormed(v, LIMIT) && Holds(s, p, Print(v)) && p + |Print(v)| <= |s|
    ensures Scan(s, p, wanted)
         == Or(FirstMatch(Occurrences(v, LIMIT, p), wanted), Scan(s, p + |Print(v)|, wanted))
    decreases v, 0
  {
    hide Scan, Ends, Holds, Print, Occurrences, WellFormed, AllSpace, PrintItems, FirstMatch;
    var end := p + 1 + |v.pad| + |PrintItems(v.items, false)|;
    ListUnfolds(s, p, v);
    ScanGap(s, p, [0x5b], v.pad, wanted);
    ScanByte(s, end, 0x5d, wanted);
    ScanItems(s, p + 1 + |v.pad|, v.items, false, wanted);
  }

  lemma {:induction false} ScanRecord(s: CString, p: nat, v: Value, wanted: CString)
    requires v.Record? && WellFormed(v, LIMIT) && Holds(s, p, Print(v)) && p + |Print(v)| <= |s|
    ensures Scan(s, p, wanted)
         == Or(FirstMatch(Occurrences(v, LIMIT, p), wanted), Scan(s, p + |Print(v)|, wanted))
    decreases v, 0
  {
    hide Scan, Ends, Holds, Print, Occurrences, WellFormed, AllSpace, PrintMembers, FirstMatch;
    var end := p + 1 + |v.pad| + |PrintMembers(v.members, false)|;
    RecordUnfolds(s, p, v);
    ScanGap(s, p, [0x7b], v.pad, wanted);
    ScanByte(s, end, 0x7d, wanted);
    ScanMembers(s, p + 1 + |v.pad|, v.members, false, wanted);
  }

  /** The rest of a list, led by its comma or empty, never reads as the colon of a member. */
  lemma ItemTailEnds(s: CString, p: nat, items: Items)
    requires WellFormedItems(items, LIMIT) && Holds(s, p, PrintItems(items, true))
    requires p + |PrintItems(items, true)| <= |s| && Ends(s, p + |PrintItems(items, true)|)
    ensures p <= |s| && Ends(s, p)
  {
    if items.Item? {
      hide Ends, Holds;
      ItemParts(s, p, items, true);
      assert Lead(true) + items.before == [COMMA] + items.before;
      HoldsSplit(s, p, [COMMA], items.before);
      EndsAtByte(s, p, COMMA);
    }
  }

  lemma MemberTailEnds(s: CString, p: nat, members: Members)
    requires WellFormedMembers(members, LIMIT) && Holds(s, p, PrintMembers(members, true))
    requires p + |PrintMembers(members, true)| <= |s| && Ends(s, p + |PrintMembers(members, true)|)
    ensures p <= |s| && Ends(s, p)
  {
    if members.Member? {
      hide Ends, Holds;
      MemberParts(s, p, members, true);
      assert Lead(true) + members.before == [COMMA] + members.before;
      HoldsSplit(s, p, [COMMA], members.before);
      EndsAtByte(s, p, COMMA);
    }
  }

  lemma LeadIsQuoteless(comma: bool)
    ensures Quoteless(Lead(comma))
  {
  }

  lemma NoItemUnfolds(s: CString, p: nat, items: Items, comma: bool, wanted: CString)
    requires items.NoItem? && p <= |s|
    ensures PrintItems(items, comma) == []
    ensures Scan(s, p, wanted) == Or(FirstMatch(ItemOccurrences(items, LIMIT, p, comma), wanted), Scan(s, p, wanted))
  {
    hide Scan;
  }

  lemma NoMemberUnfolds(s: CString, p: nat, m: Members, comma: bool, wanted: CString)
    requires m.NoMember? && p <= |s|
    ensures PrintMembers(m, comma) == []
    ensures Scan(s, p, wanted) == Or(FirstMatch(MemberOccurrences(m, LIMIT, p, comma), wanted), Scan(s, p, wanted))
  {
    hide Scan;
  }

  lemma {:induction false} ScanItems(s: CString, p: nat, items: Items, comma: bool, wanted: CString)
    requires WellFormedItems(items, LIMIT) && Holds(s, p, PrintItems(items, comma))
    requires p + |PrintItems(items, comma)| <= |s| && Ends(s, p + |PrintItems(items, comma)|)
    ensures Scan(s, p, wanted)
         == Or(FirstMatch(ItemOccurrences(items, LIMIT, p, comma), wanted),
               Scan(s, p + |PrintItems(items, comma)|, wanted))
    decreases items
  {
    hide *;
    if items.NoItem? {
      NoItemUnfolds(s, p, items, comma, wanted);
      return;
    }
    var at := p + |Lead(comma) + items.before|;
    var q := at + |Print(items.value)|;
    var r := q + |items.after|;
    ItemParts(s, p, items, comma);
    ItemUnfolds(s, p, items, comma);
    LeadIsQuoteless(comma);
    ItemTailEnds(s, r, items.rest);
    EndsThroughSpace(s, q, items.after);
    ScanGap(s, p, Lead(comma), items.before, wanted);
    ScanValue(s, at, items.value, wanted);
    ScanSpaces(s, q, items.after, wanted);
    ScanItems(s, r, items.rest, true, wanted);
    FirstMatchBoth(Occurrences(items.value, LIMIT, at), ItemOccurrences(items.rest, LIMIT, r, true), wanted,
                   Scan(s, r + |PrintItems(items.rest, true)|, wanted));
  }

  lemma {:induction false} ScanMembers(s: CString, p: nat, m: Members, comma: bool, wanted: CString)
    requires WellFormedMembers(m, LIMIT) && Holds(s, p, PrintMembers(m, comma))
    requires p + |PrintMembers(m, comma)| <= |s| && Ends(s, p + |PrintMembers(m, comma)|)
    ensures Scan(s, p, wanted)
         == Or(FirstMatch(MemberOccurrences(m, LIMIT, p, comma), wanted),
               Scan(s, p + |PrintMembers(m, comma)|, wanted))
    decreases m
  {
    hide *;
    if m.NoMember? {
      NoMemberUnfolds(s, p, m, comma, wanted);
      return;
    }
    var k := p + |Lead(comma) + m.before|;
    var at := k + |Quoted(m.key)| + |m.afterKey| + 1 + |m.beforeValue|;
    var q := at + |Print(m.value)|;
    var r := q + |m.after|;
    MemberParts(s, p, m, comma);
    MemberUnfolds(s, p, m, comma);
    LeadIsQuoteless(comma);
    MemberTailEnds(s, r, m.rest);
    EndsThroughSpace(s, q, m.after);
    ScanGap(s, p, Lead(comma), m.before, wanted);
    ValueStartsSolid(s, at, m.value);
    MemberHeadHolds(s, k, m.key, m.afterKey, m.beforeValue, at);
    ScanKey(s, k, m.key, m.afterKey, m.beforeValue, at, wanted);
    ScanValue(s, at, m.value, wanted);
    ScanSpaces(s, q, m.after, wanted);
    ScanMembers(s, r, m.rest, true, wanted);
    FirstMatchMember(Occurrence(m.key, MeaningAll(m.key), m.value, at), Occurrences(m.value, LIMIT, at),
                     MemberOccurrences(m.rest, LIMIT, r, true), wanted,
                     Scan(s, r + |PrintMembers(m.rest, true)|, wanted));
  }

  lemma MemberHeadHolds(s: CString, p: nat, key: seq<Piece>, afterKey: seq<Byte>, beforeValue: seq<Byte>, at: nat)
    requires AllLegal(key) && |MeaningAll(key)| <= LIMIT && AllSpace(afterKey) && AllSpace(beforeValue)
    requires Holds(s, p, Quoted(key))
    requires Holds(s, p + |Quoted(key)|, afterKey)
    requires Holds(s, p + |Quoted(key)| + |afterKey|, [COLON])
    requires Holds(s, p + |Quoted(key)| + |afterKey| + 1, beforeValue)
    requires at == p + |Quoted(key)| + |afterKey| + 1 + |beforeValue| && at < |s| && !IsSpace(s[at])
    ensures MemberHead(s, p, key, afterKey, beforeValue, at)
  {
  }

  lemma FirstMatchBoth(a: seq<Occurrence>, b: seq<Occurrence>, wanted: CString, after: Option<nat>)
    ensures Or(FirstMatch(a + b, wanted), after) == Or(FirstMatch(a, wanted), Or(FirstMatch(b, wanted), after))
  {
    FirstMatchAppend(a, b, wanted);
  }

  lemma FirstMatchMember(o: Occurrence, a: seq<Occurrence>, b: seq<Occurrence>, wanted: CString, after: Option<nat>)
    ensures Or(FirstMatch([o] + a + b, wanted), after)
         == if KeyMatches(o.key, wanted) then Some(o.at)
            else Or(FirstMatch(a, wanted), Or(FirstMatch(b, wanted), after))
  {
    FirstMatchAppend([o] + a, b, wanted);
    FirstMatchAppend([o], a, wanted);
    assert FirstMatch([o], wanted) == if KeyMatches(o.key, wanted) then Some(o.at) else FirstMatch([o][1..], wanted);
  }

  // ---- every occurrence is where it says ----

  lemma {:induction false} OccurrencesPlaced(s: seq<Byte>, p: nat, v: Value)
    requires WellFormed(v, LIMIT) && Holds(s, p, Print(v))
    ensures Placed(Occurrences(v, LIMIT, p), s, p, p + |Print(v)|)
    decreases v
  {
    hide Holds, PrintItems, PrintMembers, ItemOccurrences, MemberOccurrences;
    if v.List? {
      ListUnfolds(s, p, v);
      ItemsPlaced(s, p + 1 + |v.pad|, v.items, false);
      PlacedWiden(Occurrences(v, LIMIT, p), s, p + 1 + |v.pad|, p + |Print(v)| - 1, p, p + |Print(v)|);
    } else if v.Record? {
      RecordUnfolds(s, p, v);
      MembersPlaced(s, p + 1 + |v.pad|, v.members, false);
      PlacedWiden(Occurrences(v, LIMIT, p), s, p + 1 + |v.pad|, p + |Print(v)| - 1, p, p + |Print(v)|);
    }
  }

  lemma NoItemPlaced(s: seq<Byte>, p: nat, items: Items, comma: bool)
    requires items.NoItem?
    ensures Placed(ItemOccurrences(items, LIMIT, p, comma), s, p, p + |PrintItems(items, comma)|)
  {
  }

  lemma NoMemberPlaced(s: seq<Byte>, p: nat, m: Members, comma: bool)
    requires m.NoMember?
    ensures Placed(MemberOccurrences(m, LIMIT, p, comma), s, p, p + |PrintMembers(m, comma)|)
  {
  }

  lemma {:induction false} ItemsPlaced(s: seq<Byte>, p: nat, items: Items, comma: bool)
    requires WellFormedItems(items, LIMIT) && Holds(s, p, PrintItems(items, comma))
    ensures Placed(ItemOccurrences(items, LIMIT, p, comma), s, p, p + |PrintItems(items, comma)|)
    decreases items
  {
    hide *;
    if items.NoItem? {
      NoItemPlaced(s, p, items, comma);
    } else {
      var at := p + |Lead(comma) + items.before|;
      var q := at + |Print(items.value)|;
      var r := q + |items.after|;
      var end := r + |PrintItems(items.rest, true)|;
      ItemParts(s, p, items, comma);
      ItemUnfolds(s, p, items, comma);
      OccurrencesPlaced(s, at, items.value);
      ItemsPlaced(s, r, items.rest, true);
      PlacedWiden(Occurrences(items.value, LIMIT, at), s, at, q, p, r);
      PlacedAppend(Occurrences(items.value, LIMIT, at), ItemOccurrences(items.rest, LIMIT, r, true), s, p, r, end);
    }
  }

  lemma {:induction false} MembersPlaced(s: seq<Byte>, p: nat, m: Members, comma: bool)
    requires WellFormedMembers(m, LIMIT) && Holds(s, p, PrintMembers(m, comma))
    ensures Placed(MemberOccurrences(m, LIMIT, p, comma), s, p, p + |PrintMembers(m, comma)|)
    decreases m
  {
    hide *;
    if m.NoMember? {
      NoMemberPlaced(s, p, m, comma);
    } else {
      var at := p + |Lead(comma) + m.before| + |Quoted(m.key)| + |m.afterKey| + 1 + |m.beforeValue|;
      var q := at + |Print(m.value)|;
      var r := q + |m.after|;
      var end := r + |PrintMembers(m.rest, true)|;
      MemberParts(s, p, m, comma);
      MemberUnfolds(s, p, m, comma);
      var own := [Occurrence(m.key, MeaningAll(m.key), m.value, at)];
      OccurrencesPlaced(s, at, m.value);
      MembersPlaced(s, r, m.rest, true);
      PlacedWiden(Occurrences(m.value, LIMIT, at), s, at, q, at, r);
      PrintNonempty(m.value, LIMIT);
      OwnFirst(own[0], Occurrences(m.value, LIMIT, at), s, p, r);
      PlacedAppend(own + Occurrences(m.value, LIMIT, at), MemberOccurrences(m.rest, LIMIT, r, true), s, p, r, end);
    }
  }

  /** A member comes right before the members inside its own value. */
  lemma OwnFirst(o: Occurrence, inner: seq<Occurrence>, s: seq<Byte>, lo: nat, hi: nat)
    requires lo < o.at < hi && Holds(s, o.at, Print(o.value)) && Placed(inner, s, o.at, hi)
    ensures Placed([o] + inner, s, lo, hi)
  {
    hide Holds, Print;
  }

  // ---- the theorem ----

  /** The first match is the match before which there is none; no match means no key matches. */
  lemma {:induction false} FirstMatchIsFirst(occs: seq<Occurrence>, wanted: CString, at: nat)
    requires forall i, j :: 0 <= i < j < |occs| ==> occs[i].at < occs[j].at
    ensures FirstMatch(occs, wanted) == None <==> forall i :: 0 <= i < |occs| ==> !KeyMatches(occs[i].key, wanted)
    ensures FirstMatch(occs, wanted) == Some(at)
       <==> exists i :: && 0 <= i < |occs| && occs[i].at == at && KeyMatches(occs[i].key, wanted)
                        && forall j :: 0 <= j < i ==> !KeyMatches(occs[j].key, wanted)
  {
    hide KeyMatches;
    if occs != [] {
      FirstMatchIsFirst(occs[1..], wanted, at);
      assert forall i :: 0 < i < |occs| ==> occs[i] == occs[1..][i - 1];
      assert occs == [occs[0]] + occs[1..];
    }
  }

  ghost function Document(pre: seq<Byte>, v: Value, post: seq<Byte>): seq<Byte> { pre + Print(v) + post }

  lemma DocumentIsCString(pre: seq<Byte>, v: Value, post: seq<Byte>)
    requires WellFormed(v, LIMIT) && AllSpace(pre) && AllSpace(post)
    ensures 0 !in Document(pre, v, post)
  {
    PrintHasNoNul(v, LIMIT);
  }

  /**
   * On every JSON document, however laid out, the scan returns the start of the value of the first member,
   * in document order and at any depth, whose key matches, and nothing exactly when there is no such member.
   */
  lemma FindsFirstMember(pre: seq<Byte>, v: Value, post: seq<Byte>, wanted: CString)
    requires WellFormed(v, LIMIT) && AllSpace(pre) && AllSpace(post)
    ensures 0 !in Document(pre, v, post)
    ensures Scan(Document(pre, v, post), 0, wanted) == FirstMatch(Occurrences(v, LIMIT, |pre|), wanted)
    ensures Placed(Occurrences(v, LIMIT, |pre|), Document(pre, v, post), |pre|, |pre + Print(v)|)
  {
    hide Scan, Ends, Holds, Print, FirstMatch, Occurrences, WellFormed, AllSpace, Placed;
    DocumentIsCString(pre, v, post);
    var s: CString := Document(pre, v, post);
    var end := |pre| + |Print(v)|;
    DocumentParts(pre, v, post);
    EndOfText(s);
    EndsThroughSpace(s, end, post);
    ScanSpaces(s, 0, pre, wanted);
    ScanValue(s, |pre|, v, wanted);
    ScanSpaces(s, end, post, wanted);
    NothingLeft(s, wanted);
    OccurrencesPlaced(s, |pre|, v);
  }

  lemma DocumentParts(pre: seq<Byte>, v: Value, post: seq<Byte>)
    ensures var s := Document(pre, v, post);
            Holds(s, 0, pre) && Holds(s, |pre|, Print(v)) && Holds(s, |pre| + |Print(v)|, post)
  {
    hide Print, Holds;
    HoldsThree(pre, Print(v), post);
  }

  lemma EndOfText(s: CString)
    ensures Ends(s, |s|)
  {
  }

  lemma NothingLeft(s: CString, wanted: CString)
    ensures Scan(s, |s|, wanted) == None
  {
  }

  /**
   * The key test compares up to the first NUL, so it is equality except for two families: an empty key never
   * matches, and a key matches every prefix of it that an escaped NUL ends.
   */
  lemma KeyTestIsEqualityUnless(key: seq<Byte>, wanted: CString)
    ensures KeyMatches(key, wanted) != (key == wanted)
       <==> (key == [] && wanted == []) || (wanted < key && key[|wanted|] == 0)
  {
    UpToNulIs(key, wanted);
  }

  lemma {:induction false} UpToNulIs(key: seq<Byte>, wanted: CString)
    ensures UpToNul(key) == wanted <==> wanted <= key && (|wanted| < |key| ==> key[|wanted|] == 0)
  {
    if key != [] && key[0] != 0 && wanted != [] {
      var k, w := key[1..], wanted[1..];
      UpToNulIs(k, w);
      assert UpToNul(key) == [key[0]] + UpToNul(k);
      assert UpToNul(key) == wanted <==> key[0] == wanted[0] && UpToNul(k) == w;
      assert wanted <= key <==> key[0] == wanted[0] && w <= k;
    }
  }

  // ---- why strings must fit the buffer ----

  /** A key whose decoded text ends in a quotation mark and `tail`. */
  ghost function QuotingKey(front: seq<Piece>, tail: seq<Piece>): seq<Piece> {
    front + [Escape(QUOTE)] + tail
  }

  lemma EscapedQuote()
    ensures AllLegal([Escape(QUOTE)]) && ShowAll([Escape(QUOTE)]) == [BACKSLASH, QUOTE]
    ensures |MeaningAll([Escape(QUOTE)])| == 1
  {
    var one := [Escape(QUOTE)];
    assert one[1..] == [];
    assert ShowAll(one) == Show(one[0]) + ShowAll(one[1..]);
    assert MeaningAll(one) == Meaning(one[0]) + MeaningAll(one[1..]);
  }

  lemma QuotingKeyShows(front: seq<Piece>, tail: seq<Piece>)
    requires AllLegal(front) && AllLegal(tail)
    ensures AllLegal(QuotingKey(front, tail))
    ensures Quoted(QuotingKey(front, tail)) == [QUOTE] + (ShowAll(front) + [BACKSLASH]) + Quoted(tail)
    ensures |MeaningAll(QuotingKey(front, tail))| == |MeaningAll(front)| + 1 + |MeaningAll(tail)|
  {
    hide ShowAll, MeaningAll, AllLegal;
    EscapedQuote();
    MeaningAllAppend(front, [Escape(QUOTE)]);
    MeaningAllAppend(front + [Escape(QUOTE)], tail);
    ShowAllAppend(front, [Escape(QUOTE)]);
    ShowAllAppend(front + [Escape(QUOTE)], tail);
    var f, t := ShowAll(front), ShowAll(tail);
    assert [QUOTE] + (f + [BACKSLASH, QUOTE] + t) + [QUOTE] == [QUOTE] + (f + [BACKSLASH]) + ([QUOTE] + t + [QUOTE]);
  }

  lemma {:induction false} MeaningAllAppend(a: seq<Piece>, b: seq<Piece>)
    requires AllLegal(a) && AllLegal(b)
    ensures AllLegal(a + b) && MeaningAll(a + b) == MeaningAll(a) + MeaningAll(b)
    decreases |a|
  {
    hide Show, ShowAll, Meaning, Legal;
    if a == [] {
      assert a + b == b;
    } else {
      assert (a + b)[1..] == a[1..] + b;
      MeaningAllAppend(a[1..], b);
      Assoc(Meaning(a[0]), MeaningAll(a[1..]), MeaningAll(b));
    }
  }

  lemma QuotingKeyPlaces(s: seq<Byte>, p: nat, front: seq<Piece>, tail: seq<Piece>)
    requires AllLegal(front) && AllLegal(tail) && Holds(s, p, Quoted(QuotingKey(front, tail)))
    ensures Holds(s, p + 1, ShowAll(front) + [BACKSLASH])
    ensures Holds(s, p + 2 + |ShowAll(front)|, Quoted(tail))
  {
    hide Quoted, ShowAll;
    QuotingKeyShows(front, tail);
    HoldsSplit(s, p, [QUOTE] + (ShowAll(front) + [BACKSLASH]), Quoted(tail));
    HoldsSplit(s, p, [QUOTE], ShowAll(front) + [BACKSLASH]);
  }

  lemma OverlongDecodesBad(s: CString, p: nat, key: seq<Piece>)
    requires AllLegal(key) && |MeaningAll(key)| > LIMIT && Holds(s, p, Quoted(key))
    ensures p < |s| && s[p] == QUOTE && TokenAt(s, p) == Other(p + 1)
  {
    QuotedIsClosed(s, p, key);
    DecodesQuoted(CLIENT, s, p, key);
    ClientAcceptsWhatFits(LIMIT, [], key);
  }

  /**
   * Without the size bound the theorem fails: when a key decodes to more than the buffer holds, the scan
   * re-enters it and takes the text behind an escaped quotation mark inside it for a key of its own.
   */
  lemma OverlongKeyIsMisread(front: seq<Piece>, tail: seq<Piece>, v: Value)
    requires AllLegal(front) && AllLegal(tail) && tail != [] && 0 !in MeaningAll(tail)
    requires Quoteless(ShowAll(front)) && |MeaningAll(tail)| <= LIMIT < |MeaningAll(front)| + 1 + |MeaningAll(tail)|
    requires WellFormed(v, LIMIT)
    ensures var key, wanted := QuotingKey(front, tail), MeaningAll(tail);
            var text := [0x7b] + Quoted(key) + [COLON] + Print(v) + [0x7d];
            && AllLegal(key) && MeaningAll(key) != wanted && 0 !in text
            && Scan(text, 0, wanted) == Some(1 + |Quoted(key)| + 1)
  {
    hide ShowAll, MeaningAll, AllLegal, Print, WellFormed, Scan, QuotingKey, Holds, Quoteless;
    var key, wanted := QuotingKey(front, tail), MeaningAll(tail);
    QuotingKeyShows(front, tail);
    ShownHasNoNul(key);
    PrintHasNoNul(v, LIMIT);
    var s: CString := [0x7b] + Quoted(key) + [COLON] + Print(v) + [0x7d];
    MisreadParts(s, key, v);
    MisreadScan(s, front, tail, v);
  }

  lemma MisreadParts(s: seq<Byte>, key: seq<Piece>, v: Value)
    requires AllLegal(key) && WellFormed(v, LIMIT)
    requires s == [0x7b] + Quoted(key) + [COLON] + Print(v) + [0x7d]
    ensures Holds(s, 0, [0x7b]) && Holds(s, 1, Quoted(key)) && Holds(s, 1 + |Quoted(key)|, [COLON])
    ensures Holds(s, 2 + |Quoted(key)|, Print(v))
  {
    hide Quoted, Print, WellFormed;
    var a, b, c, d, e := [0x7b], Quoted(key), [COLON], Print(v), [0x7d];
    assert s[0..|s|] == s;
    MemberHeadParts(s, 0, a, b, c, d, e);
  }

  lemma MisreadScan(s: CString, front: seq<Piece>, tail: seq<Piece>, v: Value)
    requires AllLegal(front) && AllLegal(tail) && tail != [] && 0 !in MeaningAll(tail)
    requires Quoteless(ShowAll(front)) && |MeaningAll(tail)| <= LIMIT < |MeaningAll(front)| + 1 + |MeaningAll(tail)|
    requires WellFormed(v, LIMIT)
    requires var key := QuotingKey(front, tail);
             && Holds(s, 0, [0x7b]) && Holds(s, 1, Quoted(key)) && Holds(s, 1 + |Quoted(key)|, [COLON])
             && Holds(s, 2 + |Quoted(key)|, Print(v))
    ensures Scan(s, 0, MeaningAll(tail)) == Some(2 + |Quoted(QuotingKey(front, tail))|)
  {
    hide *;
    var key, wanted: CString := QuotingKey(front, tail), MeaningAll(tail);
    var k := 3 + |ShowAll(front)|;
    var at := 2 + |Quoted(key)|;
    QuotingKeyShows(front, tail);
    QuotingKeyPlaces(s, 1, front, tail);
    BraceIsPlain();
    ScanByte(s, 0, 0x7b, wanted);
    OverlongDecodesBad(s, 1, key);
    ScanStep(s, 1, wanted);
    QuotelessThenBackslash(ShowAll(front));
    ScanSkips(s, 2, ShowAll(front) + [BACKSLASH], wanted);
    ValueStartsSolid(s, at, v);
    NoPart(s, k + |Quoted(tail)|);
    NoPart(s, k + |Quoted(tail)| + 1);
    MemberHeadHolds(s, k, tail, [], [], at);
    KeyMatchesItself(wanted);
    ScanKey(s, k, tail, [], [], at, wanted);
  }

  lemma BraceIsPlain()
    ensures 0x7b != QUOTE && 0x7b != COLON && !IsSpace(0x7b)
  {
  }

  lemma QuotelessThenBackslash(a: seq<Byte>)
    requires Quoteless(a)
    ensures forall i :: 0 <= i < |a + [BACKSLASH]| ==> (a + [BACKSLASH])[i] != QUOTE
  {
  }

  lemma KeyMatchesItself(key: CString)
    ensures KeyMatches(key, key) <==> key != []
  {
  }

  lemma NoPart(s: seq<Byte>, p: nat)
    requires p <= |s|
    ensures Holds(s, p, []) && AllSpace([])
  {
  }
}
