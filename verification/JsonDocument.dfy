/**
 * JSON documents with their layout: a tree of values that remembers the whitespace it was printed with
 * (RFC 8259 sections 2 to 7), and its members in document order.
 */
module JsonDocument {
  import opened Bytes
  import opened JsonText

  datatype Value =
    | Scalar(text: seq<Byte>)  // a number, true, false or null
    | Text(body: seq<Piece>)
    | List(pad: seq<Byte>, items: Items)
    | Record(pad: seq<Byte>, members: Members)

  datatype Items =
    | NoItem
    | Item(before: seq<Byte>, value: Value, after: seq<Byte>, rest: Items)

  datatype Members =
    | NoMember
    | Member(before: seq<Byte>, key: seq<Piece>, afterKey: seq<Byte>,
             beforeValue: seq<Byte>, value: Value, after: seq<Byte>, rest: Members)

  predicate IsSpace(b: Byte) { b == SPACE || 0x09 <= b <= 0x0d }

  predicate AllSpace(s: seq<Byte>) {
    forall i :: 0 <= i < |s| ==> IsSpace(s[i])
  }

  /** The bytes numbers and literal names are made of: letters, digits, sign and point. */
  predicate IsScalarByte(b: Byte) {
    0x30 <= b <= 0x39 || 0x41 <= b <= 0x5a || 0x61 <= b <= 0x7a || b == 0x2b || b == 0x2d || b == 0x2e
  }

  predicate IsScalar(s: seq<Byte>) {
    s != [] && forall i :: 0 <= i < |s| ==> IsScalarByte(s[i])
  }

  /** Legal strings that decode to at most `limit` bytes, legal scalars, and nothing but space in between. */
  ghost predicate WellFormed(v: Value, limit: nat) {
    match v
    case Scalar(text) => IsScalar(text)
    case Text(body) => AllLegal(body) && |MeaningAll(body)| <= limit
    case List(pad, items) => AllSpace(pad) && WellFormedItems(items, limit)
    case Record(pad, members) => AllSpace(pad) && WellFormedMembers(members, limit)
  }

  ghost predicate WellFormedItems(items: Items, limit: nat) {
    match items
    case NoItem => true
    case Item(before, value, after, rest) =>
      AllSpace(before) && WellFormed(value, limit) && AllSpace(after) && WellFormedItems(rest, limit)
  }

  ghost predicate WellFormedMembers(members: Members, limit: nat) {
    match members
    case NoMember => true
    case Member(before, key, afterKey, beforeValue, value, after, rest) =>
      && AllSpace(before) && AllLegal(key) && |MeaningAll(key)| <= limit
      && AllSpace(afterKey) && AllSpace(beforeValue) && WellFormed(value, limit)
      && AllSpace(after) && WellFormedMembers(rest, limit)
  }

  function Print(v: Value): (s: seq<Byte>) {
    match v
    case Scalar(text) => text
    case Text(body) => Quoted(body)
    case List(pad, items) => [0x5b] + pad + PrintItems(items, false) + [0x5d]
    case Record(pad, members) => [0x7b] + pad + PrintMembers(members, false) + [0x7d]
  }

  function Lead(comma: bool): seq<Byte> { if comma then [COMMA] else [] }

  function PrintItems(items: Items, comma: bool): seq<Byte> {
    match items
    case NoItem => []
    case Item(before, value, after, rest) =>
      Lead(comma) + before + Print(value) + after + PrintItems(rest, true)
  }

  function PrintMembers(members: Members, comma: bool): seq<Byte> {
    match members
    case NoMember => []
    case Member(before, key, afterKey, beforeValue, value, after, rest) =>
      Lead(comma) + before + Quoted(key) + afterKey + [COLON] + beforeValue + Print(value) + after
      + PrintMembers(rest, true)
  }

  /**
   * A member met on the way through a document: its key as written and as the client decodes it, its value, and where
   * the value starts.
   */
  datatype Occurrence = Occurrence(name: seq<Piece>, key: seq<Byte>, value: Value, at: nat)

  /** All members of a document, at every depth, in document order, when it is printed from position `p`. */
  ghost function Occurrences(v: Value, limit: nat, p: nat): seq<Occurrence>
    requires WellFormed(v, limit)
  {
    match v
    case Scalar(_) => []
    case Text(_) => []
    case List(pad, items) => ItemOccurrences(items, limit, p + 1 + |pad|, false)
    case Record(pad, members) => MemberOccurrences(members, limit, p + 1 + |pad|, false)
  }

  ghost function ItemOccurrences(items: Items, limit: nat, p: nat, comma: bool): seq<Occurrence>
    requires WellFormedItems(items, limit)
  {
    match items
    case NoItem => []
    case Item(before, value, after, rest) =>
      var at := p + |Lead(comma)| + |before|;
      Occurrences(value, limit, at) + ItemOccurrences(rest, limit, at + |Print(value)| + |after|, true)
  }

  ghost function MemberOccurrences(members: Members, limit: nat, p: nat, comma: bool): seq<Occurrence>
    requires WellFormedMembers(members, limit)
  {
    match members
    case NoMember => []
    case Member(before, key, afterKey, beforeValue, value, after, rest) =>
      var at := p + |Lead(comma)| + |before| + |Quoted(key)| + |afterKey| + 1 + |beforeValue|;
      [Occurrence(key, MeaningAll(key), value, at)]
      + Occurrences(value, limit, at)
      + MemberOccurrences(rest, limit, at + |Print(value)| + |after|, true)
  }

  // ---- the positions are right ----

  /** Occurrences lie inside [lo, hi), in strictly increasing order, and each is where its value is printed. */
  ghost predicate Placed(occs: seq<Occurrence>, s: seq<Byte>, lo: nat, hi: nat) {
    && (forall i :: 0 <= i < |occs| ==> lo < occs[i].at < hi && Holds(s, occs[i].at, Print(occs[i].value)))
    && (forall i, j :: 0 <= i < j < |occs| ==> occs[i].at < occs[j].at)
  }

  lemma PlacedAppend(a: seq<Occurrence>, b: seq<Occurrence>, s: seq<Byte>, lo: nat, mid: nat, hi: nat)
    requires lo <= mid <= hi && Placed(a, s, lo, mid) && Placed(b, s, mid, hi)
    ensures Placed(a + b, s, lo, hi)
  {
    hide Holds, Print;
  }

  lemma PlacedWiden(a: seq<Occurrence>, s: seq<Byte>, lo: nat, hi: nat, lo': nat, hi': nat)
    requires lo' <= lo && hi <= hi' && Placed(a, s, lo, hi)
    ensures Placed(a, s, lo', hi')
  {
    hide Holds, Print;
  }

  lemma PrintNonempty(v: Value, limit: nat)
    requires WellFormed(v, limit)
    ensures Print(v) != []
  {
  }

  // ---- no printed document holds a NUL ----

  lemma {:induction false} ShownHasNoNul(body: seq<Piece>)
    requires AllLegal(body)
    ensures 0 !in ShowAll(body)
  {
    if body != [] {
      ShownHasNoNul(body[1..]);
      assert 0 !in Show(body[0]) by {
        if body[0].Unicode? {
          assert HexValue(0) < 0;
        }
      }
    }
  }

  lemma {:induction false} PrintHasNoNul(v: Value, limit: nat)
    requires WellFormed(v, limit)
    ensures 0 !in Print(v)
    decreases v
  {
    match v
    case Scalar(text) =>
    case Text(body) => ShownHasNoNul(body);
    case List(pad, items) => ItemsHaveNoNul(items, limit, false);
    case Record(pad, members) => MembersHaveNoNul(members, limit, false);
  }

  lemma {:induction false} ItemsHaveNoNul(items: Items, limit: nat, comma: bool)
    requires WellFormedItems(items, limit)
    ensures 0 !in PrintItems(items, comma)
    decreases items
  {
    match items
    case NoItem =>
    case Item(before, value, after, rest) =>
      PrintHasNoNul(value, limit);
      ItemsHaveNoNul(rest, limit, true);
  }

  lemma {:induction false} MembersHaveNoNul(members: Members, limit: nat, comma: bool)
    requires WellFormedMembers(members, limit)
    ensures 0 !in PrintMembers(members, comma)
    decreases members
  {
    match members
    case NoMember =>
    case Member(before, key, afterKey, beforeValue, value, after, rest) =>
      ShownHasNoNul(key);
      PrintHasNoNul(value, limit);
      MembersHaveNoNul(rest, limit, true);
  }
}
