/** How long strings may be for the key scanner to find what it should (runtime/fx_eink.c, lines 224-249). */
module ScannerLimits {
  import opened Bytes
  import opened JsonText
  import opened JsonStrings
  import opened EinkJson
  import opened JsonDocument
  import opened JsonScanner
  import opened ScannerTheorem

  // ---- how long strings may be ----

  /** The scan of this document finds its first matching member, if its strings decode to at most `n` bytes each. */
  ghost predicate RightOn(n: nat, pre: seq<Byte>, v: Value, post: seq<Byte>, wanted: CString) {
    WellFormed(v, n) && AllSpace(pre) && AllSpace(post) ==>
      0 !in Document(pre, v, post)
      && Scan(Document(pre, v, post), 0, wanted) == FirstMatch(Occurrences(v, n, |pre|), wanted)
  }

  ghost predicate Right(n: nat) {
    forall pre, v, post, wanted :: RightOn(n, pre, v, post, wanted)
  }

  lemma {:induction false} WiderLimit(v: Value, n: nat, m: nat, p: nat)
    requires WellFormed(v, n) && n <= m
    ensures WellFormed(v, m) && Occurrences(v, n, p) == Occurrences(v, m, p)
    decreases v
  {
    hide AllSpace, IsScalar, AllLegal, MeaningAll, Print;
    match v
    case Scalar(_) =>
    case Text(_) =>
    case List(pad, items) => WiderItems(items, n, m, p + 1 + |pad|, false);
    case Record(pad, members) => WiderMembers(members, n, m, p + 1 + |pad|, false);
  }

  lemma {:induction false} WiderItems(items: Items, n: nat, m: nat, p: nat, comma: bool)
    requires WellFormedItems(items, n) && n <= m
    ensures WellFormedItems(items, m) && ItemOccurrences(items, n, p, comma) == ItemOccurrences(items, m, p, comma)
    decreases items
  {
    hide AllSpace, Print, WellFormed, Occurrences, Lead;
    match items
    case NoItem =>
    case Item(before, value, after, rest) =>
      var at := p + |Lead(comma)| + |before|;
      WiderLimit(value, n, m, at);
      WiderItems(rest, n, m, at + |Print(value)| + |after|, true);
  }

  lemma {:induction false} WiderMembers(members: Members, n: nat, m: nat, p: nat, comma: bool)
    requires WellFormedMembers(members, n) && n <= m
    ensures WellFormedMembers(members, m)
    ensures MemberOccurrences(members, n, p, comma) == MemberOccurrences(members, m, p, comma)
    decreases members
  {
    hide AllSpace, Print, WellFormed, Occurrences, Lead, AllLegal, MeaningAll, Quoted;
    match members
    case NoMember =>
    case Member(before, key, afterKey, beforeValue, value, after, rest) =>
      var at := p + |Lead(comma)| + |before| + |Quoted(key)| + |afterKey| + 1 + |beforeValue|;
      WiderLimit(value, n, m, at);
      WiderMembers(rest, n, m, at + |Print(value)| + |after|, true);
  }

  /** An object with one member and no space in it. */
  function Single(key: seq<Piece>, scalar: seq<Byte>): Value {
    Record([], Member([], key, [], [], Scalar(scalar), [], NoMember))
  }

  lemma SingleWellFormed(key: seq<Piece>, scalar: seq<Byte>, n: nat)
    requires AllLegal(key) && |MeaningAll(key)| <= n && IsScalar(scalar)
    ensures WellFormed(Single(key, scalar), n)
  {
    hide Quoted, MeaningAll, AllLegal, IsScalar;
    assert AllSpace([]) && WellFormed(Scalar(scalar), n) && WellFormedMembers(NoMember, n);
    assert WellFormedMembers(Member([], key, [], [], Scalar(scalar), [], NoMember), n);
  }

  lemma SingleOccurs(key: seq<Piece>, scalar: seq<Byte>, n: nat)
    requires AllLegal(key) && WellFormed(Single(key, scalar), n)
    ensures Occurrences(Single(key, scalar), n, 0)
            == [Occurrence(key, MeaningAll(key), Scalar(scalar), 2 + |Quoted(key)|)]
  {
    hide Quoted, MeaningAll, AllLegal, IsScalar, AllSpace, Print;
    var at := 2 + |Quoted(key)|;
    var members := Member([], key, [], [], Scalar(scalar), [], NoMember);
    assert WellFormedMembers(members, n) && WellFormedMembers(NoMember, n) && WellFormed(Scalar(scalar), n);
    assert MemberOccurrences(NoMember, n, at + |Print(Scalar(scalar))|, true) == [];
    assert Occurrences(Scalar(scalar), n, at) == [];
    assert MemberOccurrences(members, n, 1, false) == [Occurrence(key, MeaningAll(key), Scalar(scalar), at)] + [] + [];
  }

  lemma SingleIs(key: seq<Piece>, scalar: seq<Byte>, n: nat)
    requires AllLegal(key) && |MeaningAll(key)| <= n && IsScalar(scalar)
    ensures WellFormed(Single(key, scalar), n)
    ensures Occurrences(Single(key, scalar), n, 0)
            == [Occurrence(key, MeaningAll(key), Scalar(scalar), 2 + |Quoted(key)|)]
    ensures Document([], Single(key, scalar), []) == [0x7b] + Quoted(key) + [COLON] + scalar + [0x7d]
  {
    hide *;
    SingleWellFormed(key, scalar, n);
    SingleOccurs(key, scalar, n);
    SingleDocument(key, scalar);
  }

  lemma SingleDocument(key: seq<Piece>, scalar: seq<Byte>)
    ensures Document([], Single(key, scalar), []) == [0x7b] + Quoted(key) + [COLON] + scalar + [0x7d]
  {
    hide Quoted, PrintMembers;
    SinglePrints(key, scalar);
    var inner := PrintMembers(Single(key, scalar).members, false);
    assert Print(Single(key, scalar)) == [0x7b] + [] + inner + [0x7d];
    assert [] + ([0x7b] + [] + inner + [0x7d]) + [] == [0x7b] + inner + [0x7d];
    var q := Quoted(key);
    assert [0x7b] + (q + [COLON] + scalar) + [0x7d] == [0x7b] + q + [COLON] + scalar + [0x7d];
  }

  lemma SinglePrints(key: seq<Piece>, scalar: seq<Byte>)
    ensures PrintMembers(Single(key, scalar).members, false) == Quoted(key) + [COLON] + scalar
  {
    hide Quoted;
    var q := Quoted(key);
    assert [] + [] + q + [] + [COLON] + [] + scalar + [] + [] == q + [COLON] + scalar;
  }

  function Letters(k: nat): (s: seq<Byte>)
    ensures |s| == k && forall i :: 0 <= i < k ==> s[i] == 0x61
  {
    seq(k, i => 0x61)
  }

  function Plains(k: nat): (ps: seq<Piece>)
    ensures |ps| == k && forall i :: 0 <= i < k ==> ps[i] == Plain(0x61)
  {
    seq(k, i => Plain(0x61))
  }

  lemma {:induction false} PlainLetters(k: nat)
    ensures AllLegal(Plains(k)) && ShowAll(Plains(k)) == Letters(k) && MeaningAll(Plains(k)) == Letters(k)
    decreases k
  {
    hide Plains, Letters;
    var ps := Plains(k);
    if k > 0 {
      assert ps[1..] == Plains(k - 1);
      PlainLetters(k - 1);
      assert Letters(k) == [0x61] + Letters(k - 1);
      assert Show(ps[0]) == [0x61] && Meaning(ps[0]) == [0x61];
    } else {
      assert ps == [] && Letters(k) == [];
    }
  }

  /** `k` letters, an escaped quotation mark, and one more letter. */
  ghost function LongKey(k: nat): seq<Piece> { QuotingKey(Plains(k), Plains(1)) }

  lemma LongKeyMeans(k: nat)
    ensures AllLegal(LongKey(k)) && MeaningAll(LongKey(k)) == Letters(k) + [QUOTE] + Letters(1)
  {
    hide MeaningAll, AllLegal, Plains, Letters;
    PlainLetters(k);
    PlainLetters(1);
    QuoteMeans();
    MeaningAllAppend(Plains(k), [Escape(QUOTE)]);
    MeaningAllAppend(Plains(k) + [Escape(QUOTE)], Plains(1));
  }

  lemma QuoteMeans()
    ensures AllLegal([Escape(QUOTE)]) && MeaningAll([Escape(QUOTE)]) == [QUOTE]
  {
    var one := [Escape(QUOTE)];
    assert one[1..] == [];
    assert MeaningAll(one) == Meaning(one[0]) + MeaningAll(one[1..]);
  }

  lemma ZeroIsScalar()
    ensures IsScalar([0x30])
  {
  }

  /**
   * Text inside a string is taken for a key: `{"a…a\"a":0}`, with 32767 letters in front of the escaped
   * quotation mark, has no member a, yet the scan for a finds its zero.
   */
  lemma LongKeyIsMisread(n: nat)
    requires n > LIMIT
    ensures !RightOn(n, [], Single(LongKey(LIMIT - 1), [0x30]), [], Letters(1))
  {
    hide LongKey, MeaningAll, Scan, AllLegal, Quoted, Print, Single, WellFormed, Occurrences,
         Document, Letters, Quoteless;
    var k: nat := LIMIT - 1;
    LongKeyMeans(k);
    ZeroIsScalar();
    SingleIs(LongKey(k), [0x30], n);
    LongKeyFound(k);
    LongKeyIsAnother(k);
    NoMatch(Occurrence(LongKey(k), MeaningAll(LongKey(k)), Scalar([0x30]), 2 + |Quoted(LongKey(k))|), Letters(1));
  }

  /** A key is missed: `{"a…a":0}` with 32769 letters has just that member, and the scan for it finds nothing. */
  lemma LongKeyIsMissed(n: nat)
    requires n > LIMIT
    ensures !RightOn(n, [], Single(Plains(LIMIT + 1), [0x30]), [], Letters(LIMIT + 1))
  {
    hide Plains, MeaningAll, Scan, AllLegal, Quoted, Print, Single, WellFormed, Occurrences,
         Document, Letters, KeyMatches;
    var k: nat := LIMIT + 1;
    PlainLetters(k);
    ZeroIsScalar();
    SingleIs(Plains(k), [0x30], n);
    PlainKeyHidden(k);
    KeyMatchesItself(Letters(k));
    OneMatch(Occurrence(Plains(k), Letters(k), Scalar([0x30]), 2 + |Quoted(Plains(k))|), Letters(k));
  }

  lemma OneMatch(o: Occurrence, wanted: CString)
    requires KeyMatches(o.key, wanted)
    ensures FirstMatch([o], wanted) == Some(o.at)
  {
  }

  /** From the last quotation mark of a text no string starts. */
  lemma LastQuoteOpensNothing(s: CString, q: nat, wanted: CString)
    requires q < |s| && s[q] == QUOTE && forall i :: q < i < |s| ==> s[i] != QUOTE
    ensures Scan(s, q, wanted) == None
  {
    hide Scan, DecodeBody, SkipSpace;
    if Decode(s, q, []).Good? {
      NoTokenFrom(s, q);
    }
    ScanStep(s, q, wanted);
    NoQuotesLeft(s, q + 1, wanted);
  }

  lemma TokenCloses(s: seq<Byte>, q: nat, body: seq<Piece>)
    requires IsToken(s, q, body)
    ensures var close := q + |Quoted(body)| - 1; q < close < |s| && s[close] == QUOTE
  {
    hide ShowAll;
    var token := Quoted(body);
    HoldsIndex(s, q, token);
    assert s[q + (|token| - 1)] == token[|token| - 1] == QUOTE;
  }

  lemma NoTokenFrom(s: CString, q: nat)
    requires q < |s| && forall i :: q < i < |s| ==> s[i] != QUOTE
    ensures Decode(s, q, []).Bad?
  {
    hide DecodeBody, ShowAll, AcceptsAll, MeaningAll, Quoted, IsToken;
    if DecodeString(CLIENT, s, q).Good? {
      var body := AcceptedToken(CLIENT, s, q);
      TokenCloses(s, q, body);
    }
  }

  lemma NoQuotesLeft(s: CString, p: nat, wanted: CString)
    requires p <= |s| && forall i :: p <= i < |s| ==> s[i] != QUOTE
    ensures Scan(s, p, wanted) == None
  {
    hide TokenAt;
    NextQuoteSkips(s, p, |s|);
  }

  lemma PlainKeyHidden(k: nat)
    requires k > LIMIT
    ensures var text := [0x7b] + Quoted(Plains(k)) + [COLON] + [0x30] + [0x7d];
            0 !in text && Scan(text, 0, Letters(k)) == None
  {
    hide MeaningAll, Scan, Plains, Letters, ShowAll, AllLegal, Holds;
    PlainLetters(k);
    LettersQuoteless(k);
    var text := [0x7b] + Quoted(Plains(k)) + [COLON] + [0x30] + [0x7d];
    assert text == [0x7b] + ([QUOTE] + Letters(k) + [QUOTE]) + [COLON, 0x30, 0x7d];
    PlainKeyScan(text, k);
  }

  lemma PlainKeyScan(s: CString, k: nat)
    requires k > LIMIT && s == [0x7b] + ([QUOTE] + Letters(k) + [QUOTE]) + [COLON, 0x30, 0x7d]
    ensures Scan(s, 0, Letters(k)) == None
  {
    hide MeaningAll, Scan, Plains, Letters, ShowAll, AllLegal, Holds, TokenAt;
    PlainLetters(k);
    LettersQuoteless(k);
    HoldsThree([0x7b], [QUOTE] + Letters(k) + [QUOTE], [COLON, 0x30, 0x7d]);
    BraceIsPlain();
    ScanByte(s, 0, 0x7b, Letters(k));
    assert Quoted(Plains(k)) == [QUOTE] + Letters(k) + [QUOTE];
    OverlongDecodesBad(s, 1, Plains(k));
    ScanStep(s, 1, Letters(k));
    HoldsSplit(s, 1, [QUOTE] + Letters(k), [QUOTE]);
    HoldsSplit(s, 1, [QUOTE], Letters(k));
    ScanSkips(s, 2, Letters(k), Letters(k));
    assert s[2 + k] == QUOTE && s[3 + k..] == [COLON, 0x30, 0x7d];
    forall i | 2 + k < i < |s| ensures s[i] != QUOTE {
      assert s[i] == s[3 + k..][i - 3 - k];
    }
    LastQuoteOpensNothing(s, 2 + k, Letters(k));
  }

  lemma NoMatch(o: Occurrence, wanted: CString)
    requires !KeyMatches(o.key, wanted)
    ensures FirstMatch([o], wanted) == None
  {
    assert [o][1..] == [];
  }

  lemma LongKeyIsAnother(k: nat)
    requires k >= 2
    ensures !KeyMatches(Letters(k) + [QUOTE] + Letters(1), Letters(1))
  {
    hide KeyMatches;
    KeyTestIsEqualityUnless(Letters(k) + [QUOTE] + Letters(1), Letters(1));
  }

  lemma LongKeyFound(k: nat)
    requires k + 1 == LIMIT
    ensures AllLegal(LongKey(k))
    ensures var text := [0x7b] + Quoted(LongKey(k)) + [COLON] + [0x30] + [0x7d];
            0 !in text && Scan(text, 0, Letters(1)) == Some(1 + |Quoted(LongKey(k))| + 1)
  {
    hide MeaningAll, Scan, Quoted, Plains, QuotingKey, Letters, ShowAll, AllLegal;
    PlainLetters(k);
    PlainLetters(1);
    LettersQuoteless(k);
    ZeroIsScalar();
    assert Print(Scalar([0x30])) == [0x30];
    OverlongKeyIsMisread(Plains(k), Plains(1), Scalar([0x30]));
  }

  lemma LettersQuoteless(k: nat)
    ensures Quoteless(Letters(k)) && 0 !in Letters(k)
  {
  }

  /** The scan is right on all documents whose strings decode to at most `n` bytes exactly when the buffer holds `n`. */
  lemma ExactLimit(n: nat)
    ensures Right(n) <==> n <= LIMIT
  {
    hide RightOn;
    if n <= LIMIT {
      forall pre, v, post, wanted ensures RightOn(n, pre, v, post, wanted) {
        RightWithin(n, pre, v, post, wanted);
      }
    } else {
      LongKeyIsMisread(n);
    }
  }

  lemma RightWithin(n: nat, pre: seq<Byte>, v: Value, post: seq<Byte>, wanted: CString)
    requires n <= LIMIT
    ensures RightOn(n, pre, v, post, wanted)
  {
    hide Document, WellFormed, Occurrences, Scan, AllSpace, FirstMatch, Placed;
    if WellFormed(v, n) && AllSpace(pre) && AllSpace(post) {
      WiderLimit(v, n, LIMIT, |pre|);
      FindsFirstMember(pre, v, post, wanted);
    }
  }
}
