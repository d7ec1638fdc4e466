/** Which keys mislead the key scanner, read as RFC 8259 section 7 reads them (runtime/fx_eink.c, lines 224-249). */
module ScannerKeys {
  import opened Bytes
  import opened JsonText
  import opened RfcText
  import opened JsonDocument
  import opened JsonScanner
  import opened ScannerTheorem
  import opened ScannerLimits

  // ---- keys as texts ----

  /** The key of a member is this text. */
  ghost predicate IsNamed(o: Occurrence, wanted: CString) {
    AllLegal(o.name) && TextOf(o.name) == Some(wanted)
  }

  /** How many members come before the first one whose key is the wanted text. */
  ghost function NamedIndex(occs: seq<Occurrence>, wanted: CString): (i: nat)
    ensures i <= |occs| && (i < |occs| ==> IsNamed(occs[i], wanted))
    ensures forall j :: 0 <= j < i ==> !IsNamed(occs[j], wanted)
  {
    if occs == [] || IsNamed(occs[0], wanted) then 0 else 1 + NamedIndex(occs[1..], wanted)
  }

  /** Where the value of the first member whose key is the wanted text starts. */
  ghost function FirstNamed(occs: seq<Occurrence>, wanted: CString): Option<nat> {
    var i := NamedIndex(occs, wanted);
    if i < |occs| then Some(occs[i].at) else None
  }

  /** The wanted key, continued by a NUL, which only an escape can put there. */
  predicate Continues(key: seq<Byte>, wanted: CString) {
    wanted < key && key[|wanted|] == 0
  }

  /** Some escape in the key is a surrogate. */
  ghost predicate Halved(o: Occurrence) { AllLegal(o.name) && HasHalves(o.name) }

  /** Another key that passes for the wanted one: continued by a NUL, or with surrogates for its question marks. */
  ghost predicate PassesFor(o: Occurrence, wanted: CString) {
    Continues(o.key, wanted) || (Halved(o) && o.key == wanted)
  }

  ghost predicate AllDecoded(occs: seq<Occurrence>) {
    forall i :: 0 <= i < |occs| ==> DecodedOne(occs[i])
  }

  ghost predicate DecodedOne(o: Occurrence) { AllLegal(o.name) && o.key == MeaningAll(o.name) }

  lemma {:induction false} OccurrencesDecoded(v: Value, p: nat)
    requires WellFormed(v, LIMIT)
    ensures AllDecoded(Occurrences(v, LIMIT, p))
    decreases v
  {
    match v
    case Scalar(_) =>
    case Text(_) =>
    case List(pad, items) => ItemsDecoded(items, p + 1 + |pad|, false);
    case Record(pad, members) => MembersDecoded(members, p + 1 + |pad|, false);
  }

  lemma {:induction false} ItemsDecoded(items: Items, p: nat, comma: bool)
    requires WellFormedItems(items, LIMIT)
    ensures AllDecoded(ItemOccurrences(items, LIMIT, p, comma))
    decreases items
  {
    hide Print, AllSpace, DecodedOne;
    if items.Item? {
      var at := p + |Lead(comma)| + |items.before|;
      OccurrencesDecoded(items.value, at);
      ItemsDecoded(items.rest, at + |Print(items.value)| + |items.after|, true);
    }
  }

  lemma {:induction false} MembersDecoded(m: Members, p: nat, comma: bool)
    requires WellFormedMembers(m, LIMIT)
    ensures AllDecoded(MemberOccurrences(m, LIMIT, p, comma))
    decreases m
  {
    hide Print, Quoted, MeaningAll, AllLegal, AllSpace, AllDecoded;
    if m.Member? {
      var at := p + |Lead(comma)| + |m.before| + |Quoted(m.key)| + |m.afterKey| + 1 + |m.beforeValue|;
      var q := at + |Print(m.value)| + |m.after|;
      OccurrencesDecoded(m.value, at);
      MembersDecoded(m.rest, q, true);
      MemberDecoded(Occurrence(m.key, MeaningAll(m.key), m.value, at), Occurrences(m.value, LIMIT, at),
                    MemberOccurrences(m.rest, LIMIT, q, true));
    } else {
      NothingDecoded();
    }
  }

  lemma NothingDecoded()
    ensures AllDecoded([])
  {
  }

  lemma MemberDecoded(o: Occurrence, a: seq<Occurrence>, b: seq<Occurrence>)
    requires DecodedOne(o) && AllDecoded(a) && AllDecoded(b)
    ensures AllDecoded([o] + a + b)
  {
    hide DecodedOne;
  }

  // ---- one key ----

  lemma KeyTest(key: seq<Byte>, wanted: CString)
    requires wanted != []
    ensures KeyMatches(key, wanted) <==> key == wanted || Continues(key, wanted)
    ensures Continues(key, wanted) ==> wanted <= key && key != wanted
  {
    hide KeyMatches;
    KeyTestIsEqualityUnless(key, wanted);
  }

  /** A wanted key is recognised unless written with surrogates; another key is taken for it if it passes for it. */
  lemma NameTest(o: Occurrence, wanted: CString)
    requires DecodedOne(o) && wanted != []
    ensures IsNamed(o, wanted) ==> (KeyMatches(o.key, wanted) <==> !Halved(o))
    ensures !IsNamed(o, wanted) ==> (KeyMatches(o.key, wanted) <==> PassesFor(o, wanted))
  {
    hide KeyMatches, Continues, TextOf, MeaningAll, HasHalves, AllLegal;
    KeyTest(o.key, wanted);
    MeaningIsText(o.name);
  }

  // ---- all keys ----

  /** Nothing passes for the wanted key before the first member that has it, and that one has no surrogates. */
  ghost predicate NotMisled(occs: seq<Occurrence>, wanted: CString) {
    var i := NamedIndex(occs, wanted);
    && (forall j :: 0 <= j < i ==> !PassesFor(occs[j], wanted))
    && (i < |occs| ==> !Halved(occs[i]))
  }

  lemma NotMisledTail(occs: seq<Occurrence>, wanted: CString)
    requires occs != [] && !IsNamed(occs[0], wanted)
    ensures FirstNamed(occs, wanted) == FirstNamed(occs[1..], wanted)
    ensures NotMisled(occs, wanted) <==> !PassesFor(occs[0], wanted) && NotMisled(occs[1..], wanted)
  {
    hide IsNamed, PassesFor, Halved;
    var rest := occs[1..];
    var n := NamedIndex(rest, wanted);
    assert NamedIndex(occs, wanted) == 1 + n;
    if NotMisled(occs, wanted) {
      forall j | 0 <= j < n ensures !PassesFor(rest[j], wanted) {
        assert !PassesFor(occs[j + 1], wanted);
      }
    }
    if !PassesFor(occs[0], wanted) && NotMisled(rest, wanted) {
      forall j | 0 <= j < 1 + n ensures !PassesFor(occs[j], wanted) {
        if j > 0 {
          assert !PassesFor(rest[j - 1], wanted);
        }
      }
    }
  }

  predicate Increasing(occs: seq<Occurrence>) {
    forall i, j :: 0 <= i < j < |occs| ==> occs[i].at < occs[j].at
  }

  /** What is found among later members is later. */
  lemma LaterFound(occs: seq<Occurrence>, wanted: CString)
    requires occs != [] && Increasing(occs)
    ensures FirstMatch(occs[1..], wanted) != Some(occs[0].at) && FirstNamed(occs[1..], wanted) != Some(occs[0].at)
  {
    hide KeyMatches, IsNamed, FirstMatch;
    var rest := occs[1..];
    assert forall i :: 0 <= i < |rest| ==> rest[i] == occs[i + 1];
    FirstMatchIsFirst(rest, wanted, occs[0].at);
  }

  lemma {:induction false} MatchIsNamedUnless(occs: seq<Occurrence>, wanted: CString)
    requires wanted != [] && Increasing(occs) && AllDecoded(occs)
    ensures FirstMatch(occs, wanted) == FirstNamed(occs, wanted) <==> NotMisled(occs, wanted)
    decreases |occs|
  {
    hide KeyMatches, IsNamed, PassesFor, Halved, DecodedOne;
    if occs != [] {
      assert DecodedOne(occs[0]);
      NameTest(occs[0], wanted);
      LaterFound(occs, wanted);
      if !IsNamed(occs[0], wanted) {
        NotMisledTail(occs, wanted);
        MatchIsNamedUnless(occs[1..], wanted);
      } else {
        FirstIsNamed(occs, wanted);
      }
    }
  }

  lemma FirstIsNamed(occs: seq<Occurrence>, wanted: CString)
    requires occs != [] && IsNamed(occs[0], wanted)
    ensures FirstNamed(occs, wanted) == Some(occs[0].at)
    ensures NotMisled(occs, wanted) <==> !Halved(occs[0])
  {
    hide IsNamed, PassesFor, Halved;
  }

  /**
   * On a document the scan finds the first member whose key is the wanted text, and nothing when there is none, exactly
   * when no key before it passes for the wanted one and it is itself written without surrogate escapes.
   */
  lemma FindsFirstNamed(pre: seq<Byte>, v: Value, post: seq<Byte>, wanted: CString)
    requires WellFormed(v, LIMIT) && AllSpace(pre) && AllSpace(post) && wanted != []
    ensures 0 !in Document(pre, v, post)
    ensures var occs := Occurrences(v, LIMIT, |pre|);
            Scan(Document(pre, v, post), 0, wanted) == FirstNamed(occs, wanted) <==> NotMisled(occs, wanted)
  {
    hide Document, WellFormed, Occurrences, Scan, AllSpace, FirstMatch, FirstNamed, NotMisled;
    FindsFirstMember(pre, v, post, wanted);
    var occs := Occurrences(v, LIMIT, |pre|);
    PlacedInOrder(occs, Document(pre, v, post), |pre|, |pre + Print(v)|);
    OccurrencesDecoded(v, |pre|);
    MatchIsNamedUnless(occs, wanted);
  }

  lemma PlacedInOrder(occs: seq<Occurrence>, s: seq<Byte>, lo: nat, hi: nat)
    requires Placed(occs, s, lo, hi)
    ensures Increasing(occs)
  {
  }

  // ---- keys that surrogates cannot touch ----

  /** No question mark, and no character outside the basic plane. */
  predicate IsBasic(wanted: CString) {
    QUESTION !in wanted && forall i :: 0 <= i < |wanted| ==> wanted[i] < 0xf0
  }

  lemma {:induction false} HalvesShow(body: seq<Piece>)
    requires AllLegal(body) && HasHalves(body)
    ensures QUESTION in MeaningAll(body)
    decreases |body|
  {
    hide Meaning, MeaningAll, HasHalves, IsHalf;
    NoHalvesInNothing(body);
    HalvesUnfold(body);
    MeaningUnfolds(body);
    if IsHalf(body[0]) {
      HalfMeans(body[0]);
      assert MeaningAll(body)[0] == QUESTION;
    } else {
      HalvesShow(body[1..]);
    }
  }

  lemma NoHalvesInNothing(body: seq<Piece>)
    requires AllLegal(body) && HasHalves(body)
    ensures body != []
  {
  }

  lemma {:induction false} PairsShow(body: seq<Piece>)
    requires AllLegal(body) && HasHalves(body) && TextOf(body).Some?
    ensures exists i :: 0 <= i < |TextOf(body).value| && TextOf(body).value[i] >= 0xf0
    decreases |body|
  {
    hide Meaning, MeaningAll, TextOf, HasHalves, IsHalf;
    NoHalvesInNothing(body);
    HalvesUnfold(body);
    TextUnfolds(body);
    if IsHalf(body[0]) {
      HalvesDiffer(body);
    } else {
      PairsShow(body[1..]);
      var rest := TextOf(body[1..]).value;
      var i :| 0 <= i < |rest| && rest[i] >= 0xf0;
      assert TextOf(body).value[|Meaning(body[0])| + i] == rest[i];
    }
  }

  lemma BasicTest(o: Occurrence, wanted: CString)
    requires DecodedOne(o) && IsBasic(wanted)
    ensures PassesFor(o, wanted) <==> Continues(o.key, wanted)
    ensures IsNamed(o, wanted) ==> !Halved(o)
  {
    hide Continues, TextOf, MeaningAll, HasHalves, AllLegal;
    if Halved(o) {
      HalvesShow(o.name);
      if TextOf(o.name).Some? {
        PairsShow(o.name);
      }
    }
  }

  /**
   * For a key without question marks and without characters outside the basic plane, as are all the client asks for,
   * only a NUL misleads the scan.
   */
  lemma FindsFirstBasic(pre: seq<Byte>, v: Value, post: seq<Byte>, wanted: CString)
    requires WellFormed(v, LIMIT) && AllSpace(pre) && AllSpace(post) && wanted != [] && IsBasic(wanted)
    ensures 0 !in Document(pre, v, post)
    ensures var occs := Occurrences(v, LIMIT, |pre|);
            (Scan(Document(pre, v, post), 0, wanted) == FirstNamed(occs, wanted)
             <==> forall i :: 0 <= i < NamedIndex(occs, wanted) ==> !Continues(occs[i].key, wanted))
  {
    hide Document, WellFormed, Occurrences, Scan, AllSpace, FirstNamed, PassesFor, Continues, Halved, IsNamed, IsBasic,
         DecodedOne;
    FindsFirstNamed(pre, v, post, wanted);
    OccurrencesDecoded(v, |pre|);
    var occs := Occurrences(v, LIMIT, |pre|);
    forall i | 0 <= i < |occs|
      ensures PassesFor(occs[i], wanted) <==> Continues(occs[i].key, wanted)
      ensures IsNamed(occs[i], wanted) ==> !Halved(occs[i])
    {
      assert DecodedOne(occs[i]);
      BasicTest(occs[i], wanted);
    }
  }

  // ---- it does happen ----

  /** What the scan of an object with one member finds. */
  lemma SingleScan(key: seq<Piece>, wanted: CString)
    requires AllLegal(key) && |MeaningAll(key)| <= LIMIT
    ensures 0 !in Document([], Single(key, [0x30]), [])
    ensures Scan(Document([], Single(key, [0x30]), []), 0, wanted)
         == if KeyMatches(MeaningAll(key), wanted) then Some(2 + |Quoted(key)|) else None
    ensures WellFormed(Single(key, [0x30]), LIMIT)
    ensures FirstNamed(Occurrences(Single(key, [0x30]), LIMIT, 0), wanted)
         == if TextOf(key) == Some(wanted) then Some(2 + |Quoted(key)|) else None
  {
    hide Scan, Single, WellFormed, Occurrences, Document, Print, MeaningAll, AllLegal, Quoted, KeyMatches, TextOf;
    ZeroIsScalar();
    SingleIs(key, [0x30], LIMIT);
    FindsFirstMember([], Single(key, [0x30]), [], wanted);
    var o := Occurrence(key, MeaningAll(key), Scalar([0x30]), 2 + |Quoted(key)|);
    OneOccurrence(o, wanted);
  }

  lemma OneOccurrence(o: Occurrence, wanted: CString)
    requires AllLegal(o.name)
    ensures FirstMatch([o], wanted) == if KeyMatches(o.key, wanted) then Some(o.at) else None
    ensures FirstNamed([o], wanted) == if TextOf(o.name) == Some(wanted) then Some(o.at) else None
  {
    hide KeyMatches, TextOf;
    assert [o][1..] == [];
  }

  /** Where the scan finds the wanted key in an object, and where the first member with that key is. */
  ghost predicate Finds(v: Value, wanted: CString, found: Option<nat>, named: Option<nat>) {
    && WellFormed(v, LIMIT) && 0 !in Document([], v, [])
    && Scan(Document([], v, []), 0, wanted) == found && FirstNamed(Occurrences(v, LIMIT, 0), wanted) == named
  }

  const A: CString := [0x61]
  const QUESTIONS: CString := [QUESTION, QUESTION]
  const GRINNING_FACE: CString := [0xf0, 0x9f, 0x98, 0x80]

  /** In `{"a\u0000":0}` the scan for a finds the zero, and no key is a. */
  lemma NulKeyIsTaken()
    ensures Finds(Single([Plain(0x61), Unicode(0x30, 0x30, 0x30, 0x30)], [0x30]), A, Some(11), None)
  {
    hide Scan, Single, WellFormed, Occurrences, Document, FirstNamed, KeyMatches, HasHalves, TextOf;
    var key := [Plain(0x61), Unicode(0x30, 0x30, 0x30, 0x30)];
    NulKeyMeans();
    SingleScan(key, A);
    KeyTest([0x61, 0], A);
    MeaningIsText(key);
  }

  lemma NulKeyMeans()
    ensures var key := [Plain(0x61), Unicode(0x30, 0x30, 0x30, 0x30)];
            AllLegal(key) && MeaningAll(key) == [0x61, 0] && |Quoted(key)| == 9 && !HasHalves(key)
  {
    var key := [Plain(0x61), Unicode(0x30, 0x30, 0x30, 0x30)];
    assert key[1..] == [key[1]] && [key[1]][1..] == [];
    assert CodePoint(0x30, 0x30, 0x30, 0x30) == 0;
    assert MeaningAll([key[1]]) == [0] + MeaningAll([key[1]][1..]);
    assert MeaningAll(key) == [0x61] + MeaningAll(key[1..]);
    assert ShowAll([key[1]]) == Show(key[1]) + ShowAll([key[1]][1..]);
    assert ShowAll(key) == Show(key[0]) + ShowAll(key[1..]);
  }

  /** U+1F600 as a key, written as the surrogates d83d and de00. */
  function PairKey(): seq<Piece> { [Unicode(0x64, 0x38, 0x33, 0x64), Unicode(0x64, 0x65, 0x30, 0x30)] }

  lemma PairKeyMeans()
    ensures AllLegal(PairKey()) && MeaningAll(PairKey()) == [QUESTION, QUESTION] && |Quoted(PairKey())| == 14
    ensures TextOf(PairKey()) == Some(GRINNING_FACE)
  {
    hide TextOf, Utf8Four;
    var key := PairKey();
    assert key[1..] == [key[1]] && [key[1]][1..] == [] && key[2..] == [];
    assert CodePoint(0x64, 0x38, 0x33, 0x64) == 0xd83d && CodePoint(0x64, 0x65, 0x30, 0x30) == 0xde00;
    assert MeaningAll([key[1]]) == [QUESTION] + MeaningAll([key[1]][1..]);
    assert MeaningAll(key) == [QUESTION] + MeaningAll(key[1..]);
    assert ShowAll([key[1]]) == Show(key[1]) + ShowAll([key[1]][1..]);
    assert ShowAll(key) == Show(key[0]) + ShowAll(key[1..]);
    PairText(key[0], key[1]);
    FaceBytes();
    assert key == [key[0], key[1]];
  }

  lemma PairText(high: Piece, low: Piece)
    requires Legal(high) && Legal(low) && IsHigh(high) && IsLow(low)
    ensures TextOf([high, low]) == Some(Utf8Four(Joined(high, low)))
  {
    hide IsHigh, IsLow, CodeUnit, Joined, Utf8Four, Meaning;
    var pair := [high, low];
    assert pair[2..] == [] && pair[0] == high && pair[1] == low;
    assert TextOf(pair[2..]) == Some([]);
    assert Utf8Four(Joined(high, low)) + [] == Utf8Four(Joined(high, low));
  }

  lemma FaceBytes()
    ensures Utf8Four(0x1f600) == GRINNING_FACE
  {
  }

  /** In `{"\ud83d\ude00":0}` the scan for ?? finds the zero, and the scan for the key that is there finds nothing. */
  lemma PairKeyIsTakenAndMissed()
    ensures Finds(Single(PairKey(), [0x30]), QUESTIONS, Some(16), None)
    ensures Finds(Single(PairKey(), [0x30]), GRINNING_FACE, None, Some(16))
  {
    hide Scan, Single, WellFormed, Occurrences, Document, FirstNamed, KeyMatches, TextOf, MeaningAll, PairKey, Quoted;
    PairKeyMeans();
    SingleScan(PairKey(), QUESTIONS);
    SingleScan(PairKey(), GRINNING_FACE);
    KeyTest(QUESTIONS, QUESTIONS);
    KeyTest(QUESTIONS, GRINNING_FACE);
  }
}
