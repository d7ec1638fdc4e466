/** The strict argument parser of the example tools (runtime/fx_example_tools.c). */
module ExampleTools {
  import opened Bytes
  import opened JsonText
  import opened JsonStrings
  import opened FlatObjects

  const ARG_LIMIT: nat := 8192

  /** The character one turn of the loop reads, before the capacity test. */
  method OneCharacter(s: seq<Byte>, p: nat, ghost cap: nat, ghost held: seq<Byte>)
    returns (ok: bool, ch: Byte, after: nat)
    requires p < |s| && s[p] != QUOTE
    ensures ok ==> ch != 0 && p < after <= |s|
    ensures DecodeBody(Tool(cap), s, p, held)
         == if ok && |held| + 1 < cap then DecodeBody(Tool(cap), s, after, held + [ch]) else Bad
  {
    DecodeTurn(Tool(cap), s, p, held);
    ch := s[p];
    after := p + 1;
    if ch < 32 || ch > 126 {
      return false, ch, after;
    }
    if ch != BACKSLASH {
      return true, ch, after;
    }
    if after == |s| {
      return false, ch, after;
    }
    ch := s[after];
    after := after + 1;
    match ch {
      case 0x22 => return true, ch, after;
      case 0x5c => return true, ch, after;
      case 0x2f => return true, ch, after;
      case 0x6e => return true, NEWLINE, after;
      case 0x72 => return true, RETURN, after;
      case 0x74 => return true, TAB, after;
      case 0x75 =>
        var digits, value := FourHexDigits(s, after);
        if !digits || value == 0 || value > 126 || (value < 32 && value != 9 && value != 10 && value != 13) {
          return false, ch, after;
        }
        return true, value, after + 4;
      case _ => return false, ch, after;
    }
  }

  method StringValue(s: seq<Byte>, p: nat, out: array<Byte>) returns (ok: bool, after: nat, ghost text: seq<Byte>)
    requires p <= |s| && out.Length > 0
    modifies out
    ensures ok == DecodeString(Tool(out.Length), s, p).Good?
    ensures ok ==> DecodeString(Tool(out.Length), s, p) == Good(text, after)
    ensures ok ==> p < after <= |s| && UpToNul(out[..]) == text
  {
    hide UpToNul, ReadPiece, Accepts, Show, Meaning;
    after, text := p, [];
    if p == |s| || s[p] != QUOTE {
      return false, p, [];
    }
    after := p + 1;
    var length := 0;
    while after < |s|
      invariant p < after <= |s| && length < out.Length && length == |text|
      invariant out[..length] == text && 0 !in text
      invariant DecodeBody(Tool(out.Length), s, after, text) == DecodeString(Tool(out.Length), s, p)
    {
      if s[after] == QUOTE {
        out[length] := 0;
        EndsAtNul(out[..], length);
        return true, after + 1, text;
      }
      var one, ch, next := OneCharacter(s, after, out.Length, text);
      if !one || length + 1 >= out.Length {
        return false, p, [];
      }
      out[length] := ch;
      length := length + 1;
      text := text + [ch];
      after := next;
    }
    ok := false;
  }

  lemma {:induction false} EndsAtNul(s: seq<Byte>, length: nat)
    requires length < |s| && s[length] == 0 && 0 !in s[..length]
    ensures UpToNul(s) == s[..length]
  {
    if length > 0 {
      assert s[..length] == [s[0]] + s[1..][..length - 1];
      EndsAtNul(s[1..], length - 1);
    }
  }

  // ---- the argument object ----

  datatype Arguments = BadArguments | Arguments(path: Option<seq<Byte>>, content: Option<seq<Byte>>)

  /** Only known keys, none of them twice. */
  predicate KeysOk(pairs: seq<Pair>) {
    && (forall i :: 0 <= i < |pairs| ==> pairs[i].key == PATH || pairs[i].key == CONTENT)
    && (forall i, j :: 0 <= i < j < |pairs| ==> pairs[i].key != pairs[j].key)
  }

  function Lookup(pairs: seq<Pair>, key: seq<Byte>): Option<seq<Byte>> {
    if pairs == [] then None
    else if pairs[0].key == key then Some(pairs[0].value)
    else Lookup(pairs[1..], key)
  }

  /** What a text says as an argument object. */
  function ReadArguments(s: seq<Byte>): Arguments {
    if |s| > ARG_LIMIT then BadArguments
    else
      match ReadObject(ArgumentStyle, s, SkipBlank(s, 0))
      case NoFields => BadArguments
      case Fields(pairs, end) =>
        if KeysOk(pairs) && SkipBlank(s, end) == |s|
        then Arguments(Lookup(pairs, PATH), Lookup(pairs, CONTENT))
        else BadArguments
  }

  /** A zeroed array that holds, as a C string, the text of its field once that was given. */
  ghost predicate Stores(out: seq<Byte>, given: Option<seq<Byte>>) {
    UpToNul(out) == if given.Some? then given.value else []
  }

  class Args {
    const path: array<Byte>
    const content: array<Byte>
    var hasPath: bool     // the first bit of `fields`
    var hasContent: bool  // the second bit of `fields`

    constructor ()
      ensures fresh(path) && fresh(content) && path != content
      ensures path.Length == 32 && content.Length == 4097
      ensures Records([])
    {
      path := new Byte[32](_ => 0);
      content := new Byte[4097](_ => 0);
      hasPath, hasContent := false, false;
    }

    /** The struct records exactly the fields met so far. */
    ghost predicate Records(met: seq<Pair>)
      reads this, path, content
    {
      && hasPath == Lookup(met, PATH).Some? && Stores(path[..], Lookup(met, PATH))
      && hasContent == Lookup(met, CONTENT).Some? && Stores(content[..], Lookup(met, CONTENT))
    }

    ghost predicate Shaped() {
      path != content && path.Length == 32 && content.Length == 4097
    }
  }

  lemma {:induction false} LookupAppend(met: seq<Pair>, pair: Pair, key: seq<Byte>)
    ensures Lookup(met + [pair], key)
         == if Lookup(met, key).Some? then Lookup(met, key) else if pair.key == key then Some(pair.value) else None
  {
    if met == [] {
      assert met + [pair] == [pair];
    } else {
      assert (met + [pair])[1..] == met[1..] + [pair];
      LookupAppend(met[1..], pair, key);
    }
  }

  lemma {:induction false} LookupFinds(met: seq<Pair>, key: seq<Byte>)
    ensures Lookup(met, key).Some? <==> exists i :: 0 <= i < |met| && met[i].key == key
  {
    if met != [] {
      LookupFinds(met[1..], key);
      assert forall i :: 0 < i < |met| ==> met[i] == met[1..][i - 1];
    }
  }

  /** A further field keeps the keys in order exactly when it is known and new. */
  lemma KeysOkAppend(met: seq<Pair>, pair: Pair)
    requires KeysOk(met)
    ensures KeysOk(met + [pair]) <==> (pair.key == PATH || pair.key == CONTENT) && Lookup(met, pair.key) == None
  {
    LookupFinds(met, pair.key);
    var all := met + [pair];
    assert forall i :: 0 <= i < |met| ==> all[i] == met[i];
    assert all[|met|] == pair;
  }

  lemma KeysOkPrefix(met: seq<Pair>, more: seq<Pair>)
    requires KeysOk(met + more)
    ensures KeysOk(met)
  {
    var all := met + more;
    assert forall i :: 0 <= i < |met| ==> all[i] == met[i];
  }

  /** One turn of the loop: a key, a colon and a value, with the blanks around them. */
  method ParseField(s: seq<Byte>, p: nat, args: Args, ghost met: seq<Pair>)
    returns (ok: bool, after: nat, ghost pair: Pair)
    requires p <= |s| && args.Shaped() && args.Records(met) && KeysOk(met)
    modifies args, args.path, args.content
    ensures ok <==> ReadField(ArgumentStyle, s, p).Some? && KeysOk(met + [ReadField(ArgumentStyle, s, p).value.0])
    ensures ok ==> ReadField(ArgumentStyle, s, p) == Some((pair, after))
                   && p < after <= |s| && args.Records(met + [pair])
  {
    hide DecodeString, UpToNul, SkipBlank;
    after, pair := p, Pair([], []);
    var key := new Byte[16](_ => 0);
    var ok1, c, k := StringValue(s, p, key);
    if !ok1 {
      return false, p, pair;
    }
    var isPath := UpToNul(key[..]) == PATH;
    var isContent := UpToNul(key[..]) == CONTENT;
    pair := Pair(k, []);
    KeysOkAppendAny(met, k);
    PathIsNotContent();
    if !(isPath || isContent) || (isPath && args.hasPath) || (isContent && args.hasContent) {
      return false, p, pair;
    }
    if isPath { args.hasPath := true; } else { args.hasContent := true; }
    c := SkipBlanks(s, c);
    if c == |s| || s[c] != COLON {
      return false, p, pair;
    }
    c := SkipBlanks(s, c + 1);
    var out := if isPath then args.path else args.content;
    var ok2, e, v := StringValue(s, c, out);
    if !ok2 {
      return false, p, pair;
    }
    after := SkipBlanks(s, e);
    pair := Pair(k, v);
    LookupAppend(met, pair, PATH);
    LookupAppend(met, pair, CONTENT);
    ok := true;
  }

  lemma PathIsNotContent()
    ensures PATH != CONTENT
  {
    assert |PATH| == 4 && |CONTENT| == 7;
  }

  lemma KeysOkAppendAny(met: seq<Pair>, key: seq<Byte>)
    requires KeysOk(met)
    ensures forall v: seq<Byte> :: KeysOk(met + [Pair(key, v)])
                                   <==> (key == PATH || key == CONTENT) && Lookup(met, key) == None
  {
    forall v: seq<Byte>
      ensures KeysOk(met + [Pair(key, v)]) <==> (key == PATH || key == CONTENT) && Lookup(met, key) == None
    {
      KeysOkAppend(met, Pair(key, v));
    }
  }

  /** Once a key is wrong, the object is refused however it goes on. */
  lemma WrongKeyStays(s: seq<Byte>, p: nat, met: seq<Pair>)
    requires p <= |s| && ReadField(ArgumentStyle, s, p).Some?
    requires !KeysOk(met + [ReadField(ArgumentStyle, s, p).value.0])
    ensures var r := Prepend(met, ReadFields(ArgumentStyle, s, p)); r.Fields? ==> !KeysOk(r.pairs)
  {
    hide ReadField, SkipBlank, KeysOk;
    ReadFieldsTurn(ArgumentStyle, s, p, met);
    var (pair, e) := ReadField(ArgumentStyle, s, p).value;
    if ByteAt(s, e, COMMA) && !ByteAt(s, e, 0x7d) {
      var rest := ReadFields(ArgumentStyle, s, SkipBlank(s, e + 1));
      if rest.Fields? && KeysOk(met + [pair] + rest.pairs) {
        KeysOkPrefix(met + [pair], rest.pairs);
      }
    }
  }

  /** The members of an object, from its first key to behind the comma-separated last one. */
  method ParseMembers(s: seq<Byte>, start: nat, args: Args) returns (ok: bool, p: nat, ghost met: seq<Pair>)
    requires start <= |s| && args.Shaped() && args.Records([])
    modifies args, args.path, args.content
    ensures p <= |s|
    ensures var r := ReadFields(ArgumentStyle, s, start);
            && (ok && ByteAt(s, p, 0x7d) ==> r == Fields(met, p + 1) && KeysOk(met) && args.Records(met))
            && (!(ok && ByteAt(s, p, 0x7d)) ==> r.NoFields? || !KeysOk(r.pairs))
  {
    hide ReadField, SkipBlank, KeysOk, Lookup;
    p, met := start, [];
    NoKeysOk();
    ghost var r := ReadFields(ArgumentStyle, s, start);
    assert r.Fields? ==> [] + r.pairs == r.pairs;
    while true
      invariant p <= |s|
      invariant args.Records(met) && KeysOk(met)
      invariant r == Prepend(met, ReadFields(ArgumentStyle, s, p))
      decreases |s| - p
    {
      ReadFieldsTurn(ArgumentStyle, s, p, met);
      ghost var pair;
      var one, e;
      one, e, pair := ParseField(s, p, args, met);
      if !one {
        if ReadField(ArgumentStyle, s, p).Some? {
          WrongKeyStays(s, p, met);
        }
        return false, p, met;
      }
      met := met + [pair];
      p := e;
      if p == |s| {
        return false, p, met;
      }
      if s[p] != COMMA {
        return true, p, met;
      }
      p := SkipBlanks(s, p + 1);
    }
  }

  lemma NoKeysOk()
    ensures KeysOk([])
  {
  }

  method ParseArgs(s: seq<Byte>) returns (ok: bool, args: Args)
    ensures fresh(args) && fresh(args.path) && fresh(args.content)
    ensures ok <==> ReadArguments(s).Arguments?
    ensures ok ==> && args.hasPath == ReadArguments(s).path.Some? && Stores(args.path[..], ReadArguments(s).path)
                   && args.hasContent == ReadArguments(s).content.Some?
                   && Stores(args.content[..], ReadArguments(s).content)
  {
    hide ReadFields, SkipBlank, KeysOk;
    args := new Args();
    if |s| > ARG_LIMIT {
      return false, args;
    }
    var p := SkipBlanks(s, 0);
    if p == |s| || s[p] != 0x7b {
      return false, args;
    }
    p := SkipBlanks(s, p + 1);
    ghost var met := [];
    NoKeysOk();
    if p < |s| && s[p] != 0x7d {
      var members;
      members, p, met := ParseMembers(s, p, args);
      if !members {
        return false, args;
      }
    }
    if p == |s| || s[p] != 0x7d {
      return false, args;
    }
    p := SkipBlanks(s, p + 1);
    return p == |s|, args;
  }

  // ---- what is accepted ----

  ghost predicate PrintedArguments(s: seq<Byte>, pre: seq<Byte>, o: Object, post: seq<Byte>, a: Arguments) {
    && s == pre + ShowObject(o) + post && |s| <= ARG_LIMIT && AllBlank(pre) && AllBlank(post)
    && ObjectOk(ArgumentStyle, o)
    && (var pairs := ObjectPairs(ArgumentStyle, o);
        KeysOk(pairs) && a == Arguments(Lookup(pairs, PATH), Lookup(pairs, CONTENT)))
  }

  /**
   * The parser accepts exactly the printed objects with distinct keys from {path, content} whose strings the
   * tool decoder takes, in any order, layout and escaping, and recovers exactly the two values.
   */
  lemma ArgumentsAcceptedExactly(s: seq<Byte>, path: Option<seq<Byte>>, content: Option<seq<Byte>>)
    ensures ReadArguments(s) == Arguments(path, content)
       <==> exists pre, o, post :: PrintedArguments(s, pre, o, post, Arguments(path, content))
  {
    hide ReadObject, ObjectOk, ShowObject, ObjectPairs, KeysOk, Lookup, AllBlank, IsBlank;
    if ReadArguments(s) == Arguments(path, content) {
      ArgumentsArePrinted(s);
    }
    forall pre, o, post | PrintedArguments(s, pre, o, post, Arguments(path, content))
      ensures ReadArguments(s) == Arguments(path, content)
    {
      PrintedArgumentsRead(s, pre, o, post);
    }
  }

  lemma ArgumentsArePrinted(s: seq<Byte>)
    requires ReadArguments(s).Arguments?
    ensures exists pre, o, post :: PrintedArguments(s, pre, o, post, ReadArguments(s))
  {
    hide ReadObject, ObjectOk, ShowObject, ObjectPairs, KeysOk, Lookup, AllBlank, IsBlank, SkipBlank;
    var q := SkipBlank(s, 0);
    var o := ObjectRead(ArgumentStyle, s, q);
    var end := q + |ShowObject(o)|;
    SkippedBlanks(s, 0);
    SkippedBlanks(s, end);
    assert s == s[0..q] + s[q..end] + s[end..|s|];
    assert PrintedArguments(s, s[0..q], o, s[end..|s|], ReadArguments(s));
  }

  lemma PrintedArgumentsRead(s: seq<Byte>, pre: seq<Byte>, o: Object, post: seq<Byte>)
    requires s == pre + ShowObject(o) + post && |s| <= ARG_LIMIT && AllBlank(pre) && AllBlank(post)
    requires ObjectOk(ArgumentStyle, o) && KeysOk(ObjectPairs(ArgumentStyle, o))
    ensures ReadArguments(s) == Arguments(Lookup(ObjectPairs(ArgumentStyle, o), PATH),
                                          Lookup(ObjectPairs(ArgumentStyle, o), CONTENT))
  {
    hide ReadObject, ObjectOk, ObjectPairs, KeysOk, Lookup, AllBlank, IsBlank, SkipBlank, ShowObject, Holds;
    var end := |pre| + |ShowObject(o)|;
    ColonIsSolid();
    HoldsThree(pre, ShowObject(o), post);
    ObjectStarts(s, |pre|, o);
    SkipsBlanks(s, 0, pre);
    ReadsObject(ArgumentStyle, s, |pre|, o);
    SkipsBlanks(s, end, post);
  }

  /** What is recovered is NUL-free ASCII that fits the two arrays with their terminators. */
  lemma ArgumentsAreBounded(s: seq<Byte>)
    requires ReadArguments(s).Arguments?
    ensures var path := ReadArguments(s).path; path.Some? ==> |path.value| < 32 && AllToolBytes(path.value)
    ensures var content := ReadArguments(s).content;
            content.Some? ==> |content.value| < 4097 && AllToolBytes(content.value)
  {
    hide ObjectOk, ShowObject, ObjectPairs, KeysOk, AllBlank, IsBlank, SkipBlank;
    var o := ObjectRead(ArgumentStyle, s, SkipBlank(s, 0));
    PairsAreBounded(o);
    LookupBounded(ObjectPairs(ArgumentStyle, o), PATH);
    LookupBounded(ObjectPairs(ArgumentStyle, o), CONTENT);
    PathIsNotContent();
  }

  predicate AllToolBytes(s: seq<Byte>) { forall i :: 0 <= i < |s| ==> IsToolByte(s[i]) }

  predicate PairBounded(pair: Pair) {
    |pair.value| < (if pair.key == PATH then 32 else 4097) && AllToolBytes(pair.value)
  }

  lemma PairsAreBounded(o: Object)
    requires ObjectOk(ArgumentStyle, o)
    ensures forall i :: 0 <= i < |ObjectPairs(ArgumentStyle, o)| ==> PairBounded(ObjectPairs(ArgumentStyle, o)[i])
  {
    if o.Full? {
      ChainBounded(o.chain);
    }
  }

  lemma {:induction false} ChainBounded(c: Chain)
    requires ChainOk(ArgumentStyle, c)
    ensures forall i :: 0 <= i < |ChainPairs(ArgumentStyle, c)| ==> PairBounded(ChainPairs(ArgumentStyle, c)[i])
    decreases c
  {
    hide AllBlank, MeaningAll, AllLegal, AcceptsAll;
    FieldBounded(c.f);
    if c.More? {
      ChainBounded(c.rest);
    }
  }

  lemma FieldBounded(f: Field)
    requires FieldOk(ArgumentStyle, f)
    ensures PairBounded(FieldPair(f))
  {
    hide AllBlank, AcceptsAll, AllLegal, MeaningAll;
    var cap := if MeaningAll(f.key) == PATH then 32 else 4097;
    ToolTokens(cap, [], f.value);
    EmptyMeansNothing();
  }

  lemma EmptyMeansNothing()
    ensures AllLegal([]) && MeaningAll([]) == []
  {
  }

  lemma {:induction false} LookupBounded(pairs: seq<Pair>, key: seq<Byte>)
    requires forall i :: 0 <= i < |pairs| ==> PairBounded(pairs[i])
    ensures Lookup(pairs, key).Some? ==> PairBounded(Pair(key, Lookup(pairs, key).value))
  {
    hide PairBounded;
    if pairs != [] && pairs[0].key != key {
      LookupBounded(pairs[1..], key);
    } else if pairs != [] {
      assert pairs[0] == Pair(key, pairs[0].value);
    }
  }

  /** Round trip: text within the limits survives encoding, and comes back from either order of the fields. */
  lemma EncodedArgumentsRead(path: seq<Byte>, content: seq<Byte>, pathFirst: bool)
    requires |path| < 32 && AllToolBytes(path) && |content| < 4097 && AllToolBytes(content)
    ensures var p := Written(PATH, path);
            var c := Written(CONTENT, content);
            var o := Full([], if pathFirst then More(p, [], Last(c)) else More(c, [], Last(p)));
            && ObjectOk(ArgumentStyle, o)
            && (|ShowObject(o)| <= ARG_LIMIT ==> ReadArguments(ShowObject(o)) == Arguments(Some(path), Some(content)))
  {
    hide ReadObject, ShowObject, AcceptsAll, AllLegal, MeaningAll, PiecesOf;
    PathIsNotContent();
    NamesAreToolBytes();
    EncodedAccepted(16, PATH);
    EncodedAccepted(16, CONTENT);
    EncodedAccepted(32, path);
    EncodedAccepted(4097, content);
    var p := Written(PATH, path);
    var c := Written(CONTENT, content);
    var o := Full([], if pathFirst then More(p, [], Last(c)) else More(c, [], Last(p)));
    TwoFields(p, c, pathFirst);
    assert [] + ShowObject(o) + [] == ShowObject(o);
    if |ShowObject(o)| <= ARG_LIMIT {
      PrintedArgumentsRead(ShowObject(o), [], o, []);
    }
  }

  lemma NamesAreToolBytes()
    ensures AllToolBytes(PATH) && AllToolBytes(CONTENT) && |PATH| < 16 && |CONTENT| < 16
  {
  }

  lemma TwoFields(p: Field, c: Field, pathFirst: bool)
    requires FieldOk(ArgumentStyle, p) && FieldOk(ArgumentStyle, c)
    requires FieldPair(p).key == PATH && FieldPair(c).key == CONTENT
    ensures var o := Full([], if pathFirst then More(p, [], Last(c)) else More(c, [], Last(p)));
            && ObjectOk(ArgumentStyle, o) && KeysOk(ObjectPairs(ArgumentStyle, o))
            && Lookup(ObjectPairs(ArgumentStyle, o), PATH) == Some(FieldPair(p).value)
            && Lookup(ObjectPairs(ArgumentStyle, o), CONTENT) == Some(FieldPair(c).value)
  {
    hide FieldPair, FieldOk, ChainOk, ChainPairs;
    PathIsNotContent();
    if pathFirst { TwoChain(p, c); } else { TwoChain(c, p); }
  }

  lemma TwoChain(a: Field, b: Field)
    requires FieldOk(ArgumentStyle, a) && FieldOk(ArgumentStyle, b)
    ensures ChainOk(ArgumentStyle, More(a, [], Last(b))) && AllBlank([])
    ensures ChainPairs(ArgumentStyle, More(a, [], Last(b))) == [FieldPair(a), FieldPair(b)]
    ensures [FieldPair(a), FieldPair(b)][1..] == [FieldPair(b)]
  {
    hide FieldPair, AllLegal, AcceptsAll;
    assert ChainOk(ArgumentStyle, Last(b));
    assert ChainPairs(ArgumentStyle, Last(b)) == [FieldPair(b)];
  }

  lemma {:induction false} EncodedAccepted(cap: nat, text: seq<Byte>)
    requires |text| < cap && AllToolBytes(text)
    ensures AllLegal(PiecesOf(text)) && MeaningAll(PiecesOf(text)) == text
    ensures AcceptsAll(Tool(cap), [], PiecesOf(text))
  {
    PiecesMeanTheText(text);
    EncodedAcceptedFrom(cap, [], text);
  }

  lemma {:induction false} EncodedAcceptedFrom(cap: nat, held: seq<Byte>, text: seq<Byte>)
    requires |held| + |text| < cap && AllToolBytes(text)
    ensures AcceptsAll(Tool(cap), held, PiecesOf(text))
    decreases |text|
  {
    if text != [] {
      var piece := PieceOf(text[0]);
      assert Meaning(piece) == [text[0]];
      assert PiecesOf(text)[1..] == PiecesOf(text[1..]);
      EncodedAcceptedFrom(cap, held + Meaning(piece), text[1..]);
    }
  }
}
