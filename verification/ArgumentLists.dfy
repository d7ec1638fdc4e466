/** Argument objects of two members as their writers print them, and which are taken (runtime/fx_example_tools.c). */
module ArgumentLists {
  import opened Bytes
  import opened JsonText
  import opened JsonStrings
  import opened FlatObjects
  import opened ExampleTools

  /** A key and a value of characters the tools take, within the sizes of the arrays they are read into. */
  predicate MemberOk(key: seq<Byte>, value: seq<Byte>) {
    && AllToolBytes(key) && |key| < 16
    && AllToolBytes(value) && |value| < if key == PATH then 32 else 4097
  }

  function TwoOf(k1: seq<Byte>, v1: seq<Byte>, k2: seq<Byte>, v2: seq<Byte>): Object {
    Full([], More(Written(k1, v1), [], Last(Written(k2, v2))))
  }

  /** Of objects with two members those are taken that have one path and one content; each goes to its own field. */
  lemma TwoAreTaken(k1: seq<Byte>, v1: seq<Byte>, k2: seq<Byte>, v2: seq<Byte>)
    requires MemberOk(k1, v1) && MemberOk(k2, v2) && |ShowObject(TwoOf(k1, v1, k2, v2))| <= 8192
    ensures ReadArguments(ShowObject(TwoOf(k1, v1, k2, v2)))
         == if k1 == PATH && k2 == CONTENT then Arguments(Some(v1), Some(v2))
            else if k1 == CONTENT && k2 == PATH then Arguments(Some(v2), Some(v1))
            else BadArguments
  {
    hide ReadObject, ShowObject, AcceptsAll, AllLegal, MeaningAll, PiecesOf, ObjectOk, ObjectPairs, MemberOk, SkipBlank,
         IsBlank, Lookup, KeysOk;
    var o := TwoOf(k1, v1, k2, v2);
    var s := ShowObject(o);
    TwoAreLegal(k1, v1, k2, v2);
    HeldWhole(s);
    ReadsObject(ArgumentStyle, s, 0, o);
    ObjectStarts(s, 0, o);
    ColonIsSolid();
    SkipsNothing(s, 0);
    SkipsNothing(s, |s|);
    KeysOfTwo(k1, v1, k2, v2);
  }

  lemma HeldWhole(s: seq<Byte>)
    ensures Holds(s, 0, s)
  {
  }

  lemma TwoAreLegal(k1: seq<Byte>, v1: seq<Byte>, k2: seq<Byte>, v2: seq<Byte>)
    requires MemberOk(k1, v1) && MemberOk(k2, v2)
    ensures var o := TwoOf(k1, v1, k2, v2);
            ObjectOk(ArgumentStyle, o) && ObjectPairs(ArgumentStyle, o) == [Pair(k1, v1), Pair(k2, v2)]
  {
    hide MemberOk, FieldOk, FieldPair, Written, AllLegal;
    MemberIsLegal(k1, v1);
    MemberIsLegal(k2, v2);
    var last := Last(Written(k2, v2));
    assert ChainOk(ArgumentStyle, last);
    assert ChainPairs(ArgumentStyle, last) == [Pair(k2, v2)];
  }

  lemma MemberIsLegal(key: seq<Byte>, value: seq<Byte>)
    requires MemberOk(key, value)
    ensures AllLegal(Written(key, value).key) && AllLegal(Written(key, value).value)
    ensures FieldOk(ArgumentStyle, Written(key, value)) && FieldPair(Written(key, value)) == Pair(key, value)
  {
    hide AcceptsAll, AllLegal, PiecesOf, MeaningAll;
    EncodedAccepted(16, key);
    EncodedAccepted(if key == PATH then 32 else 4097, value);
  }

  lemma KeysOfTwo(k1: seq<Byte>, v1: seq<Byte>, k2: seq<Byte>, v2: seq<Byte>)
    ensures var pairs := [Pair(k1, v1), Pair(k2, v2)];
            && (KeysOk(pairs) <==> (k1 == PATH && k2 == CONTENT) || (k1 == CONTENT && k2 == PATH))
            && (k1 != k2 ==> Lookup(pairs, k1) == Some(v1) && Lookup(pairs, k2) == Some(v2))
    ensures PATH != CONTENT
  {
    PathIsNotContent();
    var pairs := [Pair(k1, v1), Pair(k2, v2)];
    assert pairs[1..] == [Pair(k2, v2)];
    if KeysOk(pairs) {
      assert pairs[0].key != pairs[1].key;
    }
  }
}
