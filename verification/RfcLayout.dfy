/** Whitespace, numbers and literal names of RFC 8259 (sections 2, 3 and 6), as readers and documents have them. */
module RfcLayout {
  import opened Bytes
  import opened JsonText
  import opened JsonDocument
  import opened FlatObjects

  /** The bridge and the tools skip the four whitespace bytes of the RFC, the client these and two more of C's. */
  lemma WhitespaceIs(b: Byte)
    ensures IsBlank(b) <==> b in Ascii(" \t\n\r")
    ensures IsSpace(b) <==> b in Ascii(" \t\n\r") || b == 0x0b || b == 0x0c
  {
    assert Ascii(" \t\n\r") == [SPACE, TAB, NEWLINE, RETURN];
  }

  predicate AllDigits(s: seq<Byte>) { s != [] && forall i :: 0 <= i < |s| ==> '0' as int <= s[i] <= '9' as int }

  /** A sign, digits, a fraction and an exponent, the first and the last two of which may be missing. */
  datatype Number = Number(minus: bool, whole: seq<Byte>, fraction: seq<Byte>, exponent: Exponent)
  datatype Exponent = NoExponent | Exponent(mark: char, sign: string, digits: seq<Byte>)

  predicate NumberOk(n: Number) {
    && AllDigits(n.whole) && (|n.whole| > 1 ==> n.whole[0] != '0' as int)
    && (n.fraction != [] ==> AllDigits(n.fraction))
    && (n.exponent.Exponent? ==> && n.exponent.mark in "eE" && n.exponent.sign in ["", "+", "-"]
                                 && AllDigits(n.exponent.digits))
  }

  function ShowExponent(e: Exponent): seq<Byte>
    requires e.Exponent? ==> e.mark in "eE" && e.sign in ["", "+", "-"]
  {
    if e.NoExponent? then [] else [e.mark as int] + Ascii(e.sign) + e.digits
  }

  function ShowNumber(n: Number): seq<Byte>
    requires NumberOk(n)
  {
    (if n.minus then Ascii("-") else []) + n.whole + (if n.fraction == [] then [] else Ascii(".") + n.fraction)
    + ShowExponent(n.exponent)
  }

  /** Every number of the RFC, and each of its three literal names, is among the scalars of a document. */
  lemma ScalarsAre(n: Number)
    ensures NumberOk(n) ==> IsScalar(ShowNumber(n))
    ensures IsScalar(Ascii("true")) && IsScalar(Ascii("false")) && IsScalar(Ascii("null"))
  {
    if NumberOk(n) {
      ExponentIsPlain(n.exponent);
      assert Ascii("-") == [0x2d] && Ascii(".") == [0x2e];
    }
  }

  lemma ExponentIsPlain(e: Exponent)
    requires e.Exponent? ==> e.mark in "eE" && e.sign in ["", "+", "-"] && AllDigits(e.digits)
    ensures forall i :: 0 <= i < |ShowExponent(e)| ==> IsScalarByte(ShowExponent(e)[i])
  {
    assert Ascii("") == [] && Ascii("+") == [0x2b] && Ascii("-") == [0x2d];
  }

  /** How an array of two prints: brackets, a comma, and space where there is any. */
  lemma ArraysPrint(pad: seq<Byte>, a: seq<Byte>, v: Value, b: seq<Byte>, c: seq<Byte>, w: Value, d: seq<Byte>)
    ensures Print(List(pad, Item(a, v, b, Item(c, w, d, NoItem))))
         == Ascii("[") + pad + (a + Print(v) + b + (Ascii(",") + c + Print(w) + d)) + Ascii("]")
  {
    ItemPrints(c, w, d);
    ItemsPrint(a, v, b, Item(c, w, d, NoItem));
    assert Ascii("[") == [0x5b] && Ascii(",") == [COMMA] && Ascii("]") == [0x5d];
  }

  lemma ItemPrints(c: seq<Byte>, w: Value, d: seq<Byte>)
    ensures PrintItems(Item(c, w, d, NoItem), true) == [COMMA] + c + Print(w) + d
  {
    hide Print;
  }

  lemma ItemsPrint(a: seq<Byte>, v: Value, b: seq<Byte>, rest: Items)
    ensures PrintItems(Item(a, v, b, rest), false) == a + Print(v) + b + PrintItems(rest, true)
  {
    hide Print;
  }

  /** How a member prints, alone in its object: braces, the quoted key, a colon, and space where there is any. */
  lemma ObjectsPrint(pad: seq<Byte>, a: seq<Byte>, key: seq<Piece>, b: seq<Byte>, c: seq<Byte>, v: Value, d: seq<Byte>)
    ensures Print(Record(pad, Member(a, key, b, c, v, d, NoMember)))
         == Ascii("{") + pad + (a + Quoted(key) + b + Ascii(":") + c + Print(v) + d) + Ascii("}")
    ensures Quoted(key) == Ascii("\"") + ShowAll(key) + Ascii("\"")
  {
    assert Ascii("{") == [0x7b] && Ascii("\"") == [QUOTE] && Ascii(":") == [COLON] && Ascii("}") == [0x7d];
    MemberPrints(a, key, b, c, v, d);
  }

  lemma MemberPrints(a: seq<Byte>, key: seq<Piece>, b: seq<Byte>, c: seq<Byte>, v: Value, d: seq<Byte>)
    ensures PrintMembers(Member(a, key, b, c, v, d, NoMember), false)
         == a + Quoted(key) + b + [COLON] + c + Print(v) + d
  {
    hide Quoted;
  }
}
