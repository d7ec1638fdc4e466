/** The ACP client's string decoder, encoder and tree-less key scanner (runtime/fx_eink.c). */
module EinkJson {
  import opened Bytes
  import opened JsonText
  import opened JsonStrings
  import opened TextBuffers

  const CLIENT: Reader := Client(MAX_RESPONSE_BYTES)

  /** The decoder's answer when the buffer already holds `held`. */
  function Decode(s: CString, p: nat, held: seq<Byte>): (d: Decoded)
    requires p <= |s|
    ensures d.Good? ==> p < d.end <= |s|
  {
    if p == |s| || s[p] != QUOTE then Bad
    else
      DecodeStays(CLIENT, s, p + 1, held);
      DecodeBody(CLIENT, s, p + 1, held)
  }

  /** One turn of the decoding loop. */
  method DecodeOne(s: CString, cursor: nat, decoded: TextBuffer) returns (ok: bool, p: nat)
    requires cursor < |s| && s[cursor] != QUOTE && decoded.Valid()
    modifies decoded, decoded.data
    ensures decoded.Valid() && (decoded.data == old(decoded.data) || fresh(decoded.data))
    ensures ok ==> decoded.data.Length > 0 && decoded.Contents() != []
    ensures cursor < p && (ok ==> p <= |s|)
    ensures DecodeBody(CLIENT, s, cursor, old(decoded.Contents()))
         == if ok then DecodeBody(CLIENT, s, p, decoded.Contents()) else Bad
  {
    hide DecodeBody;
    DecodeTurn(CLIENT, s, cursor, decoded.Contents());
    var byte := At(s, cursor);
    p := cursor + 1;
    if byte < 0x20 {
      return false, p;
    }
    if byte != BACKSLASH {
      ok := decoded.Append([byte], true);
      return ok, p;
    }
    var escape := At(s, p);
    if escape == 0x75 {
      var hex, codepoint := FourHexDigits(s, p + 1);
      if !hex {
        return false, p;
      }
      ok := decoded.AppendUtf8(codepoint);
      return ok, p + 5;
    }
    match Unescaped(escape) {
      case None =>
        return false, p;
      case Some(c) =>
        ok := decoded.Append([c], true);
        return ok, p + 1;
    }
  }

  method DecodeJsonString(s: CString, cursor: nat, decoded: TextBuffer) returns (ok: bool, after: nat)
    requires cursor <= |s| && decoded.Valid()
    modifies decoded, decoded.data
    ensures decoded.Valid() && (decoded.data == old(decoded.data) || fresh(decoded.data))
    ensures var r := Decode(s, cursor, old(decoded.Contents()));
            && ok == r.Good?
            && after == (if ok then r.end else cursor)
            && (ok ==> decoded.Contents() == r.text)
    // a buffer that starts out null is still null exactly when nothing was decoded
    ensures ok && old(decoded.data.Length) == 0 ==> (decoded.data.Length == 0 <==> decoded.Contents() == [])
  {
    ghost var whole := Decode(s, cursor, decoded.Contents());
    if At(s, cursor) != QUOTE {
      return false, cursor;
    }
    var p := cursor + 1;
    while At(s, p) != 0 && At(s, p) != QUOTE
      invariant cursor < p <= |s|
      invariant decoded.Valid() && (decoded.data == old(decoded.data) || fresh(decoded.data))
      invariant DecodeBody(CLIENT, s, p, decoded.Contents()) == whole
      invariant old(decoded.data.Length) == 0 ==> (decoded.data.Length == 0 <==> decoded.Contents() == [])
      decreases |s| - p
    {
      var one, next := DecodeOne(s, p, decoded);
      if !one {
        return false, cursor;
      }
      p := next;
    }
    if At(s, p) != QUOTE {
      return false, cursor;
    }
    return true, p + 1;
  }

  /** The escape the client writes for a byte, as its switch chooses it. */
  method EscapeByte(byte: Byte) returns (shown: seq<Byte>)
    ensures shown == Show(PieceOf(byte))
  {
    match byte {
      case 0x22 => shown := [BACKSLASH, QUOTE];
      case 0x5c => shown := [BACKSLASH, BACKSLASH];
      case 0x08 => shown := [BACKSLASH, 0x62];
      case 0x0c => shown := [BACKSLASH, 0x66];
      case 0x0a => shown := [BACKSLASH, 0x6e];
      case 0x0d => shown := [BACKSLASH, 0x72];
      case 0x09 => shown := [BACKSLASH, 0x74];
      case _ =>
        if byte < 0x20 {
          shown := [BACKSLASH, 0x75, 0x30, 0x30, HexDigit(byte / 16), HexDigit(byte % 16)];
        } else {
          shown := [byte];
        }
    }
  }

  /** write_json_string: the bytes sent to the output stream. */
  method WriteJsonString(text: CString) returns (output: seq<Byte>)
    ensures output == Encode(text)
  {
    output := [QUOTE];
    var cursor := 0;
    while At(text, cursor) != 0
      invariant cursor <= |text|
      invariant output == [QUOTE] + ShowAll(PiecesOf(text[..cursor]))
      decreases |text| - cursor
    {
      var shown := EscapeByte(text[cursor]);
      ShowNext(text, cursor);
      output := output + shown;
      cursor := cursor + 1;
    }
    assert text[..cursor] == text;
    output := output + [QUOTE];
  }
}
