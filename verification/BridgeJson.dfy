/** The HTTP bridge's JSON string decoder and encoder (runtime/fx_wamr_native.c). */
module BridgeJson {
  import opened Bytes
  import opened ByteSinks
  import opened JsonText
  import opened JsonStrings

  /** The bytes the bridge writes for a code point, the first one cut down to a char. */
  function Encoding(codepoint: nat): (s: seq<Byte>)
    ensures 1 <= |s| <= 3
    ensures codepoint < 0x10000 ==> s == Utf8(codepoint)
  {
    if codepoint <= 0x7f then [codepoint]
    else if codepoint <= 0x7ff then [0xc0 + codepoint / 64, 0x80 + codepoint % 64]
    else [0xe0 + codepoint / 4096 % 32, 0x80 + codepoint / 64 % 64, 0x80 + codepoint % 64]
  }

  /** append_utf8 with its capacity tests; surrogates were refused before, and nothing above 0xffff is asked for. */
  method AppendUtf8(out: array<Byte>, len: nat, codepoint: nat) returns (ok: bool, next: nat)
    requires len <= out.Length
    modifies out
    ensures ok <==> len + |Encoding(codepoint)| < out.Length
    ensures ok ==> next == len + |Encoding(codepoint)| && out[..next] == old(out[..len]) + Encoding(codepoint)
  {
    next := len;
    if codepoint <= 0x7f {
      if len + 1 >= out.Length {
        return false, next;
      }
      out[len] := codepoint;
      next := len + 1;
    } else if codepoint <= 0x7ff {
      if len + 2 >= out.Length {
        return false, next;
      }
      out[len] := 0xc0 + codepoint / 64;
      out[len + 1] := 0x80 + codepoint % 64;
      next := len + 2;
    } else {
      if len + 3 >= out.Length {
        return false, next;
      }
      out[len] := 0xe0 + codepoint / 4096 % 32;
      out[len + 1] := 0x80 + codepoint / 64 % 64;
      out[len + 2] := 0x80 + codepoint % 64;
      next := len + 3;
    }
    ok := true;
  }

  /**
   * One turn of the decoding loop. The room left in `out` exceeds the input left, which makes the unguarded
   * escape writes safe and leaves the capacity tests without effect.
   */
  method DecodeOne(s: seq<Byte>, start: nat, out: array<Byte>, len: nat) returns (ok: bool, p: nat, next: nat)
    requires start < |s| && s[start] != QUOTE && len + (|s| - start) < out.Length
    modifies out
    ensures ok ==> start < p <= |s| && len <= next && next + (|s| - p) < out.Length
    ensures DecodeBody(Bridge, s, start, old(out[..len])) == if ok then DecodeBody(Bridge, s, p, out[..next]) else Bad
  {
    ghost var held := out[..len];
    DecodeTurn(Bridge, s, start, held);
    var ch := s[start];
    p, next := start + 1, len;
    if ch < 0x20 {
      return false, p, next;
    }
    if ch != BACKSLASH {
      if len + 1 >= out.Length {
        assert false;
      }
      out[len] := ch;
      assert out[..len + 1] == held + [ch];
      return true, p, len + 1;
    }
    if p >= |s| {
      return false, p, next;
    }
    ch := s[p];
    p := p + 1;
    if ch == 0x75 {
      var hex, codepoint := FourHexDigits(s, p);
      if !hex || 0xd800 <= codepoint <= 0xdfff {
        return false, p, next;
      }
      p := p + 4;
      var fits;
      fits, next := AppendUtf8(out, len, codepoint);
      if !fits {
        assert false;
      }
      return true, p, next;
    }
    match Unescaped(ch) {
      case None => return false, p, next;
      case Some(c) =>
        out[len] := c;
        assert out[..len + 1] == held + [c];
        return true, p, len + 1;
    }
  }

  /**
   * The result is a fresh array holding the decoded text and a terminating NUL, with its length; `room` is whether
   * malloc has one to give.
   */
  method ParseJsonString(s: seq<Byte>, cursor: nat, room: bool)
    returns (ok: bool, after: nat, value: array<Byte>, len: nat)
    requires cursor <= |s|
    ensures fresh(value)
    ensures ok <==> room && DecodeString(Bridge, s, cursor).Good?
    ensures ok ==> len < value.Length && value[len] == 0
                   && DecodeString(Bridge, s, cursor) == Good(value[..len], after)
  {
    after, len := cursor, 0;
    if cursor >= |s| || s[cursor] != QUOTE {
      value := new Byte[0];
      return false, after, value, len;
    }
    var p := cursor + 1;
    if !room {
      value := new Byte[0];
      return false, after, value, len;
    }
    value := new Byte[|s| - p + 1];
    ghost var whole := DecodeString(Bridge, s, cursor);
    assert value[..len] == [];
    while p < |s|
      invariant cursor < p <= |s| && len + (|s| - p) < value.Length
      invariant DecodeBody(Bridge, s, p, value[..len]) == whole
    {
      if s[p] == QUOTE {
        ghost var text := value[..len];
        value[len] := 0;
        assert value[..len] == text;
        return true, p + 1, value, len;
      }
      var one, q, next := DecodeOne(s, p, value, len);
      if !one {
        return false, after, value, len;
      }
      p, len := q, next;
    }
    ok := false;
  }

  /** What the string functions see of a decoded array is the decoded text up to its first NUL. */
  lemma {:induction false} TerminatedText(value: seq<Byte>, len: nat)
    requires len < |value| && value[len] == 0
    ensures UpToNul(value) == UpToNul(value[..len])
  {
    if len > 0 && value[0] != 0 {
      assert value[..len][1..] == value[1..][..len - 1];
      TerminatedText(value[1..], len - 1);
    }
  }

  // ---- the encoder ----

  method Escaped(ch: Byte) returns (escaped: seq<Byte>)
    ensures escaped == Show(PieceOf(ch)) && escaped != []
  {
    match ch {
      case 0x22 => escaped := [BACKSLASH, QUOTE];
      case 0x5c => escaped := [BACKSLASH, BACKSLASH];
      case 0x08 => escaped := [BACKSLASH, 0x62];
      case 0x0c => escaped := [BACKSLASH, 0x66];
      case 0x0a => escaped := [BACKSLASH, 0x6e];
      case 0x0d => escaped := [BACKSLASH, 0x72];
      case 0x09 => escaped := [BACKSLASH, 0x74];
      case _ =>
        if ch < 0x20 {
          var high: int, low: int := ch / 16, ch % 16;
          escaped := [BACKSLASH, 0x75, 0x30, 0x30,
                      if high < 10 then 0x30 + high else 0x61 + high - 10,
                      if low < 10 then 0x30 + low else 0x61 + low - 10];
        } else {
          escaped := [ch];
        }
    }
  }

  function Body(text: seq<Byte>): seq<Byte> { ShowAll(PiecesOf(text)) }

  /** The loop of sink_append_json_string: the escaped bytes, as far as they fit. */
  method SinkAppendBody(sink: ByteSink, text: CString) returns (ok: bool)
    requires sink.Valid()
    modifies sink, sink.bytes
    ensures sink.Valid() && sink.cap == old(sink.cap) && (sink.bytes == old(sink.bytes) || fresh(sink.bytes))
    ensures ok <==> |old(sink.Contents())| + |Body(text)| <= sink.cap
    ensures ok ==> sink.Contents() == old(sink.Contents()) + Body(text)
  {
    hide Body, Show, PieceOf;
    ghost var before := sink.Contents();
    ghost var shown := Body(text[..0]);
    BodyParts(text, 0);
    var cursor := 0;
    while At(text, cursor) != 0
      invariant cursor <= |text|
      invariant sink.Valid() && sink.cap == old(sink.cap) && (sink.bytes == old(sink.bytes) || fresh(sink.bytes))
      invariant shown == Body(text[..cursor]) && sink.Contents() == before + shown
      decreases |text| - cursor
    {
      BodyParts(text, cursor);
      var escaped := Escaped(text[cursor]);
      Assoc(before, shown, escaped);
      var wrote := sink.WriteBody(escaped, true);
      if wrote != |escaped| {
        return false;
      }
      shown := shown + escaped;
      cursor := cursor + 1;
    }
    BodyParts(text, cursor);
    ok := true;
  }

  /** sink_append_json_string: the whole encoding is appended exactly when it fits. */
  method SinkAppendJsonString(sink: ByteSink, text: CString) returns (ok: bool)
    requires sink.Valid()
    modifies sink, sink.bytes
    ensures sink.Valid() && sink.cap == old(sink.cap)
    ensures ok <==> |old(sink.Contents())| + |Encode(text)| <= sink.cap
    ensures ok ==> sink.Contents() == old(sink.Contents()) + Encode(text)
  {
    hide ShowAll, PiecesOf;
    ghost var before := sink.Contents();
    assert Encode(text) == [QUOTE] + Body(text) + [QUOTE];
    var wrote := sink.WriteBody([QUOTE], true);
    if wrote != 1 {
      return false;
    }
    ok := SinkAppendBody(sink, text);
    if !ok {
      return false;
    }
    wrote := sink.WriteBody([QUOTE], true);
    ok := wrote == 1;
    assert before + [QUOTE] + Body(text) + [QUOTE] == before + Encode(text);
  }

  /** The escaped bytes, split at a byte of the text. */
  lemma BodyParts(text: CString, k: nat)
    requires k <= |text|
    ensures k == 0 ==> Body(text[..k]) == []
    ensures k == |text| ==> Body(text[..k]) == Body(text)
    ensures k < |text| ==> var next := Body(text[..k]) + Show(PieceOf(text[k]));
                           next == Body(text[..k + 1]) && |next| <= |Body(text)|
  {
    if k < |text| {
      ShowNext(text, k);
      CutAt(text, k + 1);
      PiecesOfAppend(text[..k + 1], text[k + 1..]);
      ShowAllAppend(PiecesOf(text[..k + 1]), PiecesOf(text[k + 1..]));
    } else {
      assert text[..k] == text;
    }
  }

  lemma CutAt(s: seq<Byte>, k: nat)
    requires k <= |s|
    ensures s == s[..k] + s[k..]
  {
  }
}
