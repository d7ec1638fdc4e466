/** Reading values out of ACP lines, and collecting the answer of one request (runtime/fx_eink.c). */
module AcpReader {
  import opened Bytes
  import opened TextBuffers
  import opened EinkJson
  import opened JsonScanner

  const MAX_PROTOCOL_LINE_BYTES: nat := 131072
  const LONG_MAX: int := 0x7fff_ffff  // the target's long has 32 bits

  // ---- string values ----

  datatype StringResult = NoText | BrokenText | GoodText(text: seq<Byte>)

  function StringValue(json: CString, key: CString): StringResult {
    match Scan(json, 0, key)
    case None => NoText
    case Some(v) =>
      if At(json, v) != QUOTE then NoText
      else
        match Decode(json, v, [])
        case Bad => BrokenText
        case Good(text, _) => GoodText(text)
  }

  method JsonStringValue(json: CString, key: CString, value: TextBuffer) returns (result: int)
    requires value.Valid() && value.Contents() == [] && value.data.Length == 0
    modifies value, value.data
    ensures value.Valid() && (value.data == old(value.data) || fresh(value.data))
    ensures match StringValue(json, key)
            case NoText => result == 0
            case BrokenText => result == -1
            case GoodText(text) =>
              result == 1 && value.Contents() == text && (value.data.Length == 0 <==> text == [])
  {
    var cursor := FindJsonKey(json, key);
    if cursor == None || At(json, cursor.value) != QUOTE {
      return 0;
    }
    var ok, after := DecodeJsonString(json, cursor.value, value);
    result := if ok then 1 else -1;
  }

  // ---- integer values ----

  datatype IntegerResult = NoInteger | BrokenInteger | GoodInteger(value: int)

  predicate IsDigit(b: Byte) { 0x30 <= b <= 0x39 }

  /** The decimal digits from a position on, appended to the number read so far. */
  function ReadDigits(s: CString, p: nat, n: nat): nat
    requires p <= |s|
    decreases |s| - p
  {
    if p < |s| && IsDigit(s[p]) then ReadDigits(s, p + 1, 10 * n + (s[p] - 0x30)) else n
  }

  /** strtol in base 10, with its range error and its nothing-converted case. */
  function ToLong(s: CString, p: nat): IntegerResult
    requires p <= |s|
  {
    var q := SkipSpace(s, p);
    var signed := At(s, q) == 0x2b || At(s, q) == 0x2d;
    var d := if signed then q + 1 else q;
    if !IsDigit(At(s, d)) then BrokenInteger
    else
      var n: int := if At(s, q) == 0x2d then 0 - ReadDigits(s, d, 0) else ReadDigits(s, d, 0);
      if -LONG_MAX - 1 <= n <= LONG_MAX then GoodInteger(n) else BrokenInteger
  }

  function IntegerValue(json: CString, key: CString): IntegerResult {
    match Scan(json, 0, key)
    case None => NoInteger
    case Some(v) => ToLong(json, v)
  }

  method JsonIntegerValue(json: CString, key: CString) returns (result: IntegerResult)
    ensures result == IntegerValue(json, key)
  {
    var cursor := FindJsonKey(json, key);
    result := if cursor == None then NoInteger else ToLong(json, cursor.value);
  }

  // ---- collecting one answer ----

  const SESSION_UPDATE: CString := Ascii("sessionUpdate")
  const AGENT_MESSAGE_CHUNK: CString := Ascii("agent_message_chunk")
  const TEXT: CString := Ascii("text")
  const ID: CString := Ascii("id")
  const ERROR: CString := Ascii("error")

  predicate IsChunk(line: CString) {
    var update := StringValue(line, SESSION_UPDATE);
    update.GoodText? && KeyMatches(update.text, AGENT_MESSAGE_CHUNK)
  }

  /** What one line adds to the answer. */
  function ChunkText(raw: seq<Byte>): seq<Byte> {
    var line := UpToNul(raw);
    var text := StringValue(line, TEXT);
    if IsChunk(line) && text.GoodText? then text.text else []
  }

  function ChunkTexts(lines: seq<seq<Byte>>): seq<Byte> {
    if lines == [] then [] else ChunkTexts(lines[..|lines| - 1]) + ChunkText(lines[|lines| - 1])
  }

  /** A line that ends the wait: it carries the awaited id and no error. */
  predicate Answers(raw: seq<Byte>, id: int) {
    var line := UpToNul(raw);
    IntegerValue(line, ID) == GoodInteger(id) && Scan(line, 0, ERROR) == None
  }

  /** A line that breaks the exchange, whatever has been collected. */
  predicate Breaks(raw: seq<Byte>, id: int, collecting: bool) {
    var line := UpToNul(raw);
    || |raw| > MAX_PROTOCOL_LINE_BYTES
    || StringValue(line, SESSION_UPDATE).BrokenText?
    || (collecting && IsChunk(line) && StringValue(line, TEXT).BrokenText?)
    || IntegerValue(line, ID).BrokenInteger?
    || (IntegerValue(line, ID) == GoodInteger(id) && Scan(line, 0, ERROR).Some?)
  }

  /** The text of a line can break the exchange only where it is collected: in a chunk, and by who has a response. */
  lemma TextIsReadOfChunksOnly(a: seq<Byte>, b: seq<Byte>, id: int, collecting: bool)
    requires |a| <= MAX_PROTOCOL_LINE_BYTES && |b| <= MAX_PROTOCOL_LINE_BYTES
    requires var s, t := UpToNul(a), UpToNul(b);
             && StringValue(s, SESSION_UPDATE) == StringValue(t, SESSION_UPDATE)
             && IntegerValue(s, ID) == IntegerValue(t, ID)
             && Scan(s, 0, ERROR).Some? == Scan(t, 0, ERROR).Some?
             && (collecting ==> !IsChunk(s))
    ensures Breaks(a, id, collecting) == Breaks(b, id, collecting)
  {
    hide Scan, StringValue, IntegerValue, UpToNul;
  }

  /** Collecting the text of one line. */
  method TakeChunk(line: CString, response: TextBuffer) returns (ok: bool)
    requires response.Valid()
    modifies response, response.data
    ensures response.Valid() && (response.data == old(response.data) || fresh(response.data))
    ensures var text := StringValue(line, TEXT);
            var more := if text.GoodText? then text.text else [];
            && ok == (!text.BrokenText? && Fits(old(response.Contents()), more))
            && response.Contents() == old(response.Contents()) + (if ok then more else [])
  {
    var text := new TextBuffer();
    var has := JsonStringValue(line, TEXT, text);
    if has < 0 {
      return false;
    }
    ok := true;
    if has > 0 {
      ok := response.Append(text.data[..text.length], true);
    }
  }

  datatype Progress = Broken | Answered | Onward

  /** One line of the exchange. */
  method ReadLine(raw: seq<Byte>, id: int, response: TextBuffer?) returns (progress: Progress)
    requires response != null ==> response.Valid()
    modifies response, if response == null then {} else {response.data}
    ensures response != null ==> response.Valid() && (response.data == old(response.data) || fresh(response.data))
    ensures progress == Broken
       <==> || Breaks(raw, id, response != null)
            || (response != null && !Fits(old(response.Contents()), ChunkText(raw)))
    ensures progress == Answered ==> Answers(raw, id)
    ensures progress == Onward ==> !Answers(raw, id)
    ensures progress != Broken && response != null ==>
              response.Contents() == old(response.Contents()) + ChunkText(raw)
  {
    hide Scan, StringValue, IntegerValue, UpToNul;
    var line := UpToNul(raw);
    if |raw| > MAX_PROTOCOL_LINE_BYTES {
      return Broken;
    }
    var chunk, broken := IsChunkLine(line);
    if broken {
      return Broken;
    }
    if chunk && response != null {
      var took := TakeChunk(line, response);
      if !took {
        return Broken;
      }
    }
    var number := JsonIntegerValue(line, ID);
    if number.BrokenInteger? {
      return Broken;
    }
    progress := Onward;
    if number == GoodInteger(id) {
      var error := FindJsonKey(line, ERROR);
      progress := if error == None then Answered else Broken;
    }
  }

  method IsChunkLine(line: CString) returns (chunk: bool, broken: bool)
    ensures broken == StringValue(line, SESSION_UPDATE).BrokenText?
    ensures chunk == IsChunk(line)
  {
    var update := new TextBuffer();
    var has := JsonStringValue(line, SESSION_UPDATE, update);
    broken := has < 0;
    chunk := has > 0 && update.data.Length > 0 && UpToNul(update.data[..update.length]) == AGENT_MESSAGE_CHUNK;
  }

  /**
   * read_until_id over the lines a stream delivers. On success `used` lines were read, the last of them is the
   * first one that answers, and the response grew by exactly the chunk texts of those lines, in order.
   * Otherwise some line broke the exchange, the response would have outgrown its limit, or the lines ran out.
   */
  method ReadUntilId(lines: seq<seq<Byte>>, id: int, response: TextBuffer?) returns (ok: bool, used: nat)
    requires response != null ==> response.Valid()
    modifies response, if response == null then {} else {response.data}
    ensures used <= |lines|
    ensures response != null ==> response.Valid() && |response.Contents()| <= MAX_RESPONSE_BYTES
    ensures forall i :: 0 <= i < used - 1 ==> !Answers(lines[i], id) && !Breaks(lines[i], id, response != null)
    ensures ok ==> && used > 0 && Answers(lines[used - 1], id) && !Breaks(lines[used - 1], id, response != null)
                   && (response != null ==>
                         response.Contents() == old(response.Contents()) + ChunkTexts(lines[..used]))
    ensures !ok ==> || (used == |lines| && forall i :: 0 <= i < used ==> !Answers(lines[i], id))
                    || (used > 0 && Breaks(lines[used - 1], id, response != null))
                    || (used > 0 && response != null && !Fits(old(response.Contents()), ChunkTexts(lines[..used])))
  {
    hide Breaks, Answers, ChunkText;
    used := 0;
    while used < |lines|
      invariant used <= |lines|
      invariant response != null ==> response.Valid() && (response.data == old(response.data) || fresh(response.data))
      invariant response != null ==> response.Contents() == old(response.Contents()) + ChunkTexts(lines[..used])
      invariant forall i :: 0 <= i < used ==> !Answers(lines[i], id) && !Breaks(lines[i], id, response != null)
    {
      var progress := ReadLine(lines[used], id, response);
      assert lines[..used + 1][..used] == lines[..used];
      used := used + 1;
      if progress != Onward {
        return progress == Answered, used;
      }
    }
    ok := false;
  }
}
