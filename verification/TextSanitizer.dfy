/** Stripping terminal escapes and non-ASCII text before layout (runtime/einkctl.c, lines 298-365). */
module TextSanitizer {
  import opened Bytes

  const BELL: Byte := 0x07
  const ESC: Byte := 0x1b
  const BRACKET: Byte := 0x5b
  const BRACKET_END: Byte := 0x5d

  predicate IsContinuation(b: Byte) { 0x80 <= b < 0xc0 }

  predicate IsPrintable(b: Byte) { b == NEWLINE || 0x20 <= b <= 0x7e }

  predicate Clean(s: seq<Byte>) {
    forall i :: 0 <= i < |s| ==> IsPrintable(s[i])
  }

  // ---- the meaning: a transducer that takes one byte at a time and never looks ahead ----

  /** What came just before: text, a return, a byte of 0x80 or more, or part of an escape sequence. */
  datatype Mode = Text | AfterReturn | AfterHigh | Start | Csi | Osc | OscEsc

  predicate IsText(m: Mode) { m == Text || m == AfterReturn || m == AfterHigh }

  function Spaces(n: nat): (s: seq<Byte>)
    ensures |s| == n && forall i :: 0 <= i < n ==> s[i] == SPACE
  {
    if n == 0 then [] else [SPACE] + Spaces(n - 1)
  }

  function TextMode(m: Mode, b: Byte): Mode {
    if b == ESC then Start
    else if b == RETURN then AfterReturn
    else if b >= 0x80 then AfterHigh
    else Text
  }

  function NextMode(m: Mode, b: Byte): Mode {
    match m
    case Start => if b == BRACKET then Csi else if b == BRACKET_END then Osc else Text
    case Csi => if 0x40 <= b <= 0x7e then Text else Csi
    case Osc => if b == BELL then Text else if b == ESC then OscEsc else Osc
    case OscEsc => if b == BELL || b == BACKSLASH then Text else if b == ESC then OscEsc else Osc
    case _ => TextMode(m, b)
  }

  /** A newline right behind a return, or a continuation byte behind a high byte, belongs to the one before. */
  predicate Absorbed(m: Mode, b: Byte) {
    (m == AfterReturn && b == NEWLINE) || (m == AfterHigh && IsContinuation(b))
  }

  /** What a byte adds to the output when `column` characters are out already. */
  function Emitted(m: Mode, b: Byte, column: nat): seq<Byte> {
    if !IsText(m) || Absorbed(m, b) then []
    else if b == RETURN then [NEWLINE]
    else if b == TAB then Spaces(4 - column % 4)
    else if IsPrintable(b) then [b]
    else if b >= 0x80 then [QUESTION]
    else []
  }

  function Feed(m: Mode, out: seq<Byte>, s: seq<Byte>): (Mode, seq<Byte>)
    decreases |s|
  {
    if s == [] then (m, out) else Feed(NextMode(m, s[0]), out + Emitted(m, s[0], |out|), s[1..])
  }

  function Sanitized(s: seq<Byte>): seq<Byte> { Feed(Text, [], s).1 }

  lemma {:induction false} FeedAppend(m: Mode, out: seq<Byte>, a: seq<Byte>, b: seq<Byte>)
    ensures Feed(m, out, a + b) == (var (m', out') := Feed(m, out, a); Feed(m', out', b))
    decreases |a|
  {
    if a == [] {
      assert a + b == b;
    } else {
      assert (a + b)[0] == a[0] && (a + b)[1..] == a[1..] + b;
      FeedAppend(NextMode(m, a[0]), out + Emitted(m, a[0], |out|), a[1..], b);
    }
  }

  // ---- the loop, which looks ahead instead of remembering ----

  datatype Escape = ESCAPE_NONE | ESCAPE_START | ESCAPE_CSI | ESCAPE_OSC

  function ModeOf(e: Escape): Mode {
    match e
    case ESCAPE_NONE => Text
    case ESCAPE_START => Start
    case ESCAPE_CSI => Csi
    case ESCAPE_OSC => Osc
  }

  /** Remembering the byte before only matters when the next one is absorbed, or ends an OSC sequence. */
  lemma MemoryFades(m: Mode, out: seq<Byte>, s: seq<Byte>)
    requires s == [] || !Absorbed(m, s[0])
    requires IsText(m) || (m == OscEsc && (s == [] || s[0] != BACKSLASH))
    ensures Feed(m, out, s).1 == Feed(if IsText(m) then Text else Osc, out, s).1
  {
  }

  /** The continuation bytes behind a high byte add nothing. */
  lemma {:induction false} ContinuationsFade(out: seq<Byte>, s: seq<Byte>, n: nat)
    requires n <= |s| && forall i :: 0 <= i < n ==> IsContinuation(s[i])
    requires n < |s| ==> !IsContinuation(s[n])
    ensures Feed(AfterHigh, out, s).1 == Feed(Text, out, s[n..]).1
    decreases n
  {
    if n == 0 {
      MemoryFades(AfterHigh, out, s);
    } else {
      assert out + [] == out;
      assert s[1..][n - 1..] == s[n..];
      ContinuationsFade(out, s[1..], n - 1);
    }
  }

  lemma FeedUnfolds(m: Mode, out: seq<Byte>, s: seq<Byte>)
    requires s != []
    ensures Feed(m, out, s) == Feed(NextMode(m, s[0]), out + Emitted(m, s[0], |out|), s[1..])
    ensures out + [] == out
  {
  }

  method SanitizeText(input: seq<Byte>, output: array<Byte>) returns (destination: nat)
    requires output.Length >= 4 * |input| + 1
    modifies output
    ensures destination <= 4 * |input| && output[destination] == 0
    ensures output[..destination] == Sanitized(input)
  {
    hide Feed, Emitted, NextMode;
    var source := 0;
    destination := 0;
    var escape := ESCAPE_NONE;
    assert output[..destination] == [] && input[0..] == input;
    while source < |input|
      invariant 0 <= source <= |input| && destination <= 4 * source
      invariant Feed(ModeOf(escape), output[..destination], input[source..]).1 == Sanitized(input)
      decreases |input| - source
    {
      destination, source, escape := SanitizeByte(input, output, destination, source, escape);
    }
    FedAll(ModeOf(escape), output[..destination]);
    assert input[source..] == [];
    output[destination] := 0;
  }

  lemma FedAll(m: Mode, out: seq<Byte>)
    ensures Feed(m, out, []).1 == out
  {
  }

  /** One turn of the loop. */
  method SanitizeByte(input: seq<Byte>, output: array<Byte>, destination: nat, source: nat, escape: Escape)
    returns (destination': nat, source': nat, escape': Escape)
    requires source < |input| && destination <= 4 * source && output.Length >= 4 * |input| + 1
    modifies output
    ensures source < source' <= |input| && destination' <= 4 * source'
    ensures Feed(ModeOf(escape'), output[..destination'], input[source'..]).1
         == old(Feed(ModeOf(escape), output[..destination], input[source..]).1)
  {
    hide Feed, Emitted, NextMode;
    destination' := destination;
    if escape != ESCAPE_NONE {
      source', escape' := EscapedByte(input, source, escape, output[..destination]);
    } else if input[source] == ESC {
      source', escape' := source + 1, ESCAPE_START;
      EscapeStarts(output[..destination], input[source..]);
      assert input[source..][1..] == input[source + 1..];
    } else {
      escape' := ESCAPE_NONE;
      destination', source' := TextByte(input, output, destination, source);
    }
  }

  lemma EscapeStarts(out: seq<Byte>, s: seq<Byte>)
    requires s != [] && s[0] == ESC
    ensures Feed(Text, out, s) == Feed(Start, out, s[1..])
  {
    assert out + [] == out;
  }

  /** A byte inside an escape sequence. */
  method EscapedByte(input: seq<Byte>, source: nat, escape: Escape, ghost out: seq<Byte>)
    returns (source': nat, escape': Escape)
    requires source < |input| && escape != ESCAPE_NONE
    ensures source < source' <= |input|
    ensures Feed(ModeOf(escape'), out, input[source'..]).1 == Feed(ModeOf(escape), out, input[source..]).1
  {
    hide Feed;
    var byte := input[source];
    ghost var rest := input[source + 1..];
    assert input[source..][1..] == rest && (rest != [] ==> rest[0] == input[source + 1]);
    FeedUnfolds(ModeOf(escape), out, input[source..]);
    source', escape' := source + 1, escape;
    if escape == ESCAPE_START {
      escape' := if byte == BRACKET then ESCAPE_CSI else if byte == BRACKET_END then ESCAPE_OSC else ESCAPE_NONE;
    } else if escape == ESCAPE_CSI {
      escape' := if 0x40 <= byte <= 0x7e then ESCAPE_NONE else ESCAPE_CSI;
    } else if byte == BELL {
      escape' := ESCAPE_NONE;
    } else if byte == ESC && source' < |input| && input[source'] == BACKSLASH {
      FeedUnfolds(OscEsc, out, rest);
      assert rest[1..] == input[source' + 1..];
      source' := source' + 1;
      escape' := ESCAPE_NONE;
    } else if byte == ESC {
      MemoryFades(OscEsc, out, rest);
    }
  }

  /** A byte outside escape sequences that does not start one. */
  method TextByte(input: seq<Byte>, output: array<Byte>, destination: nat, source: nat)
    returns (destination': nat, source': nat)
    requires source < |input| && destination <= 4 * source && output.Length >= 4 * |input| + 1 && input[source] != ESC
    modifies output
    ensures source < source' <= |input| && destination' <= 4 * source'
    ensures Feed(Text, output[..destination'], input[source'..]).1
         == old(Feed(Text, output[..destination], input[source..]).1)
  {
    hide Feed;
    var byte := input[source];
    ghost var was, rest := output[..destination], input[source + 1..];
    assert input[source..][1..] == rest && (rest != [] ==> rest[0] == input[source + 1]);
    FeedUnfolds(Text, was, input[source..]);
    destination', source' := destination, source + 1;
    if byte == RETURN {
      if source' < |input| && input[source'] == NEWLINE {
        NewlineAbsorbed(was, rest);
        return;
      }
      MemoryFades(AfterReturn, was + [NEWLINE], rest);
      destination' := PutByte(output, destination, NEWLINE);
    } else if byte == TAB {
      destination' := PutSpaces(output, destination, 4 - destination % 4);
    } else if byte == NEWLINE || 0x20 <= byte <= 0x7e {
      destination' := PutByte(output, destination, byte);
    } else if byte >= 0x80 {
      source' := SkipContinuations(input, source');
      ContinuationsFade(was + [QUESTION], rest, source' - source - 1);
      assert rest[source' - source - 1..] == input[source'..];
      destination' := PutByte(output, destination, QUESTION);
    }
  }

  lemma NewlineAbsorbed(out: seq<Byte>, s: seq<Byte>)
    requires s != [] && s[0] == NEWLINE
    ensures Feed(AfterReturn, out + [NEWLINE], s) == Feed(Text, out, s)
  {
    assert out + [NEWLINE] + [] == out + [NEWLINE];
  }

  method PutByte(output: array<Byte>, destination: nat, byte: Byte) returns (destination': nat)
    requires destination < output.Length
    modifies output
    ensures destination' == destination + 1 && output[..destination'] == old(output[..destination]) + [byte]
  {
    output[destination] := byte;
    destination' := destination + 1;
  }

  method PutSpaces(output: array<Byte>, destination: nat, count: nat) returns (destination': nat)
    requires destination + count <= output.Length
    modifies output
    ensures destination' == destination + count && output[..destination'] == old(output[..destination]) + Spaces(count)
  {
    var spaces := count;
    destination' := destination;
    while spaces > 0
      invariant 0 <= spaces <= count && destination' == destination + count - spaces
      invariant output[..destination] == old(output[..destination])
      invariant forall i :: destination <= i < destination' ==> output[i] == SPACE
    {
      output[destination'] := SPACE;
      destination' := destination' + 1;
      spaces := spaces - 1;
    }
  }

  method SkipContinuations(input: seq<Byte>, source: nat) returns (source': nat)
    requires source <= |input|
    ensures source <= source' <= |input| && (source' < |input| ==> !IsContinuation(input[source']))
    ensures forall i :: source <= i < source' ==> IsContinuation(input[i])
  {
    source' := source;
    while source' < |input| && IsContinuation(input[source'])
      invariant source <= source' <= |input|
      invariant forall i :: source <= i < source' ==> IsContinuation(input[i])
    {
      source' := source' + 1;
    }
  }

  // ---- what comes out ----

  lemma {:induction false} FeedIsClean(m: Mode, out: seq<Byte>, s: seq<Byte>)
    requires Clean(out)
    ensures Clean(Feed(m, out, s).1)
    decreases |s|
  {
    if s != [] {
      FeedIsClean(NextMode(m, s[0]), out + Emitted(m, s[0], |out|), s[1..]);
    }
  }

  /** Clean text goes through unchanged. */
  lemma {:induction false} CleanIsKept(m: Mode, out: seq<Byte>, s: seq<Byte>)
    requires Clean(s) && IsText(m) && (s == [] || !Absorbed(m, s[0]))
    ensures Feed(m, out, s).1 == out + s
    decreases |s|
  {
    if s != [] {
      assert IsPrintable(s[0]);
      CleanIsKept(NextMode(m, s[0]), out + [s[0]], s[1..]);
      assert out + [s[0]] + s[1..] == out + s;
    }
  }

  /** Only newlines and printable ASCII come out, and a second pass changes nothing. */
  lemma SanitizedIsClean(s: seq<Byte>)
    ensures Clean(Sanitized(s))
    ensures Sanitized(Sanitized(s)) == Sanitized(s)
    ensures Sanitized(s) == s <==> Clean(s)
  {
    FeedIsClean(Text, [], s);
    CleanIsKept(Text, [], Sanitized(s));
    if Clean(s) {
      CleanIsKept(Text, [], s);
    }
  }

  // ---- one character for one code point ----

  /** A well-formed sequence for one code point (RFC 3629 section 4). */
  predicate Utf8Char(c: seq<Byte>) {
    || (|c| == 1 && c[0] < 0x80)
    || (|c| == 2 && 0xc2 <= c[0] <= 0xdf && IsContinuation(c[1]))
    || (|c| == 3 && IsContinuation(c[1]) && IsContinuation(c[2])
        && 0xe0 <= c[0] <= 0xef && (c[0] == 0xe0 ==> c[1] >= 0xa0) && (c[0] == 0xed ==> c[1] < 0xa0))
    || (|c| == 4 && IsContinuation(c[1]) && IsContinuation(c[2]) && IsContinuation(c[3])
        && 0xf0 <= c[0] <= 0xf4 && (c[0] == 0xf0 ==> c[1] >= 0x90) && (c[0] == 0xf4 ==> c[1] < 0x90))
  }

  /** Not one of the ASCII controls, newline excepted. */
  predicate Shown(c: seq<Byte>) {
    Utf8Char(c) && (c[0] < 0x80 ==> IsPrintable(c[0]))
  }

  function Simplified(chars: seq<seq<Byte>>): (s: seq<Byte>)
    requires forall i :: 0 <= i < |chars| ==> Shown(chars[i])
    ensures |s| == |chars|
    ensures forall i :: 0 <= i < |chars| ==> s[i] == if |chars[i]| == 1 then chars[i][0] else QUESTION
  {
    if chars == [] then []
    else [if |chars[0]| == 1 then chars[0][0] else QUESTION] + Simplified(chars[1..])
  }

  lemma CharFeeds(m: Mode, out: seq<Byte>, c: seq<Byte>)
    requires Shown(c) && (m == Text || m == AfterHigh)
    ensures Feed(m, out, c) == if |c| == 1 then (Text, out + [c[0]]) else (AfterHigh, out + [QUESTION])
  {
    hide Feed;
    FeedUnfolds(m, out, c);
    var out' := out + Emitted(m, c[0], |out|);
    FedAllMode(NextMode(m, c[0]), out');
    if |c| > 1 {
      ContinuationsFed(out', c[1..]);
    } else {
      assert c[1..] == [];
    }
  }

  lemma FedAllMode(m: Mode, out: seq<Byte>)
    ensures Feed(m, out, []) == (m, out)
  {
  }

  lemma {:induction false} ContinuationsFed(out: seq<Byte>, s: seq<Byte>)
    requires forall i :: 0 <= i < |s| ==> IsContinuation(s[i])
    ensures Feed(AfterHigh, out, s) == (AfterHigh, out)
    decreases |s|
  {
    if s != [] {
      assert out + [] == out;
      ContinuationsFed(out, s[1..]);
    }
  }

  lemma {:induction false} CharsFeed(m: Mode, out: seq<Byte>, chars: seq<seq<Byte>>)
    requires m == Text || m == AfterHigh
    requires forall i :: 0 <= i < |chars| ==> Shown(chars[i])
    ensures Feed(m, out, Join(chars)).1 == out + Simplified(chars)
    decreases |chars|
  {
    hide Shown, Feed, Join, Simplified;
    CharsUnfold(chars);
    if chars == [] {
      FedAllMode(m, out);
      assert out + [] == out;
    } else {
      FeedAppend(m, out, chars[0], Join(chars[1..]));
      CharFeeds(m, out, chars[0]);
      var first: Byte := if |chars[0]| == 1 then chars[0][0] else QUESTION;
      CharsFeed(if |chars[0]| == 1 then Text else AfterHigh, out + [first], chars[1..]);
      Assoc(out, [first], Simplified(chars[1..]));
    }
  }

  lemma CharsUnfold(chars: seq<seq<Byte>>)
    requires forall i :: 0 <= i < |chars| ==> Shown(chars[i])
    ensures chars == [] ==> Join(chars) == [] && Simplified(chars) == []
    ensures chars != [] ==> Join(chars) == chars[0] + Join(chars[1..])
    ensures chars != [] ==>
              Simplified(chars) == [if |chars[0]| == 1 then chars[0][0] else QUESTION] + Simplified(chars[1..])
  {
    hide Shown;
  }

  /** Well-formed text without controls keeps its code points one for one: ASCII as it is, the rest as '?'. */
  lemma OneForOne(chars: seq<seq<Byte>>)
    requires forall i :: 0 <= i < |chars| ==> Shown(chars[i])
    ensures Sanitized(Join(chars)) == Simplified(chars)
  {
    hide Feed, Shown;
    CharsFeed(Text, [], chars);
    assert [] + Simplified(chars) == Simplified(chars);
  }

  /** A tab fills up with one to four spaces to the next multiple of four characters of output. */
  lemma TabStops(m: Mode, out: seq<Byte>)
    requires IsText(m)
    ensures var (m', now) := Feed(m, out, [TAB]);
            && m' == Text && out <= now && |now| % 4 == 0 && 1 <= |now| - |out| <= 4
            && forall i :: |out| <= i < |now| ==> now[i] == SPACE
  {
    hide Feed, Spaces;
    FeedUnfolds(m, out, [TAB]);
    assert [TAB][1..] == [];
    FedAllMode(Text, out + Spaces(4 - |out| % 4));
  }

  // ---- escape sequences ----

  /** A control sequence, up to its first final byte (ECMA-48 section 5.4). */
  predicate IsCsi(e: seq<Byte>) {
    && |e| >= 3 && e[0] == ESC && e[1] == BRACKET && 0x40 <= e[|e| - 1] <= 0x7e
    && forall i :: 2 <= i < |e| - 1 ==> !(0x40 <= e[i] <= 0x7e)
  }

  /** An operating system command, up to its first bell or ESC-backslash. */
  predicate IsOsc(e: seq<Byte>) {
    && |e| >= 3 && e[0] == ESC && e[1] == BRACKET_END
    && (e[|e| - 1] == BELL || (|e| >= 4 && e[|e| - 2] == ESC && e[|e| - 1] == BACKSLASH))
    && (forall i :: 2 <= i < |e| - 1 ==> e[i] != BELL)
    && (forall i :: 2 <= i < |e| - 2 ==> !(e[i] == ESC && e[i + 1] == BACKSLASH))
  }

  /** A control character other than tab, newline, return and escape. */
  predicate IsControl(e: seq<Byte>) {
    |e| == 1 && (e[0] < 0x20 || e[0] == 0x7f) && e[0] != TAB && e[0] != NEWLINE && e[0] != RETURN && e[0] != ESC
  }

  /** An escape with one byte behind it that opens neither kind of sequence. */
  predicate IsShortEscape(e: seq<Byte>) {
    |e| == 2 && e[0] == ESC && e[1] != BRACKET && e[1] != BRACKET_END
  }

  predicate IsSilent(e: seq<Byte>) { IsCsi(e) || IsOsc(e) || IsControl(e) || IsShortEscape(e) }

  lemma {:induction false} CsiBody(out: seq<Byte>, s: seq<Byte>)
    requires s != [] && 0x40 <= s[|s| - 1] <= 0x7e && forall i :: 0 <= i < |s| - 1 ==> !(0x40 <= s[i] <= 0x7e)
    ensures Feed(Csi, out, s) == (Text, out)
    decreases |s|
  {
    hide Feed;
    FeedUnfolds(Csi, out, s);
    if |s| > 1 {
      CsiBody(out, s[1..]);
    } else {
      assert s[1..] == [];
      FedAllMode(Text, out);
    }
  }

  lemma {:induction false} OscBody(m: Mode, out: seq<Byte>, s: seq<Byte>)
    requires m == Osc || m == OscEsc
    requires s != []
             && (s[|s| - 1] == BELL || (s[|s| - 1] == BACKSLASH && if |s| == 1 then m == OscEsc else s[|s| - 2] == ESC))
    requires forall i :: 0 <= i < |s| - 1 ==> s[i] != BELL
    requires forall i :: 0 <= i < |s| - 2 ==> !(s[i] == ESC && s[i + 1] == BACKSLASH)
    requires |s| > 1 && m == OscEsc ==> s[0] != BACKSLASH
    ensures Feed(m, out, s) == (Text, out)
    decreases |s|
  {
    hide Feed;
    FeedUnfolds(m, out, s);
    if |s| > 1 {
      OscBody(NextMode(m, s[0]), out, s[1..]);
    } else {
      assert s[1..] == [];
      FedAllMode(Text, out);
    }
  }

  /** A complete sequence, or a control, leaves no output and ordinary text behind it. */
  lemma SequenceFeeds(m: Mode, out: seq<Byte>, e: seq<Byte>)
    requires IsText(m) && IsSilent(e)
    ensures Feed(m, out, e) == (Text, out)
  {
    hide Feed;
    FeedUnfolds(m, out, e);
    if IsControl(e) {
      assert e[1..] == [];
      FedAllMode(Text, out);
      return;
    }
    FeedUnfolds(Start, out, e[1..]);
    assert e[1..][1..] == e[2..];
    if IsCsi(e) {
      CsiBody(out, e[2..]);
    } else if IsOsc(e) {
      OscBody(Osc, out, e[2..]);
    } else {
      assert e[2..] == [];
      FedAllMode(Text, out);
    }
  }

  /** How many characters are not spaces: tabs aside, what a byte adds does not depend on the column. */
  function Marks(s: seq<Byte>): nat {
    if s == [] then 0 else (if s[0] == SPACE then 0 else 1) + Marks(s[1..])
  }

  lemma {:induction false} MarksAppend(a: seq<Byte>, b: seq<Byte>)
    ensures Marks(a + b) == Marks(a) + Marks(b)
    decreases |a|
  {
    if a == [] {
      assert a + b == b;
    } else {
      assert (a + b)[1..] == a[1..] + b;
      MarksAppend(a[1..], b);
    }
  }

  lemma {:induction false} MarksOfSpaces(n: nat)
    ensures Marks(Spaces(n)) == 0
  {
    if n > 0 {
      assert Spaces(n)[1..] == Spaces(n - 1);
      MarksOfSpaces(n - 1);
    }
  }

  lemma {:induction false} MarksArePositionless(m: Mode, x: seq<Byte>, y: seq<Byte>, s: seq<Byte>)
    ensures Marks(Feed(m, x, s).1) - Marks(x) == Marks(Feed(m, y, s).1) - Marks(y)
    decreases |s|
  {
    hide Feed, Marks;
    if s == [] {
      FedAll(m, x);
      FedAll(m, y);
    } else {
      FeedUnfolds(m, x, s);
      FeedUnfolds(m, y, s);
      var ex, ey := Emitted(m, s[0], |x|), Emitted(m, s[0], |y|);
      MarksAppend(x, ex);
      MarksAppend(y, ey);
      MarksOfSpaces(4 - |x| % 4);
      MarksOfSpaces(4 - |y| % 4);
      MarksArePositionless(NextMode(m, s[0]), x + ex, y + ey, s[1..]);
    }
  }

  /**
   * A complete escape sequence or a control between pieces of text changes nothing, except exactly when it comes
   * between a return and its newline, or between a high byte and a continuation byte.
   */
  lemma SequencesVanish(a: seq<Byte>, e: seq<Byte>, b: seq<Byte>)
    requires IsText(Feed(Text, [], a).0) && IsSilent(e)
    ensures Sanitized(a + e + b) == Sanitized(a + b)
       <==> (b == [] || !Absorbed(Feed(Text, [], a).0, b[0]))
  {
    hide Feed, IsSilent, Emitted, NextMode;
    var (m, out) := Feed(Text, [], a);
    FeedAppend(Text, [], a, b);
    FeedAppend(Text, [], a + e, b);
    FeedAppend(Text, [], a, e);
    SequenceFeeds(m, out, e);
    if b == [] || !Absorbed(m, b[0]) {
      MemoryFades(m, out, b);
    } else {
      AbsorbedDiffers(m, out, b);
    }
  }

  lemma AbsorbedDiffers(m: Mode, out: seq<Byte>, b: seq<Byte>)
    requires b != [] && Absorbed(m, b[0])
    ensures Feed(m, out, b).1 != Feed(Text, out, b).1
  {
    hide Feed, Marks;
    FeedUnfolds(m, out, b);
    FeedUnfolds(Text, out, b);
    var more := Emitted(Text, b[0], |out|);
    MarksAppend(out, more);
    MarksOfOne(more[0]);
    MarksArePositionless(NextMode(Text, b[0]), out, out + more, b[1..]);
  }

  lemma MarksOfOne(b: Byte)
    ensures Marks([b]) == if b == SPACE then 0 else 1
  {
  }
}
