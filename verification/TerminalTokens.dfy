/** Terminal text as a list of tokens, and what the sanitizer makes of each (runtime/einkctl.c, lines 298-365). */
module TerminalTokens {
  import opened Bytes
  import opened TextSanitizer

  /** A stretch of input with one meaning; `Unfinished` is a sequence that the input ends inside. */
  datatype Token =
    | Letter(b: Byte)
    | LineEnd(twoBytes: bool, newline: bool)
    | Tabulator
    | Foreign(run: seq<Byte>)
    | Silent(sequence: seq<Byte>)
    | Unfinished(sequence: seq<Byte>)

  /** An escape, alone or with the beginning of a control sequence or of a command behind it. */
  predicate IsUnfinished(e: seq<Byte>) {
    && e != [] && e[0] == ESC
    && (|e| == 1
        || (e[1] == '[' as int && forall i :: 2 <= i < |e| ==> !(0x40 <= e[i] <= 0x7e))
        || (e[1] == ']' as int && (forall i :: 2 <= i < |e| ==> e[i] != BELL)
            && forall i :: 2 <= i < |e| - 1 ==> !(e[i] == ESC && e[i + 1] == '\\' as int)))
  }

  predicate TokenOk(t: Token) {
    match t
    case Letter(b) => ' ' as int <= b <= '~' as int
    case LineEnd(twoBytes, newline) => twoBytes ==> !newline
    case Tabulator => true
    case Foreign(run) => run != [] && run[0] >= 0x80 && forall i :: 1 <= i < |run| ==> IsContinuation(run[i])
    case Silent(e) => IsSilent(e)
    case Unfinished(e) => IsUnfinished(e)
  }

  function Show(t: Token): (s: seq<Byte>)
    requires TokenOk(t)
    ensures s != []
  {
    match t
    case Letter(b) => [b]
    case LineEnd(twoBytes, newline) => if twoBytes then Ascii("\r\n") else if newline then Ascii("\n") else Ascii("\r")
    case Tabulator => Ascii("\t")
    case Foreign(run) => run
    case Silent(e) => e
    case Unfinished(e) => e
  }

  /** What a token comes to when `column` characters are out already. */
  function Means(t: Token, column: nat): seq<Byte>
    requires TokenOk(t)
  {
    match t
    case Letter(b) => [b]
    case LineEnd(_, _) => Ascii("\n")
    case Tabulator => Ascii("    ")[column % 4..]
    case Foreign(_) => Ascii("?")
    case Silent(_) => []
    case Unfinished(_) => []
  }

  /** A byte that belongs to the token before it: the newline of a return, the continuation of a character. */
  predicate Continues(t: Token, b: Byte) {
    (t == LineEnd(false, false) && b == '\n' as int) || (t.Foreign? && IsContinuation(b))
  }

  /** Legal tokens, each as long as it can be, and nothing behind an unfinished one. */
  predicate TokensOk(ts: seq<Token>) {
    && (forall i :: 0 <= i < |ts| ==> TokenOk(ts[i]))
    && (forall i :: 0 <= i < |ts| - 1 ==> !ts[i].Unfinished? && !Continues(ts[i], Show(ts[i + 1])[0]))
  }

  function ShowAll(ts: seq<Token>): seq<Byte>
    requires TokensOk(ts)
  {
    if ts == [] then [] else Show(ts[0]) + ShowAll(ts[1..])
  }

  function MeansAll(ts: seq<Token>, column: nat): seq<Byte>
    requires TokensOk(ts)
  {
    if ts == [] then []
    else
      var now := Means(ts[0], column);
      now + MeansAll(ts[1..], column + |now|)
  }

  // ---- the sanitizer reads tokens ----

  function After(t: Token): Mode {
    if t == LineEnd(false, false) then AfterReturn else if t.Foreign? then AfterHigh else Text
  }

  lemma TokenFeeds(m: Mode, out: seq<Byte>, t: Token)
    requires IsText(m) && TokenOk(t) && !t.Unfinished? && !Absorbed(m, Show(t)[0])
    ensures Feed(m, out, Show(t)) == (After(t), out + Means(t, |out|))
  {
    hide Feed, IsSilent;
    var s := Show(t);
    assert Ascii("\r\n") == [RETURN, NEWLINE] && Ascii("\n") == [NEWLINE] && Ascii("\r") == [RETURN];
    assert Ascii("\t") == [TAB] && Ascii("?") == [QUESTION];
    if t.Silent? {
      SequenceFeeds(m, out, s);
      assert out + [] == out;
    } else {
      FeedUnfolds(m, out, s);
      var out' := out + Emitted(m, s[0], |out|);
      var m' := NextMode(m, s[0]);
      FedAllMode(m', out');
      if t.Foreign? {
        ContinuationsFed(out', s[1..]);
      } else if t == LineEnd(true, false) {
        FeedUnfolds(m', out', s[1..]);
        assert s[1..] == [NEWLINE] && s[1..][1..] == [];
        FedAllMode(Text, out');
      } else {
        assert s[1..] == [];
        TabIs(|out|);
      }
    }
  }

  lemma TabIs(column: nat)
    ensures Spaces(4 - column % 4) == Ascii("    ")[column % 4..]
  {
  }

  /** The input ends inside a sequence, and nothing of that comes out. */
  lemma UnfinishedFeeds(m: Mode, out: seq<Byte>, e: seq<Byte>)
    requires IsText(m) && IsUnfinished(e)
    ensures Feed(m, out, e).1 == out
  {
    hide Feed;
    FeedUnfolds(m, out, e);
    if |e| == 1 {
      assert e[1..] == [];
      FedAllMode(Start, out);
    } else {
      FeedUnfolds(Start, out, e[1..]);
      assert e[1..][1..] == e[2..];
      if e[1] == '[' as int {
        InsideCsi(out, e[2..]);
      } else {
        InsideOsc(Osc, out, e[2..]);
      }
    }
  }

  lemma {:induction false} InsideCsi(out: seq<Byte>, s: seq<Byte>)
    requires forall i :: 0 <= i < |s| ==> !(0x40 <= s[i] <= 0x7e)
    ensures Feed(Csi, out, s).1 == out
    decreases |s|
  {
    hide Feed;
    if s == [] {
      FedAllMode(Csi, out);
    } else {
      FeedUnfolds(Csi, out, s);
      InsideCsi(out, s[1..]);
    }
  }

  lemma {:induction false} InsideOsc(m: Mode, out: seq<Byte>, s: seq<Byte>)
    requires m == Osc || (m == OscEsc && (s == [] || s[0] != BACKSLASH))
    requires forall i :: 0 <= i < |s| ==> s[i] != BELL
    requires forall i :: 0 <= i < |s| - 1 ==> !(s[i] == ESC && s[i + 1] == BACKSLASH)
    ensures Feed(m, out, s).1 == out
    decreases |s|
  {
    hide Feed;
    if s == [] {
      FedAllMode(m, out);
    } else {
      FeedUnfolds(m, out, s);
      InsideOsc(NextMode(m, s[0]), out, s[1..]);
    }
  }

  lemma TokensTail(ts: seq<Token>)
    requires TokensOk(ts) && ts != []
    ensures TokenOk(ts[0]) && TokensOk(ts[1..]) && ShowAll(ts) == Show(ts[0]) + ShowAll(ts[1..])
    ensures |ts| > 1 ==> !ts[0].Unfinished? && !Continues(ts[0], Show(ts[1])[0]) && ts[1..][0] == ts[1]
    ensures |ts| == 1 ==> ts[1..] == []
    ensures ShowAll(ts) != [] && ShowAll(ts)[0] == Show(ts[0])[0]
  {
    hide TokenOk, Show, Continues;
  }

  lemma {:induction false} TokensFeed(m: Mode, out: seq<Byte>, ts: seq<Token>)
    requires TokensOk(ts) && IsText(m) && (ts != [] ==> !Absorbed(m, Show(ts[0])[0]))
    ensures Feed(m, out, ShowAll(ts)).1 == out + MeansAll(ts, |out|)
    decreases |ts|
  {
    hide Feed, Show, Means, TokenOk, TokensOk, IsUnfinished;
    if ts == [] {
      FedAllMode(m, out);
    } else {
      TokensTail(ts);
      var t := ts[0];
      if t.Unfinished? {
        LastToken(ts, |out|);
        UnfinishedIs(t);
        UnfinishedFeeds(m, out, t.sequence);
      } else {
        TokenFeeds(m, out, t);
        FeedAppend(m, out, Show(t), ShowAll(ts[1..]));
        var out' := out + Means(t, |out|);
        assert ts[1..] != [] ==> ts[1..][0] == ts[1];
        TokensFeed(After(t), out', ts[1..]);
        assert out' + MeansAll(ts[1..], |out'|) == out + (Means(t, |out|) + MeansAll(ts[1..], |out'|));
      }
    }
  }

  lemma UnfinishedIs(t: Token)
    requires TokenOk(t) && t.Unfinished?
    ensures IsUnfinished(t.sequence) && Show(t) == t.sequence
  {
  }

  lemma LastToken(ts: seq<Token>, column: nat)
    requires TokensOk(ts) && ts != [] && ts[0].Unfinished?
    ensures |ts| == 1 && ShowAll(ts) == ts[0].sequence && MeansAll(ts, column) == []
  {
    hide IsUnfinished;
    TokensTail(ts);
    assert ShowAll(ts[1..]) == [];
  }

  // ---- every input is tokens ----

  /** Where the first byte from 0x40 to 0x7e is. */
  function FindFinal(s: seq<Byte>, i: nat): (k: nat)
    requires i <= |s|
    ensures i <= k <= |s| && (k < |s| ==> 0x40 <= s[k] <= 0x7e)
    ensures forall j :: i <= j < k ==> !(0x40 <= s[j] <= 0x7e)
    decreases |s| - i
  {
    if i == |s| || 0x40 <= s[i] <= 0x7e then i else FindFinal(s, i + 1)
  }

  predicate EndsAt(s: seq<Byte>, k: nat)
    requires k < |s|
  {
    s[k] == BELL || (s[k] == ESC && k + 1 < |s| && s[k + 1] == BACKSLASH)
  }

  /** Where the first bell or escape with a backslash is. */
  function FindEnd(s: seq<Byte>, i: nat): (k: nat)
    requires i <= |s|
    ensures i <= k <= |s| && (k < |s| ==> EndsAt(s, k))
    ensures forall j :: i <= j < k ==> !EndsAt(s, j)
    decreases |s| - i
  {
    if i == |s| || EndsAt(s, i) then i else FindEnd(s, i + 1)
  }

  function FindSolid(s: seq<Byte>, i: nat): (k: nat)
    requires i <= |s|
    ensures i <= k <= |s| && (k < |s| ==> !IsContinuation(s[k]))
    ensures forall j :: i <= j < k ==> IsContinuation(s[j])
    decreases |s| - i
  {
    if i == |s| || !IsContinuation(s[i]) then i else FindSolid(s, i + 1)
  }

  /** The sequence an escape begins, to its end or to the end of the input. */
  function EscapeToken(s: seq<Byte>): Token
    requires s != [] && s[0] == ESC
  {
    if |s| == 1 then Unfinished(s)
    else if s[1] == BRACKET then
      var k := FindFinal(s, 2);
      if k < |s| then Silent(s[..k + 1]) else Unfinished(s)
    else if s[1] == BRACKET_END then
      var k := FindEnd(s, 2);
      if k == |s| then Unfinished(s) else Silent(s[..k + if s[k] == BELL then 1 else 2])
    else Silent(s[..2])
  }

  lemma EscapeTokenIs(s: seq<Byte>)
    requires s != [] && s[0] == ESC
    ensures var t := EscapeToken(s);
            TokenOk(t) && Show(t) <= s && (t.Unfinished? ==> Show(t) == s) && (t.Unfinished? || t.Silent?)
  {
    if |s| > 1 && s[1] == BRACKET_END {
      CommandEnds(s);
    }
  }

  lemma CommandEnds(s: seq<Byte>)
    requires |s| > 1 && s[0] == ESC && s[1] == BRACKET_END
    ensures var k := FindEnd(s, 2);
            if k == |s| then IsUnfinished(s) else IsOsc(s[..k + if s[k] == BELL then 1 else 2])
  {
    var k := FindEnd(s, 2);
    if k == |s| {
      forall i | 2 <= i < |s| ensures s[i] != BELL && (i < |s| - 1 ==> !(s[i] == ESC && s[i + 1] == BACKSLASH)) {
        assert !EndsAt(s, i);
      }
    } else {
      var e := s[..k + if s[k] == BELL then 1 else 2];
      forall i | 2 <= i < |e| - 1
        ensures e[i] != BELL && (i < |e| - 2 ==> !(e[i] == ESC && e[i + 1] == BACKSLASH))
      {
        assert i < k ==> !EndsAt(s, i);
      }
    }
  }

  function FirstToken(s: seq<Byte>): Token
    requires s != []
  {
    var b := s[0];
    if b == ESC then EscapeToken(s)
    else if b == RETURN then LineEnd(|s| > 1 && s[1] == NEWLINE, false)
    else if b == NEWLINE then LineEnd(false, true)
    else if b == TAB then Tabulator
    else if b >= 0x80 then Foreign(s[..FindSolid(s, 1)])
    else if 0x20 <= b <= 0x7e then Letter(b)
    else Silent([b])
  }

  lemma FirstTokenIs(s: seq<Byte>)
    requires s != []
    ensures var t := FirstToken(s);
            && TokenOk(t) && Show(t) <= s
            && (|Show(t)| < |s| ==> !t.Unfinished? && !Continues(t, s[|Show(t)|]))
  {
    assert Ascii("\r\n") == [RETURN, NEWLINE] && Ascii("\n") == [NEWLINE] && Ascii("\r") == [RETURN];
    assert Ascii("\t") == [TAB];
    if s[0] == ESC {
      hide IsUnfinished, IsSilent;
      EscapeTokenIs(s);
    }
  }

  lemma TokensCons(t: Token, ts: seq<Token>)
    requires TokenOk(t) && TokensOk(ts)
    requires ts != [] ==> !t.Unfinished? && !Continues(t, ShowAll(ts)[0])
    ensures TokensOk([t] + ts) && ShowAll([t] + ts) == Show(t) + ShowAll(ts)
  {
    hide TokenOk, Show;
    var all := [t] + ts;
    if ts != [] {
      TokensTail(ts);
    }
    assert all[1..] == ts;
    assert forall i :: 0 < i < |all| ==> all[i] == ts[i - 1];
  }

  lemma TokensOf(s: seq<Byte>) returns (ts: seq<Token>)
    ensures TokensOk(ts) && ShowAll(ts) == s
    decreases |s|
  {
    hide FirstToken, TokenOk, Show, TokensOk;
    if s == [] {
      ts := [];
      NoTokens();
    } else {
      var t := FirstToken(s);
      FirstTokenIs(s);
      var rest := s[|Show(t)|..];
      var more := TokensOf(rest);
      if more != [] {
        TokensTail(more);
      }
      TokensCons(t, more);
      ts := [t] + more;
    }
  }

  lemma NoTokens()
    ensures TokensOk([]) && ShowAll([]) == []
  {
  }

  /**
   * Every input is a list of tokens, each as long as it can be, and what comes out is what they mean, one behind the
   * other: letters as they are, one newline a line end, spaces to the next multiple of four for a tab, one question
   * mark for a run of bytes from 0x80 on, and nothing for sequences, finished or not, and controls.
   */
  lemma SanitizedIsTokens(s: seq<Byte>)
    ensures exists ts :: TokensOk(ts) && ShowAll(ts) == s
    ensures forall ts :: TokensOk(ts) && ShowAll(ts) == s ==> Sanitized(s) == MeansAll(ts, 0)
  {
    hide TokensOk, ShowAll, MeansAll, Feed;
    var some := TokensOf(s);
    forall ts | TokensOk(ts) && ShowAll(ts) == s ensures Sanitized(s) == MeansAll(ts, 0) {
      TokensFeed(Text, [], ts);
      assert [] + MeansAll(ts, 0) == MeansAll(ts, 0);
    }
  }
}
