/** Wrapping text into lines of at most 98 columns (runtime/einkctl.c, lines 367-413). */
module LineWrapper {
  import opened Bytes

  const TEXT_COLUMNS: nat := 98
  const LINE_BYTES: nat := 99

  // ---- the meaning ----

  function SplitLines(text: seq<Byte>): (lines: seq<seq<Byte>>)
    ensures lines != []
  {
    if text == [] then [[]]
    else if text[0] == NEWLINE then [[]] + SplitLines(text[1..])
    else
      var rest := SplitLines(text[1..]);
      [[text[0]] + rest[0]] + rest[1..]
  }

  function JoinLines(lines: seq<seq<Byte>>): seq<Byte>
    requires lines != []
  {
    if |lines| == 1 then lines[0] else lines[0] + [NEWLINE] + JoinLines(lines[1..])
  }

  function Newlines(text: seq<Byte>): nat {
    if text == [] then 0 else (if text[0] == NEWLINE then 1 else 0) + Newlines(text[1..])
  }

  /** The last space at or before `k`, or 0. */
  function LastSpace(s: seq<Byte>, k: nat): (r: nat)
    requires k < |s|
    ensures r <= k && (r > 0 ==> s[r] == SPACE)
    ensures forall i :: r < i <= k ==> s[i] != SPACE
  {
    if k == 0 || s[k] == SPACE then k else LastSpace(s, k - 1)
  }

  /** How much of a segment the next line takes: all of it, up to a space beyond a third, or a full line. */
  function SplitAt(s: seq<Byte>): (n: nat)
    requires s != []
    ensures 1 <= n <= Min(|s|, TEXT_COLUMNS)
  {
    if |s| <= TEXT_COLUMNS then |s|
    else if LastSpace(s, TEXT_COLUMNS) < TEXT_COLUMNS / 3 then TEXT_COLUMNS
    else LastSpace(s, TEXT_COLUMNS)
  }

  /** The spaces a string starts with. */
  function Leading(s: seq<Byte>): (n: nat)
    ensures n <= |s| && (forall i :: 0 <= i < n ==> s[i] == SPACE) && (n < |s| ==> s[n] != SPACE)
  {
    if s == [] || s[0] != SPACE then 0 else 1 + Leading(s[1..])
  }

  function Behind(s: seq<Byte>): (rest: seq<Byte>)
    requires s != []
    ensures |rest| < |s|
  {
    var rest := s[SplitAt(s)..];
    rest[Leading(rest)..]
  }

  function WrapSegment(s: seq<Byte>): seq<seq<Byte>>
    decreases |s|
  {
    if s == [] then [] else [s[..SplitAt(s)]] + WrapSegment(Behind(s))
  }

  /** A line of text: an empty one stays a line. */
  function WrapLine(s: seq<Byte>): seq<seq<Byte>> {
    if s == [] then [[]] else WrapSegment(s)
  }

  function WrapLines(lines: seq<seq<Byte>>): seq<seq<Byte>> {
    if lines == [] then [] else WrapLine(lines[0]) + WrapLines(lines[1..])
  }

  function Wrapped(text: seq<Byte>): seq<seq<Byte>> { WrapLines(SplitLines(text)) }

  // ---- splitting on newlines ----

  lemma {:induction false} SplitJoins(text: seq<Byte>)
    ensures JoinLines(SplitLines(text)) == text
    ensures |SplitLines(text)| == Newlines(text) + 1
    ensures forall i :: 0 <= i < |SplitLines(text)| ==> NEWLINE !in SplitLines(text)[i]
    decreases |text|
  {
    hide JoinLines;
    if text == [] {
      JoinFirst([], []);
      assert SplitLines(text) == [[]] + [];
    } else {
      SplitJoins(text[1..]);
      var rest := SplitLines(text[1..]);
      assert text == [text[0]] + text[1..];
      JoinFirst(rest[0], rest[1..]);
      assert rest == [rest[0]] + rest[1..];
      if text[0] == NEWLINE {
        JoinFirst([], rest);
      } else {
        JoinFirst([text[0]] + rest[0], rest[1..]);
      }
    }
  }

  lemma JoinFirst(line: seq<Byte>, rest: seq<seq<Byte>>)
    ensures JoinLines([line] + rest) == line + if rest == [] then [] else [NEWLINE] + JoinLines(rest)
  {
    assert ([line] + rest)[1..] == rest;
  }

  /** The first line, up to a newline or the end. */
  lemma {:induction false} SplitFirst(text: seq<Byte>, n: nat)
    requires n <= |text| && NEWLINE !in text[..n] && (n < |text| ==> text[n] == NEWLINE)
    ensures SplitLines(text) == if n < |text| then [text[..n]] + SplitLines(text[n + 1..]) else [text]
    decreases n
  {
    if n > 0 {
      assert text[..n][0] == text[0];
      assert text[1..][..n - 1] == text[..n][1..];
      SplitFirst(text[1..], n - 1);
      assert text[1..][n - 1..] == text[n..];
      assert [text[0]] + text[1..] == text;
      assert [text[0]] + text[1..][..n - 1] == text[..n];
      if n < |text| {
        assert text[1..][n - 1 + 1..] == text[n + 1..];
        assert ([text[1..][..n - 1]] + SplitLines(text[n + 1..]))[1..] == SplitLines(text[n + 1..]);
      }
    }
  }

  // ---- pieces and gaps ----

  function GapsOf(s: seq<Byte>): (gaps: seq<seq<Byte>>)
    ensures |gaps| == |WrapSegment(s)|
    decreases |s|
  {
    if s == [] then []
    else [s[SplitAt(s)..][..Leading(s[SplitAt(s)..])]] + GapsOf(Behind(s))
  }

  function Weave(pieces: seq<seq<Byte>>, gaps: seq<seq<Byte>>): seq<Byte>
    requires |pieces| == |gaps|
  {
    if pieces == [] then [] else pieces[0] + gaps[0] + Weave(pieces[1..], gaps[1..])
  }

  predicate AllSpaces(s: seq<Byte>) {
    forall i :: 0 <= i < |s| ==> s[i] == SPACE
  }

  lemma SegmentUnfolds(s: seq<Byte>)
    requires s != []
    ensures WrapSegment(s) == [s[..SplitAt(s)]] + WrapSegment(Behind(s))
    ensures exists gap ::
              AllSpaces(gap) && GapsOf(s) == [gap] + GapsOf(Behind(s))
              && s == s[..SplitAt(s)] + gap + Behind(s)
  {
    var n := SplitAt(s);
    var gap := s[n..][..Leading(s[n..])];
    assert s == s[..n] + gap + Behind(s);
    assert AllSpaces(gap);
  }

  /** Nothing but spaces between pieces is left out; pieces and gaps in order are the segment. */
  lemma {:induction false} PiecesAndGaps(s: seq<Byte>)
    ensures |GapsOf(s)| == |WrapSegment(s)|
    ensures Weave(WrapSegment(s), GapsOf(s)) == s
    ensures forall i :: 0 <= i < |GapsOf(s)| ==> AllSpaces(GapsOf(s)[i])
    ensures forall i :: 0 <= i < |WrapSegment(s)| ==> 1 <= |WrapSegment(s)[i]| <= TEXT_COLUMNS
    decreases |s|
  {
    hide SplitAt, Behind, AllSpaces;
    if s != [] {
      var rest := Behind(s);
      SegmentUnfolds(s);
      var gap :| AllSpaces(gap) && GapsOf(s) == [gap] + GapsOf(rest) && s == s[..SplitAt(s)] + gap + rest;
      PiecesAndGaps(rest);
      assert WrapSegment(s)[1..] == WrapSegment(rest) && GapsOf(s)[1..] == GapsOf(rest);
    }
  }

  function Words(s: seq<Byte>): seq<Byte> {
    if s == [] then [] else (if s[0] == SPACE || s[0] == NEWLINE then [] else [s[0]]) + Words(s[1..])
  }

  lemma {:induction false} WordsAppend(a: seq<Byte>, b: seq<Byte>)
    ensures Words(a + b) == Words(a) + Words(b)
    decreases |a|
  {
    if a == [] {
      assert a + b == b;
    } else {
      assert (a + b)[1..] == a[1..] + b;
      WordsAppend(a[1..], b);
    }
  }

  lemma {:induction false} NoWords(s: seq<Byte>)
    requires AllSpaces(s)
    ensures Words(s) == []
    decreases |s|
  {
    if s != [] {
      NoWords(s[1..]);
    }
  }

  lemma {:induction false} SegmentKeepsWords(s: seq<Byte>)
    ensures Words(Join(WrapSegment(s))) == Words(s)
    decreases |s|
  {
    hide SplitAt, Behind, AllSpaces, Words;
    if s != [] {
      var rest := Behind(s);
      SegmentUnfolds(s);
      var piece := s[..SplitAt(s)];
      var gap :| AllSpaces(gap) && GapsOf(s) == [gap] + GapsOf(rest) && s == piece + gap + rest;
      SegmentKeepsWords(rest);
      assert WrapSegment(s)[1..] == WrapSegment(rest);
      WordsAppend(piece, Join(WrapSegment(rest)));
      NoWords(gap);
      WordsAppend(piece + gap, rest);
      WordsAppend(piece, gap);
      assert Words(piece) + [] == Words(piece);
    }
  }

  lemma {:induction false} JoinAppend(a: seq<seq<Byte>>, b: seq<seq<Byte>>)
    ensures Join(a + b) == Join(a) + Join(b)
    decreases |a|
  {
    if a == [] {
      assert a + b == b;
    } else {
      assert (a + b)[1..] == a[1..] + b;
      JoinAppend(a[1..], b);
    }
  }

  lemma {:induction false} LinesKeepWords(lines: seq<seq<Byte>>)
    requires lines != []
    ensures Words(Join(WrapLines(lines))) == Words(JoinLines(lines))
    decreases |lines|
  {
    hide WrapSegment, Words;
    var rest := lines[1..];
    SegmentKeepsWords(lines[0]);
    JoinAppend(WrapLine(lines[0]), WrapLines(rest));
    WordsAppend(Join(WrapLine(lines[0])), Join(WrapLines(rest)));
    JoinOfLine(lines[0]);
    NewlineIsNoWord();
    if rest == [] {
      assert Words(lines[0]) + [] == Words(lines[0]);
    } else {
      LinesKeepWords(rest);
      WordsAppend(lines[0] + [NEWLINE], JoinLines(rest));
      WordsAppend(lines[0], [NEWLINE]);
      assert Words(lines[0]) + [] == Words(lines[0]);
    }
  }

  lemma JoinOfLine(s: seq<Byte>)
    ensures Join(WrapLine(s)) == Join(WrapSegment(s))
  {
    if s == [] {
      assert WrapLine(s)[1..] == [];
    }
  }

  lemma NewlineIsNoWord()
    ensures Words([NEWLINE]) == [] && Words([]) == []
  {
  }

  /** No character but spaces and newlines is lost, repeated or moved. */
  lemma WrappingKeepsWords(text: seq<Byte>)
    ensures Words(Join(Wrapped(text))) == Words(text)
  {
    SplitJoins(text);
    LinesKeepWords(SplitLines(text));
  }

  /**
   * A line that does not take all of its segment ends before the last space among its first 99 characters when
   * that is past a third of the line, and is full when it is not.
   */
  lemma BreaksAtLastSpace(s: seq<Byte>)
    requires s != [] && SplitAt(s) < |s|
    ensures |s| > TEXT_COLUMNS
    ensures (exists i :: TEXT_COLUMNS / 3 <= i <= TEXT_COLUMNS && s[i] == SPACE) ==>
              s[SplitAt(s)] == SPACE && forall i :: SplitAt(s) < i <= TEXT_COLUMNS ==> s[i] != SPACE
    ensures (forall i :: TEXT_COLUMNS / 3 <= i <= TEXT_COLUMNS ==> s[i] != SPACE) ==> SplitAt(s) == TEXT_COLUMNS
  {
    var k := LastSpace(s, TEXT_COLUMNS);
    assert k > 0 ==> s[k] == SPACE;
    if k >= TEXT_COLUMNS / 3 {
      assert s[k] == SPACE;
    }
  }

  // ---- words stay whole ----

  /** What fits goes on one line, and a line behind a break begins with no space: all of those are gone. */
  lemma {:induction false} BreaksLeaveNoSpaces(s: seq<Byte>)
    ensures 0 < |s| <= TEXT_COLUMNS ==> WrapSegment(s) == [s]
    ensures forall k :: 1 <= k < |WrapSegment(s)| ==> WrapSegment(s)[k] != [] && WrapSegment(s)[k][0] != SPACE
    decreases |s|
  {
    hide SplitAt, Behind, WrapSegment;
    if s == [] {
      NoPieces();
    } else {
      PiecesUnfold(s, 0);
      BehindIsSolid(s);
      var rest := Behind(s);
      BreaksLeaveNoSpaces(rest);
      if rest == [] {
        NoPieces();
      } else {
        PiecesUnfold(rest, 0);
        assert WrapSegment(rest)[0][0] == rest[0];
      }
      assert forall k :: 1 <= k < |WrapSegment(s)| ==> WrapSegment(s)[k] == WrapSegment(rest)[k - 1];
    }
  }

  lemma NoPieces()
    ensures WrapSegment([]) == []
  {
  }

  lemma BehindIsSolid(s: seq<Byte>)
    requires s != []
    ensures Behind(s) != [] ==> Behind(s)[0] != SPACE
    ensures |s| <= TEXT_COLUMNS ==> SplitAt(s) == |s| && s[..SplitAt(s)] == s && Behind(s) == []
  {
  }

  function Offsets(s: seq<Byte>, base: nat): (r: seq<nat>)
    ensures |r| == |WrapSegment(s)|
    decreases |s|
  {
    if s == [] then [] else [base] + Offsets(Behind(s), base + |s| - |Behind(s)|)
  }

  predicate NoSpace(s: seq<Byte>, i: nat, j: nat)
    requires i <= j <= |s|
  {
    forall k :: i <= k < j ==> s[k] != SPACE
  }

  /** The word from `i` to `j` lies in one piece, which starts where its offset says. */
  ghost predicate InOnePiece(s: seq<Byte>, base: nat, i: nat, j: nat) {
    exists k :: 0 <= k < |WrapSegment(s)|
                && Offsets(s, base)[k] <= base + i && base + j <= Offsets(s, base)[k] + |WrapSegment(s)[k]|
  }

  /** A break at `SplitAt` that is not before a space has 67 characters without a space around it. */
  lemma BreakInWord(s: seq<Byte>, i: nat, j: nat)
    requires s != [] && i < SplitAt(s) < j <= |s| && NoSpace(s, i, j) && (i > 0 ==> s[i - 1] == SPACE)
    ensures j - i > 66
  {
    var n := SplitAt(s);
    assert s[n] != SPACE;
    assert n == TEXT_COLUMNS && LastSpace(s, TEXT_COLUMNS) < TEXT_COLUMNS / 3;
  }

  lemma PiecesUnfold(s: seq<Byte>, base: nat)
    requires s != []
    ensures WrapSegment(s) == [s[..SplitAt(s)]] + WrapSegment(Behind(s))
    ensures Offsets(s, base) == [base] + Offsets(Behind(s), base + |s| - |Behind(s)|)
  {
  }

  lemma InLaterPiece(s: seq<Byte>, base: nat, i: nat, j: nat)
    requires s != [] && |s| - |Behind(s)| <= i <= j
    requires var skipped := |s| - |Behind(s)|; InOnePiece(Behind(s), base + skipped, i - skipped, j - skipped)
    ensures InOnePiece(s, base, i, j)
  {
    hide Behind, SplitAt, WrapSegment, Offsets;
    var rest, skipped := Behind(s), |s| - |Behind(s)|;
    PiecesUnfold(s, base);
    var k :| 0 <= k < |WrapSegment(rest)|
             && Offsets(rest, base + skipped)[k] <= base + skipped + (i - skipped)
             && base + skipped + (j - skipped) <= Offsets(rest, base + skipped)[k] + |WrapSegment(rest)[k]|;
    assert Offsets(s, base)[k + 1] == Offsets(rest, base + skipped)[k];
    assert WrapSegment(s)[k + 1] == WrapSegment(rest)[k];
  }

  lemma InFirstPiece(s: seq<Byte>, base: nat, i: nat, j: nat)
    requires s != [] && j <= SplitAt(s)
    ensures InOnePiece(s, base, i, j)
  {
    hide Behind, SplitAt, WrapSegment, Offsets;
    PiecesUnfold(s, base);
    assert Offsets(s, base)[0] <= base + i && base + j <= Offsets(s, base)[0] + |WrapSegment(s)[0]|;
  }

  /** A word of at most 66 characters is never split. */
  lemma {:induction false} WordsStayWhole(s: seq<Byte>, base: nat, i: nat, j: nat)
    requires i < j <= |s| && j - i <= 66 && NoSpace(s, i, j) && (i > 0 ==> s[i - 1] == SPACE)
    ensures InOnePiece(s, base, i, j)
    decreases |s|
  {
    hide InOnePiece, SplitAt, Behind, NoSpace;
    var n := SplitAt(s);
    if n <= i {
      var rest, skipped := Behind(s), |s| - |Behind(s)|;
      WordBehind(s, i, j);
      WordsStayWhole(rest, base + skipped, i - skipped, j - skipped);
      InLaterPiece(s, base, i, j);
    } else if n < j {
      BreakInWord(s, i, j);
      assert false;
    } else {
      InFirstPiece(s, base, i, j);
    }
  }

  lemma WordBehind(s: seq<Byte>, i: nat, j: nat)
    requires s != [] && SplitAt(s) <= i < j <= |s| && NoSpace(s, i, j) && (i > 0 ==> s[i - 1] == SPACE)
    ensures var rest := Behind(s);
            var skipped := |s| - |rest|;
            && skipped <= i && rest == s[skipped..] && NoSpace(rest, i - skipped, j - skipped)
            && (i > skipped ==> rest[i - skipped - 1] == SPACE)
  {
    var n := SplitAt(s);
    var lead := Leading(s[n..]);
    assert Behind(s) == s[n + lead..];
    forall k | n <= k < n + lead ensures s[k] == SPACE {
      assert s[n..][k - n] == SPACE;
    }
    assert s[i] != SPACE;
    forall k | i - n - lead <= k < j - n - lead ensures Behind(s)[k] != SPACE {
      assert Behind(s)[k] == s[n + lead + k];
    }
  }

  /** A line that starts with 31 characters and a space, and goes on with one word of 67. */
  function LongWord(): (s: seq<Byte>)
    ensures |s| == 99 && s[31] == SPACE && forall i :: 32 <= i < 99 ==> s[i] == 0x61
  {
    seq(99, i => if i == 31 then SPACE else 0x61)
  }

  lemma LongWordBreaks()
    ensures SplitAt(LongWord()) == 98 && Behind(LongWord()) == [0x61]
  {
    hide LastSpace, LongWord;
    var s := LongWord();
    assert s[98..] == [0x61];
    assert Leading([0x61]) == 0;
  }

  lemma OneCharacter(base: nat)
    ensures WrapSegment([0x61]) == [[0x61]] && Offsets([0x61], base) == [base]
  {
    var s: seq<Byte> := [0x61];
    assert s[..1] == s && s[1..] == [] && Behind(s) == [];
    PiecesUnfold(s, base);
  }

  /** 66 is the most: a word of 67 characters can be split. */
  lemma LongerWordsSplit()
    ensures NoSpace(LongWord(), 32, 99) && !InOnePiece(LongWord(), 0, 32, 99)
  {
    hide LongWord, SplitAt, Behind, WrapSegment, Offsets;
    LongWordBreaks();
    OneCharacter(98);
    PiecesUnfold(LongWord(), 0);
  }

  // ---- how many lines ----

  lemma {:induction false} FewPieces(s: seq<Byte>)
    requires s != []
    ensures 1 <= |WrapSegment(s)| <= (|s| - 1) / 32 + 1
    decreases |s|
  {
    hide LastSpace, Leading;
    var rest := Behind(s);
    if rest != [] {
      FewPieces(rest);
      assert SplitAt(s) >= 32;
    }
  }

  lemma {:induction false} FewLines(lines: seq<seq<Byte>>)
    requires lines != []
    ensures |lines| <= |WrapLines(lines)| <= (|JoinLines(lines)| - (|lines| - 1)) / 32 + |lines|
    ensures |JoinLines(lines)| >= |lines| - 1
    decreases |lines|
  {
    hide WrapSegment;
    if lines[0] != [] {
      FewPieces(lines[0]);
    }
    if |lines| > 1 {
      FewLines(lines[1..]);
    } else {
      assert WrapLines(lines[1..]) == [];
    }
  }

  /** At least a line for each newline and one more, and at most one more for every 32 characters. */
  lemma LineCount(text: seq<Byte>)
    ensures Newlines(text) + 1 <= |Wrapped(text)| <= |text| / 32 + Newlines(text) + 1
  {
    SplitJoins(text);
    FewLines(SplitLines(text));
  }

  // ---- what the lines hold ----

  predicate Fit(lines: seq<seq<Byte>>) {
    forall i :: 0 <= i < |lines| ==> |lines[i]| <= TEXT_COLUMNS
  }

  lemma {:induction false} LinesFit(lines: seq<seq<Byte>>)
    ensures Fit(WrapLines(lines))
    decreases |lines|
  {
    hide WrapSegment;
    if lines != [] {
      PiecesAndGaps(lines[0]);
      LinesFit(lines[1..]);
    }
  }

  /** No line of a text exceeds the columns, so pushing it never cuts anything off. */
  lemma NoLineIsCut(text: seq<Byte>)
    ensures Fit(Wrapped(text))
  {
    LinesFit(SplitLines(text));
  }
}
