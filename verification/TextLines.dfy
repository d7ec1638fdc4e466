/** The table of wrapped lines and the loops that fill it (runtime/einkctl.c, lines 265-296 and 367-413). */
module TextLines {
  import opened Bytes
  import opened LineWrapper

  function Max(a: nat, b: nat): nat { if a >= b then a else b }

  /** The most rows asked of the allocator to hold `wanted` of them. */
  function Room(wanted: nat): nat { Max(64, 2 * wanted) }

  /** The line in row `i`: rows are 99 bytes apart, each a NUL-terminated string. */
  function Row(data: seq<Byte>, i: nat): CString
    requires (i + 1) * LINE_BYTES <= |data|
  {
    UpToNul(data[i * LINE_BYTES..(i + 1) * LINE_BYTES])
  }

  function Rows(data: seq<Byte>, count: nat): (r: seq<CString>)
    requires count * LINE_BYTES <= |data|
    ensures |r| == count && forall i :: 0 <= i < count ==> r[i] == Row(data, i)
  {
    seq(count, i requires 0 <= i < count => Row(data, i))
  }

  lemma {:induction false} UpToNulOf(text: seq<Byte>, rest: seq<Byte>)
    requires 0 !in text && rest != [] && rest[0] == 0
    ensures UpToNul(text + rest) == text
    decreases |text|
  {
    if text != [] {
      assert (text + rest)[1..] == text[1..] + rest;
      UpToNulOf(text[1..], rest);
    } else {
      assert text + rest == rest;
    }
  }

  /** Rows whose bytes stay as they are keep their lines. */
  lemma RowsKept(data: seq<Byte>, was: seq<Byte>, count: nat)
    requires count * LINE_BYTES <= |was| && count * LINE_BYTES <= |data|
    requires data[..count * LINE_BYTES] == was[..count * LINE_BYTES]
    ensures Rows(data, count) == Rows(was, count)
  {
    forall i | 0 <= i < count ensures Row(data, i) == Row(was, i) {
      var from, end := i * LINE_BYTES, (i + 1) * LINE_BYTES;
      PartOfFront(data, count * LINE_BYTES, from, end);
      PartOfFront(was, count * LINE_BYTES, from, end);
    }
  }

  lemma PartOfFront(s: seq<Byte>, n: nat, from: nat, end: nat)
    requires from <= end <= n <= |s|
    ensures s[from..end] == s[..n][from..end]
  {
  }

  class LineTable {
    var data: array<Byte>
    var count: nat
    var capacity: nat
    const limit: nat  // the largest block the allocator has to give

    ghost predicate Valid()
      reads this
    {
      data.Length == capacity * LINE_BYTES && count <= capacity
    }

    ghost function Lines(): seq<CString>
      requires Valid()
      reads this, data
    {
      Rows(data[..], count)
    }

    constructor (limit: nat)
      ensures Valid() && Lines() == [] && this.limit == limit && fresh(data)
    {
      this.limit := limit;
      data := new Byte[0];
      count, capacity := 0, 0;
    }

    /** Every row as the string it holds. */
    method Read() returns (lines: seq<CString>)
      requires Valid()
      ensures lines == Lines()
    {
      lines := Rows(data[..], count);
    }

    /** lines_reserve: room for `wanted` rows, by doubling. */
    method Reserve(wanted: nat) returns (ok: bool)
      requires Valid()
      modifies this`data, this`capacity
      ensures Valid() && Lines() == old(Lines())
      ensures data == old(data) || fresh(data)
      ensures if ok then wanted <= capacity <= Max(old(capacity), Room(wanted))
              else capacity == old(capacity) && limit < Room(wanted) * LINE_BYTES
    {
      if wanted <= capacity {
        return true;
      }
      var next := if capacity > 0 then capacity else 64;
      while next < wanted
        invariant 0 < next <= Room(wanted) && next >= capacity
        decreases if next < wanted then wanted - next else 0
      {
        next := next * 2;
      }
      if next * LINE_BYTES > limit {
        return false;
      }
      ghost var was := data[..];
      var grown := new Byte[next * LINE_BYTES];
      var i := 0;
      while i < data.Length
        invariant 0 <= i <= data.Length && grown[..i] == was[..i]
        invariant data[..] == was
        modifies grown
      {
        grown[i] := data[i];
        i := i + 1;
      }
      RowsKept(grown[..], was, count) by {
        assert grown[..][..count * LINE_BYTES] == grown[..i][..count * LINE_BYTES];
        assert was[..i][..count * LINE_BYTES] == was[..count * LINE_BYTES];
      }
      data := grown;
      capacity := next;
      ok := true;
    }

    /** lines_push: at most 98 characters of the text as one more line. */
    method Push(text: CString) returns (ok: bool)
      requires Valid()
      modifies this, data
      ensures Valid() && (data == old(data) || fresh(data))
      ensures Lines() == if ok then old(Lines()) + [text[..Min(|text|, TEXT_COLUMNS)]] else old(Lines())
      ensures !ok ==> limit < Room(count + 1) * LINE_BYTES
    {
      hide UpToNul, Row, Rows;
      var length := |text|;
      if length > TEXT_COLUMNS {
        length := TEXT_COLUMNS;
      }
      ok := Reserve(count + 1);
      if !ok {
        return;
      }
      PutRow(data, count, text[..length]);
      count := count + 1;
    }
  }

  lemma RowsGrow(data: seq<Byte>, count: nat)
    requires (count + 1) * LINE_BYTES <= |data|
    ensures Rows(data, count + 1) == Rows(data, count) + [Row(data, count)]
  {
    hide Row;
  }

  /** Copying a string and its terminator into a row. */
  method PutRow(data: array<Byte>, row: nat, text: CString)
    requires (row + 1) * LINE_BYTES <= data.Length && |text| < LINE_BYTES
    modifies data
    ensures Rows(data[..], row + 1) == Rows(old(data[..]), row) + [text]
  {
    hide Row, Rows;
    var destination := row * LINE_BYTES;
    ghost var was := data[..];
    var i := 0;
    while i < |text|
      invariant 0 <= i <= |text|
      invariant data[..destination] == was[..destination] && data[destination..destination + i] == text[..i]
    {
      data[destination + i] := text[i];
      i := i + 1;
    }
    data[destination + |text|] := 0;
    assert data[..][..destination] == was[..destination];
    RowsKept(data[..], was, row);
    RowWritten(data[..], row, text);
    RowsGrow(data[..], row);
  }

  lemma RowWritten(data: seq<Byte>, i: nat, text: seq<Byte>)
    requires (i + 1) * LINE_BYTES <= |data| && |text| < LINE_BYTES && 0 !in text
    requires data[i * LINE_BYTES..i * LINE_BYTES + |text|] == text && data[i * LINE_BYTES + |text|] == 0
    ensures Row(data, i) == text
  {
    hide UpToNul;
    var row := data[i * LINE_BYTES..(i + 1) * LINE_BYTES];
    var rest := data[i * LINE_BYTES + |text|..(i + 1) * LINE_BYTES];
    assert row == text + rest;
    UpToNulOf(text, rest);
  }

  /** Looking back for a space to break at. */
  method FindSplit(text: seq<Byte>, cursor: nat, physicalEnd: nat) returns (split: nat)
    requires cursor < physicalEnd <= |text|
    ensures split == SplitAt(text[cursor..physicalEnd])
  {
    hide LastSpace;
    ghost var s := text[cursor..physicalEnd];
    var remaining := physicalEnd - cursor;
    var take := if remaining > TEXT_COLUMNS then TEXT_COLUMNS else remaining;
    split := take;
    if take < remaining {
      while split > 0 && text[cursor + split] != SPACE
        invariant 0 <= split <= take
        invariant LastSpace(s, split) == LastSpace(s, take)
      {
        assert s[split] == text[cursor + split];
        LastSpaceTurn(s, split);
        split := split - 1;
      }
      assert s[split] == text[cursor + split];
      LastSpaceTurn(s, split);
      if split < TEXT_COLUMNS / 3 {
        split := take;
      }
    }
  }

  method SkipSpaces(text: seq<Byte>, start: nat, end: nat) returns (next: nat)
    requires start <= end <= |text|
    ensures next == start + Leading(text[start..end])
  {
    hide Leading;
    next := start;
    while next < end && text[next] == SPACE
      invariant start <= next <= end
      invariant next + Leading(text[next..end]) == start + Leading(text[start..end])
    {
      assert text[next..end][1..] == text[next + 1..end];
      LeadingTurn(text[next..end]);
      next := next + 1;
    }
    LeadingTurn(text[next..end]);
  }

  /** One piece: how much of the segment the line takes, and where the next one starts. */
  method NextPiece(text: seq<Byte>, cursor: nat, physicalEnd: nat) returns (take: nat, next: nat)
    requires cursor < physicalEnd <= |text|
    ensures take == SplitAt(text[cursor..physicalEnd])
    ensures cursor < next <= physicalEnd && text[next..physicalEnd] == Behind(text[cursor..physicalEnd])
  {
    hide SplitAt, Leading;
    ghost var s := text[cursor..physicalEnd];
    var remaining := physicalEnd - cursor;
    take := if remaining > TEXT_COLUMNS then TEXT_COLUMNS else remaining;
    var split := FindSplit(text, cursor, physicalEnd);
    while take > 0 && text[cursor + take - 1] == SPACE
      invariant 0 <= take <= remaining
    {
      take := take - 1;
    }
    if split != take && split != 0 {
      take := split;
    }
    next := cursor + if split != 0 then split else take;
    assert s[split..] == text[next..physicalEnd];
    ghost var lead := Leading(s[split..]);
    assert s[split..][lead..] == text[next + lead..physicalEnd];
    next := SkipSpaces(text, next, physicalEnd);
  }

  lemma LastSpaceTurn(s: seq<Byte>, k: nat)
    requires k < |s|
    ensures LastSpace(s, k) == if k == 0 || s[k] == SPACE then k else LastSpace(s, k - 1)
  {
  }

  lemma LeadingTurn(s: seq<Byte>)
    ensures Leading(s) == if s == [] || s[0] != SPACE then 0 else 1 + Leading(s[1..])
  {
  }

  /** wrap_text. It fails only when the table cannot grow to hold the lines. */
  method WrapText(text: CString, lines: LineTable) returns (ok: bool)
    requires lines.Valid() && lines.Lines() == []
    modifies lines, lines.data
    ensures lines.Valid() && (lines.data == old(lines.data) || fresh(lines.data))
    ensures ok ==> lines.Lines() == Wrapped(text)
    ensures !ok ==> lines.limit < Room(|Wrapped(text)|) * LINE_BYTES
  {
    hide SplitLines, WrapLines, WrapLine, Wrapped;
    ghost var first := lines.data;
    var start := 0;
    SplitStart(text);
    Nothing(Wrapped(text));
    while start < |text|
      invariant 0 <= start <= |text| && lines.Valid() && (lines.data == first || fresh(lines.data))
      invariant lines.Lines() + Remaining(text, start) == Wrapped(text)
      decreases |text| - start
    {
      var physicalEnd := start;
      while physicalEnd < |text| && text[physicalEnd] != NEWLINE
        invariant start <= physicalEnd <= |text| && NEWLINE !in text[start..physicalEnd]
      {
        physicalEnd := physicalEnd + 1;
      }
      LineTurn(text, start, physicalEnd, lines.Lines());
      ok := WrapSegmentInto(text, start, physicalEnd, lines);
      if !ok {
        return;
      }
      start := physicalEnd;
      if start < |text| && text[start] == NEWLINE {
        start := start + 1;
      }
    }
    assert text[start..] == [];
    if |text| == 0 || text[|text| - 1] == NEWLINE {
      ok := lines.Push([]);
    } else {
      ok := true;
      assert lines.Lines() + [] == lines.Lines();
    }
  }

  lemma Nothing(lines: seq<seq<Byte>>)
    ensures [] + lines == lines
  {
  }

  /** What is still to come when the loop stands at `start`: nothing after a last line without a newline. */
  function Remaining(text: seq<Byte>, start: nat): seq<seq<Byte>>
    requires start <= |text|
  {
    if start == |text| && start > 0 && text[start - 1] != NEWLINE then [] else Wrapped(text[start..])
  }

  lemma SplitStart(text: seq<Byte>)
    ensures text[0..] == text
    ensures Wrapped([]) == [[]]
  {
  }

  lemma LineTurn(text: seq<Byte>, start: nat, end: nat, done: seq<seq<Byte>>)
    requires start < |text| && start <= end <= |text|
    requires NEWLINE !in text[start..end] && (end < |text| ==> text[end] == NEWLINE)
    ensures var next := if end < |text| then end + 1 else end;
            done + WrapLine(text[start..end]) + Remaining(text, next) == done + Wrapped(text[start..])
  {
    hide WrapLine, SplitLines;
    var rest := text[start..];
    SplitFirst(rest, end - start);
    assert rest[..end - start] == text[start..end];
    if end < |text| {
      assert rest[end - start + 1..] == text[end + 1..];
      assert SplitLines(rest)[1..] == SplitLines(text[end + 1..]);
      Assoc(done, WrapLine(text[start..end]), Wrapped(text[end + 1..]));
    } else {
      assert text[end - 1] == text[start..end][end - 1 - start];
      assert rest == text[start..end];
      assert SplitLines(rest)[1..] == [];
      assert WrapLines(SplitLines(rest)) == WrapLine(rest) + [];
    }
  }

  /** The lines of one segment. */
  method WrapSegmentInto(text: CString, start: nat, physicalEnd: nat, lines: LineTable) returns (ok: bool)
    requires lines.Valid() && start <= physicalEnd <= |text|
    modifies lines, lines.data
    ensures lines.Valid() && (lines.data == old(lines.data) || fresh(lines.data))
    ensures ok ==> lines.Lines() == old(lines.Lines()) + WrapLine(text[start..physicalEnd])
    ensures !ok ==> lines.limit < Room(|old(lines.Lines())| + |WrapLine(text[start..physicalEnd])|) * LINE_BYTES
  {
    hide SplitAt, Behind, Rows, Row;
    ghost var first, was := lines.data, lines.Lines();
    if physicalEnd == start {
      ok := lines.Push([]);
    } else {
      var cursor := start;
      ok := true;
      while cursor < physicalEnd
        invariant start <= cursor <= physicalEnd && lines.Valid() && (lines.data == first || fresh(lines.data))
        invariant lines.Lines() + WrapSegment(text[cursor..physicalEnd]) == was + WrapSegment(text[start..physicalEnd])
      {
        ghost var s := text[cursor..physicalEnd];
        var take, next := NextPiece(text, cursor, physicalEnd);
        assert text[cursor..cursor + take] == s[..take];
        PiecesUnfold(s, 0);
        ghost var done := lines.Lines();
        ok := lines.Push(text[cursor..cursor + take]);
        if !ok {
          return;
        }
        assert text[cursor..cursor + take][..Min(take, TEXT_COLUMNS)] == s[..take];
        Assoc<seq<Byte>>(done, [s[..take]], WrapSegment(Behind(s)));
        cursor := next;
      }
    }
  }
}
