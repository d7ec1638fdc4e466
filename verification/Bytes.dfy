/** Bytes, NUL-terminated strings and occurrences of one byte string inside another. */
module Bytes {

  type Byte = b: int | 0 <= b < 256

  /** What a `char *` denotes: the bytes before its terminating NUL. */
  type CString = s: seq<Byte> | 0 !in s

  datatype Option<+T> = None | Some(value: T)

  const TAB: Byte := 0x09
  const NEWLINE: Byte := 0x0a
  const RETURN: Byte := 0x0d
  const SPACE: Byte := 0x20
  const QUOTE: Byte := 0x22
  const COMMA: Byte := 0x2c
  const COLON: Byte := 0x3a
  const QUESTION: Byte := 0x3f
  const BACKSLASH: Byte := 0x5c

  /** Reading a C string at a cursor: the terminator is readable, nothing beyond it is. */
  function At(s: CString, p: nat): Byte
    requires p <= |s|
  {
    if p < |s| then s[p] else 0
  }

  /** The bytes of an ASCII literal. */
  function Ascii(text: string): (c: CString)
    requires forall i :: 0 <= i < |text| ==> 0 < text[i] as int < 128
    ensures |c| == |text|
  {
    seq(|text|, i requires 0 <= i < |text| => text[i] as int)
  }

  /** What the string functions see of a byte array: everything before the first NUL. */
  function UpToNul(s: seq<Byte>): (c: CString)
    ensures c <= s
    ensures |c| < |s| ==> s[|c|] == 0
    ensures 0 !in s ==> c == s
  {
    if s == [] || s[0] == 0 then [] else [s[0]] + UpToNul(s[1..])
  }

  function Decimal(n: nat): (s: CString) {
    if n < 10 then [0x30 + n] else Decimal(n / 10) + [0x30 + n % 10]
  }

  function Min(a: nat, b: nat): nat { if a <= b then a else b }

  function Join(parts: seq<seq<Byte>>): seq<Byte> {
    if parts == [] then [] else parts[0] + Join(parts[1..])
  }

  lemma {:induction false} JoinSplit(parts: seq<seq<Byte>>, i: nat)
    requires i <= |parts|
    ensures Join(parts) == Join(parts[..i]) + Join(parts[i..])
    ensures i < |parts| ==> Join(parts[..i + 1]) == Join(parts[..i]) + parts[i]
    decreases i
  {
    if i == 0 {
      assert parts[0..] == parts;
      if parts != [] {
        assert parts[..1] == [parts[0]];
        assert Join([parts[0]]) == parts[0] + Join([parts[0]][1..]);
      }
    } else {
      JoinSplit(parts[1..], i - 1);
      assert parts[..i][1..] == parts[1..][..i - 1];
      assert parts[1..][i - 1..] == parts[i..];
      if i < |parts| {
        assert parts[..i + 1][1..] == parts[1..][..i];
      }
    }
  }

  lemma Assoc<T>(a: seq<T>, b: seq<T>, c: seq<T>)
    ensures (a + b) + c == a + (b + c)
  {
  }

  /** `part` occurs in `s` at position `p`. */
  predicate Holds(s: seq<Byte>, p: nat, part: seq<Byte>) {
    p + |part| <= |s| && s[p..p + |part|] == part
  }

  lemma HoldsIndex(s: seq<Byte>, p: nat, part: seq<Byte>)
    requires Holds(s, p, part)
    ensures p + |part| <= |s|
    ensures forall i :: 0 <= i < |part| ==> s[p + i] == part[i]
  {
    forall i | 0 <= i < |part| ensures s[p + i] == part[i] {
      assert s[p..p + |part|][i] == part[i];
    }
  }

  lemma HoldsSplit(s: seq<Byte>, p: nat, a: seq<Byte>, b: seq<Byte>)
    requires Holds(s, p, a + b)
    ensures Holds(s, p, a) && Holds(s, p + |a|, b)
  {
    HoldsIndex(s, p, a + b);
    forall i | 0 <= i < |a| ensures s[p + i] == a[i] {
      assert (a + b)[i] == a[i];
    }
    assert s[p..p + |a|] == a;
    forall i | 0 <= i < |b| ensures s[p + |a| + i] == b[i] {
      assert (a + b)[|a| + i] == b[i];
    }
    assert s[p + |a|..p + |a| + |b|] == b;
  }

  lemma HoldsJoin(s: seq<Byte>, p: nat, a: seq<Byte>, b: seq<Byte>)
    requires Holds(s, p, a) && Holds(s, p + |a|, b)
    ensures Holds(s, p, a + b)
  {
    assert s[p..p + |a + b|] == s[p..p + |a|] + s[p + |a|..p + |a| + |b|];
  }

  /** The parts of what is held are held one behind the other. */
  lemma HoldsBoth(s: seq<Byte>, p: nat, a: seq<Byte>, b: seq<Byte>)
    ensures Holds(s, p, a + b) <==> Holds(s, p, a) && Holds(s, p + |a|, b)
  {
    hide Holds;
    if Holds(s, p, a + b) {
      HoldsSplit(s, p, a, b);
    } else if Holds(s, p, a) && Holds(s, p + |a|, b) {
      HoldsJoin(s, p, a, b);
    }
  }

  predicate ByteAt(s: seq<Byte>, p: nat, b: Byte) { p < |s| && s[p] == b }

  lemma OneByte(s: seq<Byte>, p: nat, b: Byte)
    ensures ByteAt(s, p, b) <==> Holds(s, p, [b])
  {
    if Holds(s, p, [b]) {
      HoldsIndex(s, p, [b]);
      assert s[p + 0] == b;
    }
  }

  lemma HoldsFour(s: seq<Byte>, p: nat, a: seq<Byte>, b: seq<Byte>, c: seq<Byte>, d: seq<Byte>)
    ensures Holds(s, p, a + b + c + d)
       <==> && Holds(s, p, a)
            && Holds(s, p + |a|, b)
            && Holds(s, p + |a| + |b|, c)
            && Holds(s, p + |a| + |b| + |c|, d)
  {
    hide Holds;
    HoldsBoth(s, p, a + b + c, d);
    HoldsBoth(s, p, a + b, c);
    HoldsBoth(s, p, a, b);
  }

  /** A buffer's filled part once `part` was written behind its first `n` bytes. */
  lemma HoldsExtends(s: seq<Byte>, n: nat, part: seq<Byte>)
    requires n + |part| <= |s| && forall i :: 0 <= i < |part| ==> s[n + i] == part[i]
    ensures s[..n + |part|] == s[..n] + part
  {
    assert s[n..n + |part|] == part;
  }

  lemma HoldsThree(a: seq<Byte>, b: seq<Byte>, c: seq<Byte>)
    ensures Holds(a + b + c, 0, a) && Holds(a + b + c, |a|, b) && Holds(a + b + c, |a| + |b|, c)
  {
  }
}
