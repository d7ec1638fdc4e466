/** Unsigned LEB128 and br_table immediates (sections 5.2.2 and 5.4.1 of the WebAssembly Core Specification). */
module Leb128 {
  import opened Bytes

  /** Every byte but the last has its high bit set. */
  predicate IsLeb(e: seq<Byte>) {
    e != [] && (if |e| == 1 then e[0] < 128 else e[0] >= 128 && IsLeb(e[1..]))
  }

  function LebValue(e: seq<Byte>): nat
    requires IsLeb(e)
  {
    if |e| == 1 then e[0] else e[0] % 128 + 128 * LebValue(e[1..])
  }

  /** Decoding at a position: the value and the position behind it. */
  function ReadLeb(code: seq<Byte>, p: nat): (r: Option<(nat, nat)>)
    ensures r.Some? ==> p < r.value.1 <= |code|
    decreases |code| - p
  {
    if p >= |code| then None
    else if code[p] < 128 then Some((code[p], p + 1))
    else
      match ReadLeb(code, p + 1)
      case None => None
      case Some((v, q)) => Some((code[p] % 128 + 128 * v, q))
  }

  lemma {:induction false} ReadsLeb(code: seq<Byte>, p: nat, e: seq<Byte>)
    requires IsLeb(e) && Holds(code, p, e)
    ensures p + |e| <= |code| && ReadLeb(code, p) == Some((LebValue(e), p + |e|))
    decreases |e|
  {
    HoldsIndex(code, p, e);
    assert code[p + 0] == e[0];
    if |e| > 1 {
      assert e == [e[0]] + e[1..];
      HoldsSplit(code, p, [e[0]], e[1..]);
      ReadsLeb(code, p + 1, e[1..]);
    }
  }

  /** The shortest encoding of a number: seven bits a byte, the lowest first. */
  function LebOf(n: nat): seq<Byte> {
    if n < 128 then [n] else [128 + n % 128] + LebOf(n / 128)
  }

  /** Every number is read back from its encoding, whatever follows. */
  lemma {:induction false} EncodedIsRead(n: nat, after: seq<Byte>)
    ensures IsLeb(LebOf(n)) && LebValue(LebOf(n)) == n
    ensures ReadLeb(LebOf(n) + after, 0) == Some((n, |LebOf(n)|))
    decreases n
  {
    hide ReadLeb;
    var e := LebOf(n);
    if n >= 128 {
      EncodedIsRead(n / 128, after);
      assert e[1..] == LebOf(n / 128);
      assert n % 128 + 128 * (n / 128) == n;
    }
    assert Holds(e + after, 0, e);
    ReadsLeb(e + after, 0, e);
  }

  lemma LebTurn(code: seq<Byte>, p: nat, weight: nat)
    requires ReadLeb(code, p).Some? && code[p] >= 128
    ensures ReadLeb(code, p + 1).Some? && ReadLeb(code, p).value.1 == ReadLeb(code, p + 1).value.1
    ensures weight * ReadLeb(code, p).value.0
            == weight * (code[p] % 128) + (weight * 128) * ReadLeb(code, p + 1).value.0
  {
    var low: int, rest := code[p] % 128, ReadLeb(code, p + 1).value.0;
    Distribute(weight, low, rest);
  }

  lemma Distribute(weight: int, low: int, rest: int)
    ensures weight * (low + 128 * rest) == weight * low + (weight * 128) * rest
  {
  }

  /** read_leb: accumulate seven bits a byte until the high bit is clear; `weight` is the shift as a factor. */
  method ReadLebUint32(code: seq<Byte>, start: nat) returns (value: nat, p: nat)
    requires ReadLeb(code, start).Some?
    ensures ReadLeb(code, start) == Some((value, p))
  {
    value, p := 0, start;
    var weight: nat := 1;
    while code[p] >= 128
      invariant start <= p < |code| && ReadLeb(code, p).Some?
      invariant ReadLeb(code, start).value.1 == ReadLeb(code, p).value.1
      invariant value + weight * ReadLeb(code, p).value.0 == ReadLeb(code, start).value.0
      decreases |code| - p
    {
      LebTurn(code, p, weight);
      value := value + weight * (code[p] % 128);
      weight := weight * 128;
      p := p + 1;
    }
    value := value + weight * code[p];
    p := p + 1;
  }

  // ---- br_table immediates ----

  /** A br_table: the count, and one depth more than that, each as an LEB. */
  datatype Table = Table(count: seq<Byte>, depths: seq<seq<Byte>>)

  predicate TableOk(t: Table) {
    && IsLeb(t.count) && |t.depths| == LebValue(t.count) + 1
    && forall i :: 0 <= i < |t.depths| ==> IsLeb(t.depths[i])
  }

  function Depth(t: Table, i: nat): nat
    requires TableOk(t) && i < |t.depths|
  {
    LebValue(t.depths[i])
  }

  /** The depth an index selects: the last one stands for every index beyond the count. */
  function Selected(t: Table, index: nat): nat
    requires TableOk(t)
  {
    Depth(t, if index > LebValue(t.count) then LebValue(t.count) else index)
  }

  /** An index in the table selects its own depth, any other the last. */
  lemma SelectsByIndex(t: Table, index: nat)
    requires TableOk(t)
    ensures index < |t.depths| ==> Selected(t, index) == LebValue(t.depths[index])
    ensures index >= |t.depths| ==> Selected(t, index) == LebValue(t.depths[|t.depths| - 1])
  {
  }

  /** The read-only dispatch: decode one LEB after another up to the selected one. */
  function DecodeNth(code: seq<Byte>, p: nat, n: nat): Option<nat>
    decreases n
  {
    match ReadLeb(code, p)
    case None => None
    case Some((v, q)) => if n == 0 then Some(v) else DecodeNth(code, q, n - 1)
  }

  lemma {:induction false} DecodesNth(code: seq<Byte>, p: nat, parts: seq<seq<Byte>>, n: nat)
    requires n < |parts| && Holds(code, p, Join(parts))
    requires forall i :: 0 <= i < |parts| ==> IsLeb(parts[i])
    ensures DecodeNth(code, p, n) == Some(LebValue(parts[n]))
    decreases n
  {
    HoldsSplit(code, p, parts[0], Join(parts[1..]));
    ReadsLeb(code, p, parts[0]);
    if n > 0 {
      DecodesNth(code, p + |parts[0]|, parts[1..], n - 1);
    }
  }

  /** The interpreter's loop over the LEBs, from behind the count. */
  method DecodeDepth(code: seq<Byte>, start: nat, lidx: nat) returns (depth: nat)
    requires DecodeNth(code, start, lidx).Some?
    ensures DecodeNth(code, start, lidx) == Some(depth)
  {
    var ip := start;
    depth := 0;
    var i := 0;
    while i <= lidx
      invariant 0 <= i <= lidx + 1
      invariant i <= lidx ==> DecodeNth(code, ip, lidx - i) == DecodeNth(code, start, lidx)
      invariant i == lidx + 1 ==> DecodeNth(code, start, lidx) == Some(depth)
    {
      depth, ip := ReadLebUint32(code, ip);
      i := i + 1;
    }
  }
}
