/** How the loader prepares a br_table in writable code (guest/wamr-readonly.patch, loader hunks). */
module TableLoader {
  import opened Bytes
  import opened Leb128

  const WASM_OP_NOP: Byte := 0x01
  const WASM_OP_BR_TABLE: Byte := 0x0e

  /** The depths of one br_table kept out of line, found again by the address of its opcode. */
  datatype BrTableCache = BrTableCache(opAddr: nat, depths: seq<nat>)

  /** Every depth fits one byte. */
  predicate Small(t: Table)
    requires TableOk(t)
  {
    forall i :: 0 <= i < |t.depths| ==> Depth(t, i) <= 255
  }

  function Depths(t: Table): (d: seq<nat>)
    requires TableOk(t)
    ensures |d| == |t.depths|
  {
    seq(|t.depths|, i requires 0 <= i < |t.depths| => Depth(t, i))
  }

  lemma {:induction false} JoinLength(parts: seq<seq<Byte>>)
    requires forall i :: 0 <= i < |parts| ==> IsLeb(parts[i])
    ensures |Join(parts)| >= |parts|
  {
    if parts != [] {
      JoinLength(parts[1..]);
    }
  }

  /** What the depth bytes become: the depths, one byte each, or nothing; then padding. */
  function CompactBytes(t: Table): (r: seq<Byte>)
    requires TableOk(t)
    ensures |r| == |Join(t.depths)|
  {
    JoinLength(t.depths);
    seq(|Join(t.depths)|, i requires 0 <= i < |Join(t.depths)| =>
                            if Small(t) && i < |t.depths| then Depth(t, i) as Byte else WASM_OP_NOP)
  }

  /** The opcode byte a prepared table starts with. */
  function PreparedOpcode(t: Table, cacheOp: Byte): Byte
    requires TableOk(t)
  {
    if Small(t) then WASM_OP_BR_TABLE else cacheOp
  }

  lemma SlotFits(t: Table, i: nat)
    requires TableOk(t) && i < |t.depths|
    ensures i <= |Join(t.depths[..i])|
    ensures |Join(t.depths[..i])| + |t.depths[i]| == |Join(t.depths[..i + 1])| <= |Join(t.depths)|
  {
    JoinLength(t.depths[..i]);
    JoinSplit(t.depths, i);
    JoinSplit(t.depths, i + 1);
  }

  /** Reading the i-th LEB of a table whose remaining bytes are still in place. */
  lemma ReadsNext(code: seq<Byte>, begin: nat, t: Table, i: nat)
    requires TableOk(t) && i < |t.depths|
    requires Holds(code, begin + |Join(t.depths[..i])|, Join(t.depths[i..]))
    ensures var p := begin + |Join(t.depths[..i])|;
            && ReadLeb(code, p) == Some((Depth(t, i), begin + |Join(t.depths[..i + 1])|))
            && Holds(code, begin + |Join(t.depths[..i + 1])|, Join(t.depths[i + 1..]))
  {
    var p := begin + |Join(t.depths[..i])|;
    assert t.depths[i..][0] == t.depths[i] && t.depths[i..][1..] == t.depths[i + 1..];
    HoldsSplit(code, p, t.depths[i], Join(t.depths[i + 1..]));
    JoinSplit(t.depths, i);
    ReadsLeb(code, p, t.depths[i]);
  }

  /** Bytes from `p` on are as they were, so what is held there still is. */
  lemma HoldsOn(code: seq<Byte>, was: seq<Byte>, p: nat, part: seq<Byte>)
    requires |code| == |was| && Holds(was, p, part)
    requires forall k :: p <= k < |was| ==> code[k] == was[k]
    ensures Holds(code, p, part)
  {
    assert code[p..p + |part|] == was[p..p + |part|];
  }

  /** The state of the loop over the depths, after `i` of them. */
  ghost predicate Prepared(code: seq<Byte>, was: seq<Byte>, opAddr: nat, begin: nat, t: Table, i: nat,
                           pDepth: nat, cache: Option<seq<nat>>, cacheOp: Byte)
    requires TableOk(t) && i <= |t.depths|
  {
    var p := begin + |Join(t.depths[..i])|;
    && |code| == |was| && opAddr < begin && p <= |code|
    && (forall k :: 0 <= k < |code| && (k < begin || p <= k) && k != opAddr ==> code[k] == was[k])
    && (match cache
        case None =>
          && pDepth == begin + i <= p && code[opAddr] == was[opAddr]
          && forall k :: 0 <= k < i ==> Depth(t, k) <= 255 && code[begin + k] == Depth(t, k)
        case Some(depths) =>
          && code[opAddr] == cacheOp && |depths| == i
          && (forall k :: 0 <= k < i ==> depths[k] == Depth(t, k))
          && exists k :: 0 <= k < i && Depth(t, k) > 255)
  }

  /** Copying the one-byte depths written so far into the new cache. */
  method CopyDepths(code: array<Byte>, begin: nat, i: nat, ghost t: Table) returns (depths: seq<nat>)
    requires TableOk(t) && i <= |t.depths| && begin + i <= code.Length
    requires forall k :: 0 <= k < i ==> code[begin + k] == Depth(t, k)
    ensures |depths| == i && forall k :: 0 <= k < i ==> depths[k] == Depth(t, k)
  {
    depths := [];
    var j := 0;
    while j < i
      invariant j <= i && |depths| == j && forall k :: 0 <= k < j ==> depths[k] == Depth(t, k)
    {
      depths := depths + [code[begin + j] as nat];
      j := j + 1;
    }
  }

  /**
   * One depth: kept in the cache, or the reason for one, or written over the bytes already read. The write
   * position never passes the read position.
   */
  method PrepareDepth(code: array<Byte>, ghost was: seq<Byte>, opAddr: nat, begin: nat, ghost t: Table, i: nat,
                      p: nat, pDepth: nat, cache: Option<seq<nat>>, cacheOp: Byte)
    returns (p': nat, pDepth': nat, cache': Option<seq<nat>>)
    requires TableOk(t) && i < |t.depths| && p == begin + |Join(t.depths[..i])|
    requires Prepared(code[..], was, opAddr, begin, t, i, pDepth, cache, cacheOp)
    requires Holds(was, begin, Join(t.depths))
    modifies code
    ensures p' == begin + |Join(t.depths[..i + 1])|
    ensures Prepared(code[..], was, opAddr, begin, t, i + 1, pDepth', cache', cacheOp)
  {
    hide Join, IsLeb, LebValue, ReadLeb, Holds;
    SlotFits(t, i);
    JoinSplit(t.depths, i);
    HoldsSplit(was, begin, Join(t.depths[..i]), Join(t.depths[i..]));
    HoldsOn(code[..], was, p, Join(t.depths[i..]));
    ReadsNext(code[..], begin, t, i);
    var depth;
    depth, p' := ReadLebUint32(code[..], p);
    cache', pDepth' := cache, pDepth;
    match cache {
      case Some(depths) =>
        cache' := Some(depths + [depth]);
      case None =>
        if depth > 255 {
          var depths := CopyDepths(code, begin, i, t);
          code[opAddr] := cacheOp;
          cache' := Some(depths + [depth]);
        } else {
          code[pDepth] := depth;
          pDepth' := pDepth + 1;
        }
    }
  }

  /** A table in prepared code: its opcode, its count untouched, its depth bytes replaced. */
  ghost predicate PreparedCode(code: seq<Byte>, was: seq<Byte>, opAddr: nat, begin: nat, t: Table, cacheOp: Byte)
    requires TableOk(t)
  {
    var end := begin + |Join(t.depths)|;
    && |code| == |was| && opAddr < begin && end <= |code|
    && code[opAddr] == (if Small(t) then was[opAddr] else cacheOp)
    && Holds(code, begin, CompactBytes(t))
    && forall k :: 0 <= k < |code| && (k < begin || end <= k) && k != opAddr ==> code[k] == was[k]
  }

  /** The loader on one br_table in writable code, from behind its count. */
  method PrepareTable(code: array<Byte>, opAddr: nat, begin: nat, ghost t: Table, count: nat, cacheOp: Byte)
    returns (p: nat, cache: Option<BrTableCache>)
    requires TableOk(t) && count == LebValue(t.count) && opAddr < begin
    requires Holds(code[..], begin, Join(t.depths))
    modifies code
    ensures p == begin + |Join(t.depths)|
    ensures PreparedCode(code[..], old(code[..]), opAddr, begin, t, cacheOp)
    ensures cache == if Small(t) then None else Some(BrTableCache(opAddr, Depths(t)))
  {
    hide Join, IsLeb, LebValue;
    ghost var was := code[..];
    var pDepth := begin;
    var depths: Option<seq<nat>> := None;
    p := begin;
    NoDepths(was, begin, t);
    var i := 0;
    while i <= count
      invariant 0 <= i <= count + 1 && p == begin + |Join(t.depths[..i])|
      invariant Prepared(code[..], was, opAddr, begin, t, i, pDepth, depths, cacheOp)
    {
      p, pDepth, depths := PrepareDepth(code, was, opAddr, begin, t, i, p, pDepth, depths, cacheOp);
      i := i + 1;
    }
    assert t.depths[..i] == t.depths;
    if depths.Some? {
      pDepth := begin;
    }
    p := PadTable(code, was, opAddr, begin, t, p, pDepth, depths, cacheOp);
    cache := None;
    if depths.Some? {
      assert depths.value == Depths(t);
      cache := Some(BrTableCache(opAddr, depths.value));
    }
  }

  lemma NoDepths(was: seq<Byte>, begin: nat, t: Table)
    requires TableOk(t) && Holds(was, begin, Join(t.depths))
    ensures Join(t.depths[..0]) == [] && begin <= |was|
  {
  }

  /** The tail of the depth bytes, or all of them when there is a cache, becomes no-ops. */
  method PadTable(code: array<Byte>, ghost was: seq<Byte>, opAddr: nat, begin: nat, ghost t: Table, end: nat,
                  start: nat, depths: Option<seq<nat>>, cacheOp: Byte) returns (p: nat)
    requires TableOk(t) && t.depths[..|t.depths|] == t.depths && end == begin + |Join(t.depths)|
    requires exists pDepth :: Prepared(code[..], was, opAddr, begin, t, |t.depths|, pDepth, depths, cacheOp)
                              && (if depths.Some? then start == begin else start == pDepth)
    modifies code
    ensures p == end && PreparedCode(code[..], was, opAddr, begin, t, cacheOp)
    ensures depths.Some? <==> !Small(t)
  {
    hide Join, IsLeb, LebValue;
    p := end;
    ghost var before := code[..];
    var at := start;
    while at < end
      invariant start <= at <= end
      invariant forall k :: start <= k < at ==> code[k] == WASM_OP_NOP
      invariant forall k :: 0 <= k < code.Length && !(start <= k < at) ==> code[k] == before[k]
    {
      code[at] := WASM_OP_NOP;
      at := at + 1;
    }
    assert depths.Some? <==> !Small(t);
    forall i | 0 <= i < end - begin ensures code[begin + i] == CompactBytes(t)[i] {
      if i < |t.depths| && Small(t) {
        assert before[begin + i] == Depth(t, i);
      }
    }
    assert code[..][begin..end] == CompactBytes(t);
  }
}
