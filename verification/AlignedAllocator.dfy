/**
 * The aligned allocator over malloc, realloc and free, with its hidden header word
 * (guest/compact-allocator.zig). All its bookkeeping is in the guest's bytes.
 */
module AlignedAllocator {
  import opened Bytes
  import opened Alignment
  import opened ByteStore

  const WORD: nat := 4

  // ---- words in memory ----

  function ReadWord(mem: seq<Byte>, p: nat): nat
    requires p + WORD <= |mem|
  {
    mem[p] + 256 * (mem[p + 1] as nat) + 65536 * (mem[p + 2] as nat) + 16777216 * (mem[p + 3] as nat)
  }

  function WriteWord(mem: seq<Byte>, p: nat, v: nat): (r: seq<Byte>)
    requires p + WORD <= |mem| && v <= USIZE_MAX
    ensures |r| == |mem|
  {
    Put(Put(Put(Put(mem, p, v % 256), p + 1, v / 256 % 256), p + 2, v / 65536 % 256), p + 3, v / 16777216)
  }

  lemma WordRoundTrip(mem: seq<Byte>, p: nat, v: nat)
    requires p + WORD <= |mem| && v <= USIZE_MAX
    ensures ReadWord(WriteWord(mem, p, v), p) == v
    ensures forall i :: 0 <= i < |mem| && !(p <= i < p + WORD) ==> WriteWord(mem, p, v)[i] == mem[i]
  {
    assert v / 65536 == v / 256 / 256;
    assert v / 16777216 == v / 256 / 256 / 256;
  }

  // ---- the state ----

  datatype Block = Block(ptr: nat, len: nat, align: nat)

  /** Guest memory, malloc's live blocks with their usable sizes, and the slices clients hold. */
  datatype State = State(mem: seq<Byte>, heap: map<nat, nat>, live: map<nat, Block>)

  /** What malloc or realloc answers: a block, its usable size, and memory as the call leaves it. */
  datatype Answer = Answer(base: nat, usable: nat, mem: seq<Byte>)

  function Effective(align: nat): (a: nat)
    ensures a >= WORD
  {
    if align > WORD then align else WORD
  }

  function Total(len: nat, align: nat): (t: nat)
    ensures t >= len + 2 * WORD
  {
    len + Effective(align) + WORD
  }

  function Address(base: nat, align: nat): (p: nat)
    ensures base + WORD <= p < base + WORD + Effective(align)
  {
    AlignUp(base + WORD, Effective(align))
  }

  /** The base a slice's header names. */
  function Base(mem: seq<Byte>, b: Block): nat {
    if WORD <= b.ptr <= |mem| then ReadWord(mem, b.ptr - WORD) else 0
  }

  // ---- the invariant ----

  ghost predicate HeapOk(heap: map<nat, nat>, limit: nat) {
    && (forall base :: base in heap ==> 0 < base && 2 * WORD <= heap[base] && base + heap[base] <= limit)
    && (forall p, q :: p in heap && q in heap && p != q ==> RangesApart(p, heap[p], q, heap[q]))
  }

  /** A slice with its header just below it, both inside the malloc block the header names. */
  ghost predicate BlockOk(mem: seq<Byte>, heap: map<nat, nat>, b: Block) {
    && WORD <= b.ptr <= |mem|
    && Base(mem, b) in heap
    && b.ptr % Effective(b.align) == 0
    && Base(mem, b) + WORD <= b.ptr < Base(mem, b) + WORD + Effective(b.align)
    && b.ptr + b.len <= Base(mem, b) + heap[Base(mem, b)]
  }

  /** Every live slice has a malloc block of its own, and every malloc block has its slice. */
  ghost predicate Safe(s: State) {
    && |s.mem| <= USIZE_MAX
    && HeapOk(s.heap, |s.mem|)
    && (forall id :: id in s.live ==> BlockOk(s.mem, s.heap, s.live[id]))
    && (forall i, j :: i in s.live && j in s.live && i != j ==> Base(s.mem, s.live[i]) != Base(s.mem, s.live[j]))
    && (forall base :: base in s.heap ==> exists id :: id in s.live && Base(s.mem, s.live[id]) == base)
  }

  // ---- what malloc, realloc and free promise ----

  /** Two memories agree on every malloc block except possibly one. */
  ghost predicate AgreeBut(heap: map<nat, nat>, m: seq<Byte>, n: seq<Byte>, except: Option<nat>) {
    && |m| == |n|
    && forall base :: base in heap && Some(base) != except && base + heap[base] <= |m| ==>
         m[base..base + heap[base]] == n[base..base + heap[base]]
  }

  ghost predicate FreshRange(heap: map<nat, nat>, except: Option<nat>, base: nat, usable: nat) {
    forall q :: q in heap && Some(q) != except ==> RangesApart(base, usable, q, heap[q])
  }

  /** malloc: a block of at least the size asked for, disjoint from all live blocks, whose bytes it leaves alone. */
  ghost predicate MallocOk(s: State, total: nat, answer: Option<Answer>) {
    answer.Some? ==>
      && 0 < answer.value.base && total <= answer.value.usable
      && answer.value.base + answer.value.usable <= |s.mem|
      && FreshRange(s.heap, None, answer.value.base, answer.value.usable)
      && AgreeBut(s.heap, s.mem, answer.value.mem, None)
  }

  /** realloc: as malloc, but the new block may overlap the old one, and starts with the old one's usable bytes. */
  ghost predicate ReallocOk(s: State, was: nat, total: nat, answer: Option<Answer>)
    requires was in s.heap && was + s.heap[was] <= |s.mem|
  {
    answer.Some? ==>
      && 0 < answer.value.base && total <= answer.value.usable
      && answer.value.base + answer.value.usable <= |s.mem|
      && FreshRange(s.heap, Some(was), answer.value.base, answer.value.usable)
      && AgreeBut(s.heap, s.mem, answer.value.mem, Some(was))
      && (var n := Min(s.heap[was], total);
          answer.value.mem[answer.value.base..answer.value.base + n] == s.mem[was..was + n])
  }

  datatype Event =
    | DoAlloc(id: nat, len: nat, align: nat, answer: Option<Answer>)
    | DoResize(id: nat, newLen: nat)
    | DoRemap(id: nat, newLen: nat, answer: Option<Answer>)
    | DoFree(id: nat, after: seq<Byte>)
    | DoWrite(id: nat, index: nat, b: Byte)

  lemma SafeBase(s: State, id: nat)
    requires Safe(s) && id in s.live
    ensures var b := s.live[id];
            && WORD <= b.ptr <= |s.mem|
            && (var base := Base(s.mem, b); base in s.heap && base + s.heap[base] <= |s.mem|)
  {
    assert BlockOk(s.mem, s.heap, s.live[id]);
  }

  ghost predicate Allowed(s: State, e: Event)
    requires Safe(s)
  {
    match e
    case DoAlloc(id, len, align, answer) => id !in s.live && align > 0 && MallocOk(s, Total(len, align), answer)
    case DoResize(id, _) => id in s.live
    case DoRemap(id, newLen, answer) =>
      id in s.live && (SafeBase(s, id);
      ReallocOk(s, Base(s.mem, s.live[id]), Total(newLen, s.live[id].align), answer))
    case DoFree(id, after) =>
      id in s.live && (SafeBase(s, id); AgreeBut(s.heap, s.mem, after, Some(Base(s.mem, s.live[id]))))
    case DoWrite(id, index, _) => id in s.live && index < s.live[id].len
  }

  // ---- the operations, reading what they need from the header ----

  /** resize: whether the new length fits the block behind the slice. */
  function ResizeFits(mem: seq<Byte>, heap: map<nat, nat>, b: Block, newLen: nat): bool
    requires WORD <= b.ptr <= |mem| && Base(mem, b) in heap && b.ptr <= Base(mem, b) + heap[Base(mem, b)]
  {
    newLen <= heap[Base(mem, b)] - (b.ptr - Base(mem, b))
  }

  /** What remap makes of memory after realloc: the payload moved to its aligned place, then the header written. */
  function Settled(mem: seq<Byte>, base: nat, offset: nat, count: nat, align: nat): (r: seq<Byte>)
    requires Address(base, align) <= |mem| && base <= USIZE_MAX
    ensures |r| == |mem|
  {
    WriteWord(Copied(mem, Address(base, align), base + offset, count), Address(base, align) - WORD, base)
  }

  function Without(heap: map<nat, nat>, base: Option<nat>): map<nat, nat> {
    match base
    case None => heap
    case Some(b) => heap - {b}
  }

  lemma BlockInside(s: State, id: nat)
    requires Safe(s) && id in s.live
    ensures var b := s.live[id];
            && WORD <= b.ptr && b.ptr + b.len <= |s.mem|
            && (var base := Base(s.mem, b);
                && base in s.heap && base + s.heap[base] <= |s.mem|
                && base + WORD <= b.ptr < base + WORD + Effective(b.align)
                && b.ptr + b.len <= base + s.heap[base])
  {
    assert BlockOk(s.mem, s.heap, s.live[id]);
  }

  ghost function Step(s: State, e: Event): State
    requires Safe(s) && Allowed(s, e)
  {
    match e
    case DoAlloc(id, len, align, answer) =>
      if Total(len, align) > USIZE_MAX || answer == None then s
      else
        var a := answer.value;
        var p := Address(a.base, align);
        State(WriteWord(a.mem, p - WORD, a.base), s.heap[a.base := a.usable], s.live[id := Block(p, len, align)])
    case DoResize(id, newLen) =>
      BlockInside(s, id);
      var b := s.live[id];
      if ResizeFits(s.mem, s.heap, b, newLen) then s.(live := s.live[id := b.(len := newLen)]) else s
    case DoRemap(id, newLen, answer) =>
      BlockInside(s, id);
      var b := s.live[id];
      var was := Base(s.mem, b);
      if Total(newLen, b.align) > USIZE_MAX || answer == None then s
      else
        var a := answer.value;
        State(Settled(a.mem, a.base, b.ptr - was, Min(b.len, newLen), b.align),
              Without(s.heap, Some(was))[a.base := a.usable],
              s.live[id := Block(Address(a.base, b.align), newLen, b.align)])
    case DoFree(id, after) =>
      BlockInside(s, id);
      State(after, Without(s.heap, Some(Base(s.mem, s.live[id]))), s.live - {id})
    case DoWrite(id, index, b) =>
      BlockInside(s, id);
      s.(mem := Put(s.mem, s.live[id].ptr + index, b))
  }

  // ---- safety ----

  /** Memory is the same inside one malloc block. */
  ghost predicate SameRange(m: seq<Byte>, n: seq<Byte>, p: nat, len: nat) {
    |m| == |n| && p + len <= |m| && forall i :: p <= i < p + len ==> m[i] == n[i]
  }

  /** Memory is the same inside the malloc block of every slice but one. */
  ghost predicate SameBlocksBut(s: State, mem: seq<Byte>, id: nat)
    requires Safe(s)
  {
    && |mem| == |s.mem|
    && forall j :: j in s.live && j != id ==>
         (SafeBase(s, j); SameRange(s.mem, mem, Base(s.mem, s.live[j]), s.heap[Base(s.mem, s.live[j])]))
  }

  /** A slice whose malloc block is left alone keeps its header and its bytes. */
  lemma BlockKept(s: State, mem: seq<Byte>, j: nat)
    requires Safe(s) && j in s.live && |mem| == |s.mem|
    requires (SafeBase(s, j); SameRange(s.mem, mem, Base(s.mem, s.live[j]), s.heap[Base(s.mem, s.live[j])]))
    ensures var b := s.live[j];
            && WORD <= b.ptr && b.ptr + b.len <= |mem|
            && Base(mem, b) == Base(s.mem, b)
            && mem[b.ptr..b.ptr + b.len] == s.mem[b.ptr..b.ptr + b.len]
  {
    hide HeapOk;
    BlockInside(s, j);
    var b := s.live[j];
    var p := b.ptr - WORD;
    assert mem[p] == s.mem[p] && mem[p + 1] == s.mem[p + 1] && mem[p + 2] == s.mem[p + 2] && mem[p + 3] == s.mem[p + 3];
  }

  /** A slice in a malloc block: what its header must say and where it must lie. */
  ghost predicate PlacedIn(mem: seq<Byte>, base: nat, usable: nat, c: Block) {
    && WORD <= c.ptr <= |mem|
    && Base(mem, c) == base
    && c.ptr % Effective(c.align) == 0
    && base + WORD <= c.ptr < base + WORD + Effective(c.align)
    && c.ptr + c.len <= base + usable
  }

  lemma HeapWith(heap: map<nat, nat>, limit: nat, was: Option<nat>, base: nat, usable: nat)
    requires HeapOk(heap, limit) && FreshRange(heap, was, base, usable)
    requires 0 < base && 2 * WORD <= usable && base + usable <= limit
    ensures HeapOk(Without(heap, was)[base := usable], limit)
    ensures forall q :: q in heap && Some(q) != was ==> q != base && q in Without(heap, was)
  {
  }

  /** Giving a name a slice in a new malloc block, and its old block, if any, back. */
  lemma Install(s: State, id: nat, was: Option<nat>, base: nat, usable: nat, mem: seq<Byte>, c: Block)
    requires Safe(s) && SameBlocksBut(s, mem, id)
    requires id in s.live ==> (SafeBase(s, id); was == Some(Base(s.mem, s.live[id])))
    requires id !in s.live ==> was == None
    requires 0 < base && 2 * WORD <= usable && base + usable <= |mem| && FreshRange(s.heap, was, base, usable)
    requires PlacedIn(mem, base, usable, c)
    ensures Safe(State(mem, Without(s.heap, was)[base := usable], s.live[id := c]))
  {
    hide HeapOk, FreshRange, SameRange, Base;
    var t := State(mem, Without(s.heap, was)[base := usable], s.live[id := c]);
    HeapWith(s.heap, |mem|, was, base, usable);
    forall j | j in s.live && j != id
      ensures && Base(mem, s.live[j]) == Base(s.mem, s.live[j]) != base
              && Base(mem, s.live[j]) in t.heap && t.heap[Base(mem, s.live[j])] == s.heap[Base(s.mem, s.live[j])]
    {
      SafeBase(s, j);
      BlockKept(s, mem, j);
    }
    InstallBlocks(s, t, id, base, c);
    InstallOwners(s, t, id, was, base, c);
  }

  lemma InstallBlocks(s: State, t: State, id: nat, base: nat, c: Block)
    requires Safe(s) && t.live == s.live[id := c] && base in t.heap && PlacedIn(t.mem, base, t.heap[base], c)
    requires |t.mem| == |s.mem|
    requires forall j :: j in s.live && j != id ==>
               && Base(t.mem, s.live[j]) == Base(s.mem, s.live[j]) != base
               && Base(t.mem, s.live[j]) in t.heap && Base(s.mem, s.live[j]) in s.heap
               && t.heap[Base(t.mem, s.live[j])] == s.heap[Base(s.mem, s.live[j])]
    ensures forall j :: j in t.live ==> BlockOk(t.mem, t.heap, t.live[j])
    ensures forall i, j :: i in t.live && j in t.live && i != j ==> Base(t.mem, t.live[i]) != Base(t.mem, t.live[j])
  {
    hide HeapOk, Base;
    forall j | j in t.live ensures BlockOk(t.mem, t.heap, t.live[j]) {
      if j != id {
        assert BlockOk(s.mem, s.heap, s.live[j]);
      }
    }
  }

  lemma InstallOwners(s: State, t: State, id: nat, was: Option<nat>, base: nat, c: Block)
    requires Safe(s) && t.live == s.live[id := c] && Base(t.mem, c) == base
    requires t.heap.Keys == Without(s.heap, was).Keys + {base}
    requires id in s.live ==> was == Some(Base(s.mem, s.live[id]))
    requires forall j :: j in s.live && j != id ==> Base(t.mem, s.live[j]) == Base(s.mem, s.live[j])
    ensures forall q :: q in t.heap ==> exists j :: j in t.live && Base(t.mem, t.live[j]) == q
  {
    hide HeapOk, BlockOk, Base;
    forall q | q in t.heap ensures exists j :: j in t.live && Base(t.mem, t.live[j]) == q {
      if q == base {
        assert id in t.live && Base(t.mem, t.live[id]) == q;
      } else {
        assert q in s.heap;
        var j :| j in s.live && Base(s.mem, s.live[j]) == q;
        assert j != id;
        assert j in t.live && Base(t.mem, t.live[j]) == q;
      }
    }
  }

  /** A step that takes no new malloc block is safe when it keeps the headers of the slices it keeps. */
  lemma Keep(s: State, t: State)
    requires Safe(s) && |t.mem| == |s.mem| && HeapOk(t.heap, |t.mem|) && t.live.Keys <= s.live.Keys
    requires forall j :: j in t.live ==> BlockOk(t.mem, t.heap, t.live[j])
    requires forall j :: j in t.live ==> Base(t.mem, t.live[j]) == Base(s.mem, s.live[j])
    requires forall q :: q in t.heap ==> q in s.heap
    requires forall j :: j in s.live && Base(s.mem, s.live[j]) in t.heap ==> j in t.live
    ensures Safe(t)
  {
    hide HeapOk, BlockOk, Base;
    forall i, j | i in t.live && j in t.live && i != j ensures Base(t.mem, t.live[i]) != Base(t.mem, t.live[j]) {
      assert i in s.live && j in s.live;
    }
    forall q | q in t.heap ensures exists j :: j in t.live && Base(t.mem, t.live[j]) == q {
      var j :| j in s.live && Base(s.mem, s.live[j]) == q;
      assert j in t.live && Base(t.mem, t.live[j]) == q;
    }
  }

  /** A slice stays in order when its malloc block is left alone. */
  lemma BlockStays(s: State, mem: seq<Byte>, heap: map<nat, nat>, j: nat)
    requires Safe(s) && j in s.live && |mem| == |s.mem|
    requires (SafeBase(s, j); SameRange(s.mem, mem, Base(s.mem, s.live[j]), s.heap[Base(s.mem, s.live[j])]))
    requires var base := Base(s.mem, s.live[j]); base in heap && heap[base] == s.heap[base]
    ensures BlockOk(mem, heap, s.live[j]) && Base(mem, s.live[j]) == Base(s.mem, s.live[j])
  {
    hide HeapOk, SameRange, Base;
    BlockKept(s, mem, j);
    assert BlockOk(s.mem, s.heap, s.live[j]);
  }

  /** What the client sees under a name. */
  ghost function Contents(s: State, id: nat): seq<Byte>
    requires Safe(s) && id in s.live
  {
    BlockInside(s, id);
    s.mem[s.live[id].ptr..s.live[id].ptr + s.live[id].len]
  }

  ghost function StoreOf(s: State): Store
    requires Safe(s)
  {
    map id | id in s.live :: Contents(s, id)
  }

  lemma OthersKept(s: State, t: State, id: nat)
    requires Safe(s) && Safe(t) && SameBlocksBut(s, t.mem, id)
    requires s.live.Keys - {id} == t.live.Keys - {id}
    requires forall j :: j in s.live && j in t.live && j != id ==> t.live[j] == s.live[j]
    ensures SameBut(StoreOf(s), StoreOf(t), id)
  {
    hide Safe, SameRange, StoreOf, SameBut;
    forall j | j in s.live && j in t.live && j != id ensures Contents(t, j) == Contents(s, j) {
      BlockKept(s, t.mem, j);
    }
    StoreSame(s, t, id);
  }

  lemma StoreSame(s: State, t: State, id: nat)
    requires Safe(s) && Safe(t) && s.live.Keys - {id} == t.live.Keys - {id}
    requires forall j :: j in s.live && j in t.live && j != id ==> Contents(t, j) == Contents(s, j)
    ensures SameBut(StoreOf(s), StoreOf(t), id)
  {
    hide Safe, Contents;
    assert forall j :: j in s.live && j != id ==> j in s.live.Keys - {id};
    assert forall j :: j in t.live && j != id ==> j in t.live.Keys - {id};
  }

  /** Memory the call left alone, then written only inside one block apart from the others, leaves the others alone. */
  lemma BlocksSpared(s: State, id: nat, was: Option<nat>, base: nat, usable: nat, answered: seq<Byte>, mem: seq<Byte>)
    requires Safe(s) && AgreeBut(s.heap, s.mem, answered, was) && FreshRange(s.heap, was, base, usable)
    requires id in s.live ==> (SafeBase(s, id); was == Some(Base(s.mem, s.live[id])))
    requires id !in s.live ==> was == None
    requires |mem| == |answered| && forall i :: 0 <= i < |mem| && !(base <= i < base + usable) ==> mem[i] == answered[i]
    ensures SameBlocksBut(s, mem, id)
  {
    hide HeapOk;
    forall j | j in s.live && j != id
      ensures (SafeBase(s, j); SameRange(s.mem, mem, Base(s.mem, s.live[j]), s.heap[Base(s.mem, s.live[j])]))
    {
      SafeBase(s, j);
      BlockSpared(s.heap, s.mem, was, base, usable, answered, mem, Base(s.mem, s.live[j]));
    }
  }

  lemma BlockSpared(heap: map<nat, nat>, m: seq<Byte>, was: Option<nat>, base: nat, usable: nat, answered: seq<Byte>,
                    mem: seq<Byte>, q: nat)
    requires AgreeBut(heap, m, answered, was) && FreshRange(heap, was, base, usable)
    requires q in heap && Some(q) != was && q + heap[q] <= |m|
    requires |mem| == |answered| && forall i :: 0 <= i < |mem| && !(base <= i < base + usable) ==> mem[i] == answered[i]
    ensures SameRange(m, mem, q, heap[q])
  {
    assert RangesApart(base, usable, q, heap[q]);
    var a, b := m[q..q + heap[q]], answered[q..q + heap[q]];
    assert a == b;
    forall i | q <= i < q + heap[q] ensures m[i] == mem[i] {
      assert a[i - q] == m[i] && b[i - q] == answered[i];
    }
  }

  /** A placed slice right after its header was written. */
  lemma Placing(mem: seq<Byte>, base: nat, usable: nat, len: nat, align: nat)
    requires |mem| <= USIZE_MAX && base + usable <= |mem| && Total(len, align) <= usable
    ensures var p := Address(base, align);
            && base + WORD <= p && p + len <= base + usable
            && PlacedIn(WriteWord(mem, p - WORD, base), base, usable, Block(p, len, align))
            && forall i :: 0 <= i < |mem| && !(p - WORD <= i < p) ==> WriteWord(mem, p - WORD, base)[i] == mem[i]
  {
    hide ReadWord, WriteWord;
    var p := Address(base, align);
    AlignUpIsAligned(base + WORD, Effective(align));
    WordRoundTrip(mem, p - WORD, base);
  }

  lemma AllocFollows(s: State, id: nat, len: nat, align: nat, answer: Option<Answer>)
    requires Safe(s) && Allowed(s, DoAlloc(id, len, align, answer))
    ensures var t := Step(s, DoAlloc(id, len, align, answer));
            Safe(t) && StoreStep(StoreOf(s), AllocOp(id, len), StoreOf(t))
  {
    hide Safe, HeapOk, SameBlocksBut, AgreeBut, FreshRange, PlacedIn, WriteWord, Address, SameBut;
    var t := Step(s, DoAlloc(id, len, align, answer));
    if t != s {
      var a := answer.value;
      SafeBound(s);
      AgreeLength(s.heap, s.mem, a.mem, None);
      Placing(a.mem, a.base, a.usable, len, align);
      BlocksSpared(s, id, None, a.base, a.usable, a.mem, t.mem);
      Install(s, id, None, a.base, a.usable, t.mem, t.live[id]);
      OthersKept(s, t, id);
      BlockInside(t, id);
    }
  }

  lemma SafeBound(s: State)
    requires Safe(s)
    ensures |s.mem| <= USIZE_MAX && HeapOk(s.heap, |s.mem|)
  {
  }

  lemma AgreeLength(heap: map<nat, nat>, m: seq<Byte>, n: seq<Byte>, except: Option<nat>)
    requires AgreeBut(heap, m, n, except)
    ensures |m| == |n|
  {
  }

  /** The move is right whichever way the block went, and the header written afterwards does not touch the payload. */
  lemma SettledPayload(mem: seq<Byte>, base: nat, usable: nat, offset: nat, count: nat, newLen: nat, align: nat)
    requires |mem| <= USIZE_MAX && base + usable <= |mem| && Total(newLen, align) <= usable
    requires count <= newLen && offset < WORD + Effective(align)
    ensures Address(base, align) <= |mem|
    ensures var p := Address(base, align); var now := Settled(mem, base, offset, count, align);
            && PlacedIn(now, base, usable, Block(p, newLen, align))
            && base + WORD <= p && p + newLen <= base + usable
            && now[p..p + count] == mem[base + offset..base + offset + count]
            && forall i :: 0 <= i < |mem| && !(base <= i < base + usable) ==> now[i] == mem[i]
  {
    hide WriteWord, PlacedIn, AlignUp;
    var p := Address(base, align);
    var moved := Copied(mem, p, base + offset, count);
    Placing(moved, base, usable, newLen, align);
    CopiedBytes(mem, p, base + offset, count);
    var now := Settled(mem, base, offset, count, align);
    assert now[p..p + count] == moved[p..p + count];
    forall i | 0 <= i < |mem| && !(base <= i < base + usable) ensures now[i] == mem[i] {
      assert moved[i] == mem[i];
    }
  }

  /** realloc carried the payload along at its old offset. */
  lemma PayloadCarried(s: State, id: nat, newLen: nat, a: Answer)
    requires Safe(s) && id in s.live
    requires (SafeBase(s, id); ReallocOk(s, Base(s.mem, s.live[id]), Total(newLen, s.live[id].align), Some(a)))
    ensures var b := s.live[id]; var was := Base(s.mem, b); var n := Min(b.len, newLen);
            && |a.mem| == |s.mem| && b.ptr + n <= |s.mem| && was <= b.ptr
            && a.base + (b.ptr - was) + n <= |a.mem|
            && a.mem[a.base + (b.ptr - was)..a.base + (b.ptr - was) + n] == s.mem[b.ptr..b.ptr + n]
  {
    hide HeapOk, FreshRange, Safe, BlockOk;
    BlockInside(s, id);
    var b := s.live[id];
    var was, n := Base(s.mem, b), Min(b.len, newLen);
    var k := Min(s.heap[was], Total(newLen, b.align));
    SubRange(a.mem, a.base, s.mem, was, k, b.ptr - was, n);
  }

  lemma SubRange(m: seq<Byte>, p: nat, n: seq<Byte>, q: nat, len: nat, offset: nat, count: nat)
    requires p + len <= |m| && q + len <= |n| && m[p..p + len] == n[q..q + len] && offset + count <= len
    ensures m[p + offset..p + offset + count] == n[q + offset..q + offset + count]
  {
    var a, b := m[p + offset..p + offset + count], n[q + offset..q + offset + count];
    forall i | 0 <= i < count ensures a[i] == b[i] {
      assert a[i] == m[p..p + len][offset + i];
      assert b[i] == n[q..q + len][offset + i];
    }
  }

  lemma RemapSafe(s: State, id: nat, newLen: nat, a: Answer)
    requires Safe(s) && Allowed(s, DoRemap(id, newLen, Some(a))) && Total(newLen, s.live[id].align) <= USIZE_MAX
    ensures var t := Step(s, DoRemap(id, newLen, Some(a))); var b := s.live[id];
            && Safe(t) && t.live == s.live[id := Block(Address(a.base, b.align), newLen, b.align)]
            && SameBlocksBut(s, t.mem, id)
            && (BlockInside(s, id); BlockInside(t, id);
                var n := Min(b.len, newLen);
                t.mem[t.live[id].ptr..t.live[id].ptr + n] == s.mem[b.ptr..b.ptr + n])
  {
    hide Safe, HeapOk, SameBlocksBut, AgreeBut, FreshRange, PlacedIn, Settled, Address, Without, BlockOk, Base, Total;
    var t := Step(s, DoRemap(id, newLen, Some(a)));
    var b := s.live[id];
    SafeBound(s);
    BlockInside(s, id);
    var was := Base(s.mem, b);
    AgreeLength(s.heap, s.mem, a.mem, Some(was));
    PayloadCarried(s, id, newLen, a);
    SettledPayload(a.mem, a.base, a.usable, b.ptr - was, Min(b.len, newLen), newLen, b.align);
    BlocksSpared(s, id, Some(was), a.base, a.usable, a.mem, t.mem);
    Install(s, id, Some(was), a.base, a.usable, t.mem, t.live[id]);
  }

  lemma RemapFollows(s: State, id: nat, newLen: nat, answer: Option<Answer>)
    requires Safe(s) && Allowed(s, DoRemap(id, newLen, answer))
    ensures var t := Step(s, DoRemap(id, newLen, answer));
            Safe(t) && StoreStep(StoreOf(s), RemapOp(id, newLen), StoreOf(t))
  {
    hide Safe, SameBlocksBut, Settled, Address, SameBut, Base, Without, ReallocOk, ResizedOnly;
    var t := Step(s, DoRemap(id, newLen, answer));
    if answer.Some? && Total(newLen, s.live[id].align) <= USIZE_MAX {
      RemapSafe(s, id, newLen, answer.value);
      OthersKept(s, t, id);
      ResizedContents(s, t, id, newLen);
    }
  }

  /** A slice whose first bytes were kept is resized, as its client sees it. */
  lemma ResizedContents(s: State, t: State, id: nat, newLen: nat)
    requires Safe(s) && Safe(t) && id in s.live && id in t.live && t.live[id].len == newLen
    requires SameBut(StoreOf(s), StoreOf(t), id)
    requires (BlockInside(s, id); BlockInside(t, id);
              var n := Min(s.live[id].len, newLen);
              t.mem[t.live[id].ptr..t.live[id].ptr + n] == s.mem[s.live[id].ptr..s.live[id].ptr + n])
    ensures ResizedOnly(StoreOf(s), StoreOf(t), id, newLen)
  {
    hide Safe, SameBut, Base;
    BlockInside(s, id);
    BlockInside(t, id);
    var p, q, n := s.live[id].ptr, t.live[id].ptr, Min(s.live[id].len, newLen);
    Prefix(s.mem, p, s.live[id].len, n);
    Prefix(t.mem, q, newLen, n);
  }

  lemma Prefix(mem: seq<Byte>, p: nat, len: nat, n: nat)
    requires n <= len && p + len <= |mem|
    ensures mem[p..p + len][..n] == mem[p..p + n]
  {
  }

  lemma FreeSafe(s: State, id: nat, after: seq<Byte>)
    requires Safe(s) && Allowed(s, DoFree(id, after))
    ensures var t := Step(s, DoFree(id, after)); Safe(t) && SameBlocksBut(s, t.mem, id)
  {
    hide HeapOk, SameRange, AgreeBut, Base, BlockOk, FreshRange;
    BlockInside(s, id);
    SafeBound(s);
    var base := Base(s.mem, s.live[id]);
    var t := Step(s, DoFree(id, after));
    AgreeLength(s.heap, s.mem, after, Some(base));
    HeapWithout(s.heap, |s.mem|, base);
    NothingFresh(s.heap, |s.mem|, base);
    BlocksSpared(s, id, Some(base), base, 0, after, after);
    forall j | j in s.live && j != id
      ensures BlockOk(after, t.heap, s.live[j]) && Base(after, s.live[j]) == Base(s.mem, s.live[j]) {
      SafeBase(s, j);
      BlockStays(s, after, t.heap, j);
    }
    Keep(s, t);
  }

  lemma HeapWithout(heap: map<nat, nat>, limit: nat, base: nat)
    requires HeapOk(heap, limit) && base in heap
    ensures HeapOk(Without(heap, Some(base)), limit)
  {
  }

  lemma NothingFresh(heap: map<nat, nat>, limit: nat, base: nat)
    requires HeapOk(heap, limit) && base in heap
    ensures FreshRange(heap, Some(base), base, 0)
  {
  }

  lemma FreeFollows(s: State, id: nat, after: seq<Byte>)
    requires Safe(s) && Allowed(s, DoFree(id, after))
    ensures var t := Step(s, DoFree(id, after));
            Safe(t) && StoreStep(StoreOf(s), FreeOp(id), StoreOf(t))
  {
    hide Safe, SameBlocksBut, SameBut, Without, Base;
    var t := Step(s, DoFree(id, after));
    FreeSafe(s, id, after);
    OthersKept(s, t, id);
    SameStore(StoreOf(s), StoreOf(t), id);
  }

  /** A new slice leaves every other slice, its malloc block and all bytes in that block as they were. */
  lemma AllocSpares(s: State, id: nat, len: nat, align: nat, answer: Option<Answer>)
    requires Safe(s) && Allowed(s, DoAlloc(id, len, align, answer))
    ensures var t := Step(s, DoAlloc(id, len, align, answer));
            && Safe(t) && SameBlocksBut(s, t.mem, id)
            && (t == s || t.live == s.live[id := t.live[id]])
            && (forall q :: q in s.heap ==> q in t.heap && t.heap[q] == s.heap[q])
  {
    hide Safe, HeapOk, SameBlocksBut, AgreeBut, PlacedIn, WriteWord, Address, StoreOf, StoreStep;
    AllocFollows(s, id, len, align, answer);
    var t := Step(s, DoAlloc(id, len, align, answer));
    if t != s {
      var a := answer.value;
      SafeBound(s);
      AgreeLength(s.heap, s.mem, a.mem, None);
      Placing(a.mem, a.base, a.usable, len, align);
      BlocksSpared(s, id, None, a.base, a.usable, a.mem, t.mem);
      HeapGrows(s.heap, |s.mem|, a.base, a.usable);
    } else {
      SameMemory(s, id);
    }
  }

  lemma HeapGrows(heap: map<nat, nat>, limit: nat, base: nat, usable: nat)
    requires HeapOk(heap, limit) && FreshRange(heap, None, base, usable) && usable > 0
    ensures forall q :: q in heap ==> heap[base := usable][q] == heap[q]
  {
  }

  /** The bytes of live slices: what their clients may write. */
  ghost predicate InPayload(live: map<nat, Block>, i: nat) {
    exists j :: j in live && live[j].ptr <= i < live[j].ptr + live[j].len
  }

  /** Headers are in no slice, so writing into slices disturbs none of them. */
  lemma HeaderOutside(s: State, j: nat, i: nat)
    requires Safe(s) && j in s.live && s.live[j].ptr - WORD <= i < s.live[j].ptr
    ensures !InPayload(s.live, i)
  {
    hide Base;
    BlockInside(s, j);
    SafeBound(s);
    forall k | k in s.live ensures !(s.live[k].ptr <= i < s.live[k].ptr + s.live[k].len) {
      BlockInside(s, k);
    }
  }

  lemma PayloadKeepsBlock(s: State, mem: seq<Byte>, j: nat)
    requires Safe(s) && |mem| == |s.mem| && j in s.live
    requires forall i :: 0 <= i < |mem| && !InPayload(s.live, i) ==> mem[i] == s.mem[i]
    ensures WORD <= s.live[j].ptr <= |mem| && Base(mem, s.live[j]) == Base(s.mem, s.live[j])
    ensures BlockOk(mem, s.heap, s.live[j])
  {
    hide InPayload, HeapOk;
    BlockInside(s, j);
    assert BlockOk(s.mem, s.heap, s.live[j]);
    var p := s.live[j].ptr - WORD;
    forall i | p <= i < p + WORD ensures mem[i] == s.mem[i] {
      HeaderOutside(s, j, i);
    }
    SameHeaderWord(s.mem, mem, p);
  }

  lemma PayloadWritesSafe(s: State, mem: seq<Byte>)
    requires Safe(s) && |mem| == |s.mem|
    requires forall i :: 0 <= i < |mem| && !InPayload(s.live, i) ==> mem[i] == s.mem[i]
    ensures Safe(s.(mem := mem))
    ensures forall j :: j in s.live ==> WORD <= s.live[j].ptr <= |mem| && Base(mem, s.live[j]) == Base(s.mem, s.live[j])
  {
    hide InPayload, HeapOk, BlockOk, Base;
    SafeBound(s);
    forall j | j in s.live
      ensures WORD <= s.live[j].ptr <= |mem| && BlockOk(mem, s.heap, s.live[j])
      ensures Base(mem, s.live[j]) == Base(s.mem, s.live[j])
    {
      PayloadKeepsBlock(s, mem, j);
    }
    Keep(s, s.(mem := mem));
  }

  lemma SameHeaderWord(m: seq<Byte>, n: seq<Byte>, p: nat)
    requires p + WORD <= |m| == |n| && forall i :: p <= i < p + WORD ==> n[i] == m[i]
    ensures ReadWord(m, p) == ReadWord(n, p)
  {
  }

  lemma SameMemory(s: State, id: nat)
    requires Safe(s)
    ensures SameBlocksBut(s, s.mem, id)
  {
    forall j | j in s.live
      ensures (SafeBase(s, j); SameRange(s.mem, s.mem, Base(s.mem, s.live[j]), s.heap[Base(s.mem, s.live[j])])) {
      SafeBase(s, j);
    }
  }

  lemma ResizeSafe(s: State, id: nat, newLen: nat)
    requires Safe(s) && Allowed(s, DoResize(id, newLen))
    ensures Safe(Step(s, DoResize(id, newLen)))
  {
    hide HeapOk, Base;
    var t := Step(s, DoResize(id, newLen));
    BlockInside(s, id);
    SafeBound(s);
    if t != s {
      forall j | j in t.live
        ensures BlockOk(t.mem, t.heap, t.live[j]) && Base(t.mem, t.live[j]) == Base(s.mem, s.live[j]) {
        assert BlockOk(s.mem, s.heap, s.live[j]);
        SameHeader(s.mem, s.live[j], t.live[j]);
      }
      Keep(s, t);
    }
  }

  lemma SameHeader(mem: seq<Byte>, b: Block, c: Block)
    requires b.ptr == c.ptr
    ensures Base(mem, b) == Base(mem, c)
  {
  }

  lemma ResizeFollows(s: State, id: nat, newLen: nat)
    requires Safe(s) && Allowed(s, DoResize(id, newLen))
    ensures var t := Step(s, DoResize(id, newLen));
            Safe(t) && StoreStep(StoreOf(s), ResizeOp(id, newLen), StoreOf(t))
  {
    hide Safe, SameBlocksBut, SameBut, Base, ResizedOnly;
    var t := Step(s, DoResize(id, newLen));
    ResizeSafe(s, id, newLen);
    BlockInside(s, id);
    if ResizeFits(s.mem, s.heap, s.live[id], newLen) {
      SameMemory(s, id);
      BlockInside(t, id);
      OthersKept(s, t, id);
      ResizedContents(s, t, id, newLen);
    }
  }

  lemma WriteSafe(s: State, id: nat, index: nat, b: Byte)
    requires Safe(s) && Allowed(s, DoWrite(id, index, b))
    ensures var t := Step(s, DoWrite(id, index, b)); Safe(t) && SameBlocksBut(s, t.mem, id)
  {
    hide HeapOk, SameRange, Base, AgreeBut, FreshRange;
    BlockInside(s, id);
    var c := s.live[id];
    var base := Base(s.mem, c);
    var t := Step(s, DoWrite(id, index, b));
    SafeBound(s);
    AgreeSelf(s.heap, s.mem, Some(base));
    OwnRange(s.heap, |s.mem|, base);
    BlocksSpared(s, id, Some(base), base, s.heap[base], s.mem, t.mem);
    HeaderBelow(s.mem, c, index, b);
    forall j | j in s.live
      ensures BlockOk(t.mem, t.heap, s.live[j]) && Base(t.mem, s.live[j]) == Base(s.mem, s.live[j]) {
      assert BlockOk(s.mem, s.heap, s.live[j]);
      if j != id {
        SafeBase(s, j);
        BlockStays(s, t.mem, t.heap, j);
      }
    }
    Keep(s, t);
  }

  lemma HeaderBelow(mem: seq<Byte>, c: Block, index: nat, b: Byte)
    requires c.ptr + index < |mem|
    ensures Base(Put(mem, c.ptr + index, b), c) == Base(mem, c)
  {
  }

  lemma AgreeSelf(heap: map<nat, nat>, m: seq<Byte>, except: Option<nat>)
    ensures AgreeBut(heap, m, m, except)
  {
  }

  lemma OwnRange(heap: map<nat, nat>, limit: nat, base: nat)
    requires HeapOk(heap, limit) && base in heap
    ensures FreshRange(heap, Some(base), base, heap[base])
  {
  }

  lemma WriteFollows(s: State, id: nat, index: nat, b: Byte)
    requires Safe(s) && Allowed(s, DoWrite(id, index, b))
    ensures var t := Step(s, DoWrite(id, index, b));
            Safe(t) && StoreStep(StoreOf(s), WriteOp(id, index, b), StoreOf(t))
  {
    hide Safe, SameBlocksBut, SameBut, Base;
    var t := Step(s, DoWrite(id, index, b));
    WriteSafe(s, id, index, b);
    BlockInside(s, id);
    OthersKept(s, t, id);
    assert Contents(t, id) == Put(Contents(s, id), index, b);
    SameStore(StoreOf(s), StoreOf(t), id);
  }

  // ---- whole runs ----

  function OpOf(e: Event): Op {
    match e
    case DoAlloc(id, len, _, _) => AllocOp(id, len)
    case DoResize(id, newLen) => ResizeOp(id, newLen)
    case DoRemap(id, newLen, _) => RemapOp(id, newLen)
    case DoFree(id, _) => FreeOp(id)
    case DoWrite(id, index, b) => WriteOp(id, index, b)
  }

  function Ops(events: seq<Event>): seq<Op> {
    if events == [] then [] else [OpOf(events[0])] + Ops(events[1..])
  }

  /** Every allowed step keeps headers, blocks and slices in order, and answers as a plain store would. */
  lemma StepFollowsStore(s: State, e: Event)
    requires Safe(s) && Allowed(s, e)
    ensures Safe(Step(s, e)) && StoreStep(StoreOf(s), OpOf(e), StoreOf(Step(s, e)))
  {
    hide Safe, Step, StoreStep, StoreOf;
    match e
    case DoAlloc(id, len, align, answer) => AllocFollows(s, id, len, align, answer);
    case DoResize(id, newLen) => ResizeFollows(s, id, newLen);
    case DoRemap(id, newLen, answer) => RemapFollows(s, id, newLen, answer);
    case DoFree(id, after) => FreeFollows(s, id, after);
    case DoWrite(id, index, b) => WriteFollows(s, id, index, b);
  }

  ghost predicate IsRun(s: State, events: seq<Event>)
    requires Safe(s)
    decreases |events|
  {
    events != [] ==> Allowed(s, events[0]) && (StepFollowsStore(s, events[0]); IsRun(Step(s, events[0]), events[1..]))
  }

  ghost function Run(s: State, events: seq<Event>): (t: State)
    requires Safe(s) && IsRun(s, events)
    ensures Safe(t)
    decreases |events|
  {
    if events == [] then s
    else
      StepFollowsStore(s, events[0]);
      Run(Step(s, events[0]), events[1..])
  }

  /** Over every run, clients see a plain store of byte strings, whatever malloc and realloc answer. */
  lemma {:induction false} RunFollowsStore(s: State, events: seq<Event>)
    requires Safe(s) && IsRun(s, events)
    ensures StoreRun(StoreOf(s), Ops(events), StoreOf(Run(s, events)))
    decreases |events|
  {
    hide Safe, Step, StoreStep, StoreOf, Allowed;
    if events != [] {
      StepFollowsStore(s, events[0]);
      assert Ops(events)[1..] == Ops(events[1..]);
      RunFollowsStore(Step(s, events[0]), events[1..]);
    }
  }

  /** malloc's live blocks are exactly those the live slices' headers name: none leaks, and none is freed twice. */
  lemma HeadersNameTheHeap(s: State)
    requires Safe(s)
    ensures forall base :: base in s.heap <==> exists id :: id in s.live && Base(s.mem, s.live[id]) == base
    ensures s.live == map[] ==> s.heap == map[]
  {
    forall id | id in s.live ensures Base(s.mem, s.live[id]) in s.heap {
      SafeBase(s, id);
    }
    assert s.live == map[] ==> s.heap.Keys == {};
  }

  lemma StartIsSafe(mem: seq<Byte>)
    requires |mem| <= USIZE_MAX
    ensures Safe(State(mem, map[], map[])) && StoreOf(State(mem, map[], map[])) == map[]
  {
  }

  /**
   * Over every run from an empty heap, clients see a plain store from the empty one on, and malloc has given out just
   * the blocks of the slices still held: when none is held, it has everything back.
   */
  lemma EveryRunFromStart(mem: seq<Byte>, events: seq<Event>)
    requires |mem| <= USIZE_MAX
    requires (StartIsSafe(mem); IsRun(State(mem, map[], map[]), events))
    ensures var end := (StartIsSafe(mem); Run(State(mem, map[], map[]), events));
            && StoreRun(map[], Ops(events), StoreOf(end))
            && (forall base :: base in end.heap <==> exists id :: id in end.live && Base(end.mem, end.live[id]) == base)
            && (end.live == map[] ==> end.heap == map[])
  {
    hide Safe, IsRun, Run, StoreOf, Base;
    StartIsSafe(mem);
    RunFollowsStore(State(mem, map[], map[]), events);
    HeadersNameTheHeap(Run(State(mem, map[], map[]), events));
  }
}
