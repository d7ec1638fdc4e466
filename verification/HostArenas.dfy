/**
 * The three places the host allocates from: a two-slot arena for large runtime objects, the guest's linear memory,
 * and libc for the rest (runtime/fx_wamr_runner.c, lines 88-98 and 178-302).
 */
module HostArenas {
  import opened Alignment
  import opened Bytes

  const FX_METADATA_BYTES: nat := 0x20000
  const LARGE: nat := 32768
  const SLOTS: nat := 2

  datatype Block = Block(offset: nat, size: nat)

  /** Where the arenas are; neither is at address 0 and they do not overlap. */
  datatype Layout = Layout(metadata: nat, linear: nat, capacity: nat)

  predicate LayoutOk(l: Layout) {
    && l.metadata > 0 && l.linear > 0 && l.capacity > 0
    && (l.metadata + FX_METADATA_BYTES <= l.linear || l.linear + l.capacity <= l.metadata)
  }

  /** `blocks` are the metadata slots, a free one having size 0; `heap` is what libc has given out, by address. */
  datatype Host = Host(blocks: seq<Block>, linear: seq<Byte>, used: nat, inUse: bool, heap: map<nat, nat>)

  function Extent(size: nat): nat { if size == 0 then 1 else size }

  predicate Apart(p: nat, n: nat, q: nat, m: nat) {
    RangesApart(p, Extent(n), q, Extent(m))
  }

  /** What libc promises: a block away from both arenas and from every block it has given out, except `except`. */
  ghost predicate FreshHeap(l: Layout, h: Host, p: nat, size: nat, except: nat) {
    && p > 0 && Apart(p, size, l.metadata, FX_METADATA_BYTES) && Apart(p, size, l.linear, l.capacity)
    && forall q :: q in h.heap && q != except ==> p != q && Apart(p, size, q, h.heap[q])
  }

  // ---- the metadata arena ----

  predicate Overlaps(b: Block, offset: nat, size: nat) {
    b.size > 0 && offset < b.offset + b.size && offset + size > b.offset
  }

  predicate Fits(blocks: seq<Block>, offset: nat, size: nat) {
    && offset % 8 == 0 && offset + size <= FX_METADATA_BYTES
    && forall i :: 0 <= i < |blocks| ==> !Overlaps(blocks[i], offset, size)
  }

  predicate BlocksOk(blocks: seq<Block>) {
    && |blocks| == SLOTS
    && (forall i :: 0 <= i < SLOTS && blocks[i].size > 0 ==>
          blocks[i].offset % 8 == 0 && blocks[i].offset + blocks[i].size <= FX_METADATA_BYTES)
    && (blocks[0].size > 0 && blocks[1].size > 0 ==>
          blocks[0].offset + blocks[0].size <= blocks[1].offset
          || blocks[1].offset + blocks[1].size <= blocks[0].offset)
  }

  function FreeSlot(blocks: seq<Block>): (slot: nat)
    requires |blocks| == SLOTS
    ensures slot <= SLOTS
  {
    if blocks[0].size == 0 then 0 else if blocks[1].size == 0 then 1 else SLOTS
  }

  /** The search: move past whichever block is in the way, in slot order, until none is or the end is reached. */
  function Search(blocks: seq<Block>, offset: nat, size: nat): (r: Option<nat>)
    requires BlocksOk(blocks) && size > 0
    decreases FX_METADATA_BYTES - offset
  {
    if offset > FX_METADATA_BYTES || size > FX_METADATA_BYTES - offset then None
    else if Overlaps(blocks[0], offset, size) then Search(blocks, Behind(blocks[0]), size)
    else if Overlaps(blocks[1], offset, size) then Search(blocks, Behind(blocks[1]), size)
    else Some(offset)
  }

  function Behind(b: Block): (offset: nat)
    ensures offset >= b.offset + b.size
  {
    AlignUp(b.offset + b.size, 8)
  }

  /** No aligned offset at or before a block that is in the way can fit, nor any until behind it. */
  lemma NoneBefore(blocks: seq<Block>, i: nat, offset: nat, size: nat, other: nat)
    requires BlocksOk(blocks) && i < SLOTS && Overlaps(blocks[i], offset, size)
    requires offset <= other < Behind(blocks[i])
    ensures !Fits(blocks, other, size)
  {
    if other % 8 == 0 {
      assert Overlaps(blocks[i], other, size);
    }
  }

  /** The search finds the least offset that fits, and none exactly when none does. */
  lemma {:induction false} SearchIsLeast(blocks: seq<Block>, offset: nat, size: nat)
    requires BlocksOk(blocks) && size > 0 && offset % 8 == 0
    requires forall o :: 0 <= o < offset ==> !Fits(blocks, o, size)
    ensures var r := Search(blocks, offset, size);
            if r.Some? then Fits(blocks, r.value, size) && forall o :: 0 <= o < r.value ==> !Fits(blocks, o, size)
            else forall o: nat :: !Fits(blocks, o, size)
    decreases FX_METADATA_BYTES - offset
  {
    if offset > FX_METADATA_BYTES || size > FX_METADATA_BYTES - offset {
    } else if Overlaps(blocks[0], offset, size) || Overlaps(blocks[1], offset, size) {
      var i := if Overlaps(blocks[0], offset, size) then 0 else 1;
      forall o | 0 <= o < Behind(blocks[i]) ensures !Fits(blocks, o, size) {
        if o >= offset {
          NoneBefore(blocks, i, offset, size, o);
        }
      }
      AlignUpIsAligned(blocks[i].offset + blocks[i].size, 8);
      SearchIsLeast(blocks, Behind(blocks[i]), size);
    }
  }

  function MetadataMalloc(blocks: seq<Block>, size: nat): (r: Option<(nat, seq<Block>)>)
    requires BlocksOk(blocks)
  {
    if size == 0 || size > FX_METADATA_BYTES || FreeSlot(blocks) == SLOTS then None
    else
      match Search(blocks, 0, size)
      case None => None
      case Some(offset) => Some((offset, blocks[FreeSlot(blocks) := Block(offset, size)]))
  }

  /** It gives the least aligned offset with room, and fails only when both slots are taken or there is none. */
  lemma FirstFit(blocks: seq<Block>, size: nat)
    requires BlocksOk(blocks)
    ensures var r := MetadataMalloc(blocks, size);
            && (r.None? <==> size == 0 || (blocks[0].size > 0 && blocks[1].size > 0)
                             || forall o: nat :: !Fits(blocks, o, size))
            && (r.Some? ==> && Fits(blocks, r.value.0, size) && BlocksOk(r.value.1)
                            && (forall o :: 0 <= o < r.value.0 ==> !Fits(blocks, o, size)))
  {
    if size > 0 {
      SearchIsLeast(blocks, 0, size);
    }
  }

  /** metadata_slot */
  function SlotOf(l: Layout, blocks: seq<Block>, p: nat): (slot: int)
    requires |blocks| == SLOTS
    ensures -1 <= slot < SLOTS
    ensures slot >= 0 ==> blocks[slot].size > 0 && p == l.metadata + blocks[slot].offset
  {
    if blocks[0].size > 0 && p == l.metadata + blocks[0].offset then 0
    else if blocks[1].size > 0 && p == l.metadata + blocks[1].offset then 1
    else -1
  }

  /** Growing or shrinking a block where it is. */
  function MetadataRealloc(blocks: seq<Block>, slot: nat, size: nat): Option<seq<Block>>
    requires |blocks| == SLOTS && slot < SLOTS
  {
    var offset, other := blocks[slot].offset, blocks[1 - slot];
    if offset > FX_METADATA_BYTES || size > FX_METADATA_BYTES - offset then None
    else if Overlaps(other, offset, size) then None
    else Some(blocks[slot := Block(offset, size)])
  }

  // ---- the three arenas together ----

  /** What a libc realloc did: nothing, freed the block (only for size 0), or served it, perhaps elsewhere. */
  datatype LibcAnswer = Refused | Freed | Served(p: nat)

  datatype Op =
    | MallocOp(linear: bool, size: nat, answer: LibcAnswer)
    | ReallocOp(linear: bool, pointer: nat, size: nat, answer: LibcAnswer)
    | FreeOp(pointer: nat)
    | WriteOp(at: nat, byte: Byte)

  function Zeros(n: nat): (s: seq<Byte>)
    ensures |s| == n && forall i :: 0 <= i < n ==> s[i] == 0
  {
    seq(n, i => 0)
  }

  /** The linear memory with `from..end` zeroed. */
  function Zeroed(linear: seq<Byte>, from: nat, end: nat): (r: seq<Byte>)
    requires from <= end <= |linear|
    ensures |r| == |linear| && r[..from] == linear[..from]
    ensures r[..end] == linear[..from] + Zeros(end - from)
  {
    linear[..from] + Zeros(end - from) + linear[end..]
  }

  /** wamr_malloc */
  function MallocStep(l: Layout, h: Host, linear: bool, size: nat, answer: LibcAnswer): (Host, nat)
    requires Sound(l, h)
  {
    if !linear then
      if size > LARGE then
        match MetadataMalloc(h.blocks, size)
        case None => (h, 0)
        case Some((offset, blocks)) => (h.(blocks := blocks), l.metadata + offset)
      else
        match answer
        case Refused => (h, 0)
        case Freed => (h, 0)
        case Served(p) => (h.(heap := h.heap[p := size]), p)
    else if h.inUse || size > l.capacity then (h, 0)
    else (h.(linear := Zeroed(h.linear, 0, size), used := size, inUse := true), l.linear)
  }

  /** wamr_realloc */
  function ReallocStep(l: Layout, h: Host, linear: bool, pointer: nat, size: nat, answer: LibcAnswer): (Host, nat)
    requires Sound(l, h)
  {
    if !linear then
      var slot := SlotOf(l, h.blocks, pointer);
      if slot >= 0 then
        match MetadataRealloc(h.blocks, slot, size)
        case None => (h, 0)
        case Some(blocks) => (h.(blocks := blocks), if size > 0 then pointer else 0)
      else if pointer == 0 then
        MallocStep(l, h, linear, size, answer)
      else if size > LARGE then (h, 0)
      else
        match answer
        case Refused => (h, 0)
        case Freed => (h.(heap := h.heap - {pointer}), 0)
        case Served(p) => (h.(heap := (h.heap - {pointer})[p := size]), p)
    else if pointer != l.linear || size > l.capacity then (h, 0)
    else
      var bytes := if size > h.used then Zeroed(h.linear, h.used, size) else h.linear;
      (h.(linear := bytes, used := size), l.linear)
  }

  /** wamr_free */
  function FreeStep(l: Layout, h: Host, pointer: nat): Host
    requires Sound(l, h)
  {
    var slot := SlotOf(l, h.blocks, pointer);
    if slot >= 0 then h.(blocks := h.blocks[slot := h.blocks[slot].(size := 0)])
    else if pointer == l.linear then h.(used := 0, inUse := false)
    else h.(heap := h.heap - {pointer})
  }

  /** The state is consistent: blocks inside their arenas and apart, libc's away from both. */
  ghost predicate Sound(l: Layout, h: Host) {
    && LayoutOk(l) && BlocksOk(h.blocks) && |h.linear| == l.capacity && h.used <= l.capacity
    && forall p :: p in h.heap ==> FreshHeap(l, h, p, h.heap[p], p)
  }

  /** The size of the live block at an address, whichever arena it is in. */
  function Live(l: Layout, h: Host, p: nat): Option<nat>
    requires |h.blocks| == SLOTS
  {
    var slot := SlotOf(l, h.blocks, p);
    if slot >= 0 then Some(h.blocks[slot].size)
    else if p == l.linear && h.inUse then Some(h.used)
    else if p in h.heap then Some(h.heap[p])
    else None
  }

  /** A caller passes back what it was given, linear memory only as such, and libc keeps its promises. */
  ghost predicate OpOk(l: Layout, h: Host, op: Op) {
    match op
    case MallocOp(linear, size, answer) => !linear && answer.Served? ==> FreshHeap(l, h, answer.p, size, 0)
    case ReallocOp(linear, pointer, size, answer) =>
      && |h.blocks| == SLOTS
      && (!linear ==> && pointer != l.linear && (pointer == 0 || Live(l, h, pointer).Some?)
                      && (answer.Freed? ==> size == 0) && (answer.Served? ==> FreshHeap(l, h, answer.p, size, pointer)))
    case FreeOp(pointer) => |h.blocks| == SLOTS && (pointer == 0 || Live(l, h, pointer).Some?)
    case WriteOp(at, _) => h.inUse && at < h.used
  }

  function Step(l: Layout, h: Host, op: Op): (Host, nat)
    requires Sound(l, h) && OpOk(l, h, op)
  {
    match op
    case MallocOp(linear, size, answer) => MallocStep(l, h, linear, size, answer)
    case ReallocOp(linear, pointer, size, answer) => ReallocStep(l, h, linear, pointer, size, answer)
    case FreeOp(pointer) => (FreeStep(l, h, pointer), 0)
    case WriteOp(at, byte) => (h.(linear := h.linear[at := byte]), 0)
  }

  // ---- live blocks ----

  /** Live blocks do not overlap. */
  lemma LiveApart(l: Layout, h: Host, p: nat, q: nat)
    requires Sound(l, h) && Live(l, h, p).Some? && Live(l, h, q).Some? && p != q
    ensures Apart(p, Live(l, h, p).value, q, Live(l, h, q).value)
  {
  }

  lemma LiveInBounds(l: Layout, h: Host, p: nat)
    requires Sound(l, h) && Live(l, h, p).Some?
    ensures p > 0 && InBounds(l, h, p)
  {
  }

  /** Each arena's blocks answer to their own arena only, so a release goes where the block came from. */
  lemma RoutedHome(l: Layout, h: Host, p: nat)
    requires Sound(l, h) && Live(l, h, p).Some?
    ensures p != 0
    ensures SlotOf(l, h.blocks, p) >= 0 ==> p != l.linear && p !in h.heap
    ensures p == l.linear ==> SlotOf(l, h.blocks, p) < 0 && h.inUse && p !in h.heap
    ensures SlotOf(l, h.blocks, p) < 0 && p != l.linear ==> p in h.heap
  {
  }

  /** After a success at `r`, the block that was asked for is live, `gone` is not, and nothing else changed. */
  ghost predicate Replaced(l: Layout, h: Host, h': Host, gone: nat, r: nat, size: nat)
    requires |h.blocks| == SLOTS && |h'.blocks| == SLOTS
  {
    forall q :: Live(l, h', q) == if q == r then Some(size) else if q == gone then None else Live(l, h, q)
  }

  ghost predicate Released(l: Layout, h: Host, h': Host, gone: nat)
    requires |h.blocks| == SLOTS && |h'.blocks| == SLOTS
  {
    forall q :: Live(l, h', q) == if q == gone then None else Live(l, h, q)
  }

  ghost predicate SameLive(l: Layout, h: Host, h': Host)
    requires |h.blocks| == SLOTS && |h'.blocks| == SLOTS
  {
    forall q :: Live(l, h', q) == Live(l, h, q)
  }

  // What each kind of change does to the live blocks.

  lemma SlotSet(l: Layout, h: Host, slot: nat, b: Block)
    requires Sound(l, h) && slot < SLOTS && BlocksOk(h.blocks[slot := b])
    requires h.blocks[slot].size > 0 ==> b.offset == h.blocks[slot].offset
    ensures var h' := h.(blocks := h.blocks[slot := b]);
            && Sound(l, h')
            && (b.size > 0 ==> Replaced(l, h, h', 0, l.metadata + b.offset, b.size))
            && (b.size == 0 && h.blocks[slot].size > 0 ==> Released(l, h, h', l.metadata + b.offset))
    ensures b.size > 0 && h.blocks[slot].size == 0 ==> Live(l, h, l.metadata + b.offset).None?
  {
    hide Live, BlocksOk;
    SoundParts(l, h);
    var h' := h.(blocks := h.blocks[slot := b]);
    forall p | p in h'.heap ensures FreshHeap(l, h', p, h'.heap[p], p) {
    }
    SlotSetSlots(l, h, slot, b);
    NoneAtZero(l, h);
    forall q ensures Live(l, h', q) == if b.size > 0 && q == l.metadata + b.offset then Some(b.size)
                                       else if h.blocks[slot].size > 0 && q == l.metadata + b.offset then None
                                       else Live(l, h, q)
    {
      SlotSetLive(l, h, slot, b, q);
    }
  }

  lemma NoneAtZero(l: Layout, h: Host)
    requires Sound(l, h)
    ensures Live(l, h, 0).None?
  {
  }

  lemma SlotSetSlots(l: Layout, h: Host, slot: nat, b: Block)
    requires Sound(l, h) && slot < SLOTS && BlocksOk(h.blocks[slot := b])
    ensures b.size > 0 && h.blocks[slot].size == 0 ==> Live(l, h, l.metadata + b.offset).None?
  {
    var now := h.blocks[slot := b];
    assert now[slot] == b && now[1 - slot] == h.blocks[1 - slot];
  }

  lemma SlotSetLive(l: Layout, h: Host, slot: nat, b: Block, q: nat)
    requires Sound(l, h) && slot < SLOTS && BlocksOk(h.blocks[slot := b])
    requires h.blocks[slot].size > 0 ==> b.offset == h.blocks[slot].offset
    ensures var h' := h.(blocks := h.blocks[slot := b]);
            Live(l, h', q) == if b.size > 0 && q == l.metadata + b.offset then Some(b.size)
                              else if h.blocks[slot].size > 0 && q == l.metadata + b.offset then None
                              else Live(l, h, q)
  {
  }

  lemma HeapGives(l: Layout, h: Host, gone: nat, p: nat, size: nat)
    requires Sound(l, h) && FreshHeap(l, h, p, size, gone) && (gone == 0 || gone in h.heap)
    ensures var h' := h.(heap := (h.heap - {gone})[p := size]);
            && Sound(l, h') && Replaced(l, h, h', gone, p, size)
    ensures p > 0 && (p != gone ==> Live(l, h, p).None?)
  {
    hide BlocksOk;
    var h' := h.(heap := (h.heap - {gone})[p := size]);
    forall q | q in h'.heap ensures FreshHeap(l, h', q, h'.heap[q], q) {
    }
    HeapGivesLive(l, h, gone, p, size);
  }

  lemma HeapGivesLive(l: Layout, h: Host, gone: nat, p: nat, size: nat)
    requires Sound(l, h) && FreshHeap(l, h, p, size, gone) && (gone == 0 || gone in h.heap)
    ensures Replaced(l, h, h.(heap := (h.heap - {gone})[p := size]), gone, p, size)
    ensures p != gone ==> Live(l, h, p).None?
  {
    NoneAtZero(l, h);
  }

  lemma HeapTakes(l: Layout, h: Host, gone: nat)
    requires Sound(l, h) && (gone == 0 || gone in h.heap)
    ensures var h' := h.(heap := h.heap - {gone}); Sound(l, h') && Released(l, h, h', gone)
  {
    hide BlocksOk;
    NoneAtZero(l, h);
    var h' := h.(heap := h.heap - {gone});
    forall q | q in h'.heap ensures FreshHeap(l, h', q, h'.heap[q], q) {
    }
    if gone in h.heap {
      HeapNotArena(l, h, gone);
    }
  }

  lemma HeapNotArena(l: Layout, h: Host, p: nat)
    requires Sound(l, h) && p in h.heap
    ensures SlotOf(l, h.blocks, p) < 0 && p != l.linear
  {
  }

  lemma LinearSet(l: Layout, h: Host, linear: seq<Byte>, used: nat, inUse: bool)
    requires Sound(l, h) && |linear| == l.capacity && used <= l.capacity
    ensures var h' := h.(linear := linear, used := used, inUse := inUse);
            && Sound(l, h')
            && (inUse ==> Replaced(l, h, h', l.linear, l.linear, used))
            && (!inUse ==> Released(l, h, h', l.linear))
    ensures !h.inUse ==> Live(l, h, l.linear).None?
  {
    hide BlocksOk;
    var h' := h.(linear := linear, used := used, inUse := inUse);
    forall p | p in h'.heap ensures FreshHeap(l, h', p, h'.heap[p], p) {
    }
    RoutedLinear(l, h);
  }

  lemma NotLive(l: Layout, h: Host, h': Host)
    requires Sound(l, h) && !h.inUse && |h'.blocks| == SLOTS && Released(l, h, h', l.linear)
    ensures SameLive(l, h, h')
  {
    RoutedLinear(l, h);
  }

  lemma RoutedLinear(l: Layout, h: Host)
    requires Sound(l, h)
    ensures SlotOf(l, h.blocks, l.linear) < 0 && l.linear !in h.heap
  {
  }

  /** A malloc adds one block where none was, or changes nothing. */
  lemma MallocLive(l: Layout, h: Host, linear: bool, size: nat, answer: LibcAnswer)
    requires Sound(l, h) && OpOk(l, h, MallocOp(linear, size, answer))
    ensures var (h', r) := MallocStep(l, h, linear, size, answer);
            && Sound(l, h')
            && (r == 0 ==> h' == h)
            && (r != 0 ==> Live(l, h, r).None? && Replaced(l, h, h', 0, r, size))
  {
    hide Search, Live, FreshHeap, Replaced, Released, BlocksOk, Zeroed;
    SoundParts(l, h);
    if !linear && size > LARGE {
      FirstFit(h.blocks, size);
      if MetadataMalloc(h.blocks, size).Some? {
        SlotSet(l, h, FreeSlot(h.blocks), Block(MetadataMalloc(h.blocks, size).value.0, size));
      }
    } else if !linear {
      if answer.Served? {
        NoneAtZero(l, h);
        HeapGives(l, h, 0, answer.p, size);
        ZeroNotOnHeap(l, h);
      }
    } else if !h.inUse && size <= l.capacity {
      LinearSet(l, h, Zeroed(h.linear, 0, size), size, true);
      ReplacedAgain(l, h, h.(linear := Zeroed(h.linear, 0, size), used := size, inUse := true), size);
    }
  }

  lemma ZeroNotOnHeap(l: Layout, h: Host)
    requires Sound(l, h)
    ensures 0 !in h.heap && h.heap - {0} == h.heap
  {
  }

  lemma ReplacedAgain(l: Layout, h: Host, h': Host, size: nat)
    requires Sound(l, h) && |h'.blocks| == SLOTS && Replaced(l, h, h', l.linear, l.linear, size)
    ensures Replaced(l, h, h', 0, l.linear, size)
  {
    hide Live;
    NoneAtZero(l, h);
  }

  lemma MetadataReallocKeeps(blocks: seq<Block>, slot: nat, size: nat)
    requires BlocksOk(blocks) && slot < SLOTS && blocks[slot].size > 0
    ensures var r := MetadataRealloc(blocks, slot, size);
            && (size == 0 ==> r.Some?)
            && (r.Some? ==> r.value == blocks[slot := Block(blocks[slot].offset, size)] && BlocksOk(r.value))
  {
  }

  /**
   * A realloc puts one block in the place of another, releases it for size 0, or changes nothing. The linear memory
   * is served even when it is not in use, and is not live then either.
   */
  lemma ReallocLive(l: Layout, h: Host, linear: bool, pointer: nat, size: nat, answer: LibcAnswer)
    requires Sound(l, h) && OpOk(l, h, ReallocOp(linear, pointer, size, answer))
    ensures var (h', r) := ReallocStep(l, h, linear, pointer, size, answer);
            && Sound(l, h')
            && (r == 0 && size != 0 ==> h' == h)
            && (r == 0 && size == 0 ==> h' == h || Released(l, h, h', pointer))
            && (r != 0 && linear && !h.inUse ==> r == l.linear && SameLive(l, h, h'))
            && (r != 0 && !(linear && !h.inUse) ==>
                  Replaced(l, h, h', pointer, r, size) && (r != pointer ==> Live(l, h, r).None?))
  {
    hide Search, MetadataMalloc, MetadataRealloc, Live, FreshHeap, Replaced, Released, BlocksOk, Zeroed, MallocStep;
    SoundParts(l, h);
    var slot := SlotOf(l, h.blocks, pointer);
    if linear {
      if pointer == l.linear && size <= l.capacity {
        LinearSet(l, h, if size > h.used then Zeroed(h.linear, h.used, size) else h.linear, size, h.inUse);
        if !h.inUse {
          NotLive(l, h, ReallocStep(l, h, linear, pointer, size, answer).0);
        }
      }
    } else if slot >= 0 {
      MetadataReallocKeeps(h.blocks, slot, size);
      if MetadataRealloc(h.blocks, slot, size).Some? {
        SlotSet(l, h, slot, Block(h.blocks[slot].offset, size));
        ReplacedInPlace(l, h, ReallocStep(l, h, linear, pointer, size, answer).0, pointer, size);
      }
    } else if pointer == 0 {
      MallocLive(l, h, linear, size, answer);
    } else if size <= LARGE {
      RoutedHere(l, h, pointer);
      match answer
      case Refused =>
      case Freed => HeapTakes(l, h, pointer);
      case Served(p) => HeapGives(l, h, pointer, p, size);
    }
  }

  lemma ReplacedInPlace(l: Layout, h: Host, h': Host, p: nat, size: nat)
    requires Sound(l, h) && |h'.blocks| == SLOTS
    ensures Replaced(l, h, h', 0, p, size) ==> Replaced(l, h, h', p, p, size)
  {
    hide Live;
    NoneAtZero(l, h);
  }

  /** A live block that is in no metadata slot is the linear memory or libc's. */
  lemma RoutedHere(l: Layout, h: Host, p: nat)
    requires Sound(l, h) && (p == 0 || Live(l, h, p).Some?)
    ensures p == l.linear ==> SlotOf(l, h.blocks, p) < 0 && h.inUse
    ensures SlotOf(l, h.blocks, p) < 0 && p != l.linear && p != 0 ==> p in h.heap
  {
  }

  lemma FreeLive(l: Layout, h: Host, pointer: nat)
    requires Sound(l, h) && OpOk(l, h, FreeOp(pointer))
    ensures Sound(l, FreeStep(l, h, pointer)) && Released(l, h, FreeStep(l, h, pointer), pointer)
  {
    hide Live, FreshHeap, Replaced, Released, BlocksOk;
    SoundParts(l, h);
    var slot := SlotOf(l, h.blocks, pointer);
    RoutedHere(l, h, pointer);
    if slot >= 0 {
      BlocksFreed(h.blocks, slot);
      SlotSet(l, h, slot, h.blocks[slot].(size := 0));
    } else if pointer == l.linear {
      LinearSet(l, h, h.linear, 0, false);
    } else {
      HeapTakes(l, h, pointer);
    }
  }

  lemma BlocksFreed(blocks: seq<Block>, slot: nat)
    requires BlocksOk(blocks) && slot < SLOTS
    ensures BlocksOk(blocks[slot := blocks[slot].(size := 0)])
  {
  }

  // ---- the linear memory ----

  /** The guest's memory as it sees it. */
  function Memory(h: Host): Option<seq<Byte>>
    requires h.used <= |h.linear|
  {
    if h.inUse then Some(h.linear[..h.used]) else None
  }

  /** Growing appends zeros, shrinking truncates. */
  function Resized(m: seq<Byte>, size: nat): seq<Byte> {
    if size <= |m| then m[..size] else m + Zeros(size - |m|)
  }

  function MemoryAfter(l: Layout, m: Option<seq<Byte>>, op: Op): Option<seq<Byte>> {
    match op
    case MallocOp(linear, size, _) => if linear && m.None? && size <= l.capacity then Some(Zeros(size)) else m
    case ReallocOp(linear, pointer, size, _) =>
      if linear && pointer == l.linear && m.Some? && size <= l.capacity then Some(Resized(m.value, size)) else m
    case FreeOp(pointer) => if pointer == l.linear then None else m
    case WriteOp(at, byte) => if m.Some? && at < |m.value| then Some(m.value[..at] + [byte] + m.value[at + 1..]) else m
  }

  lemma MallocMemory(l: Layout, h: Host, size: nat)
    requires Sound(l, h) && !h.inUse && size <= l.capacity
    ensures Zeroed(h.linear, 0, size)[..size] == Zeros(size)
  {
  }

  lemma ResizedMemory(linear: seq<Byte>, used: nat, size: nat)
    requires used <= |linear| && size <= |linear|
    ensures (if size > used then Zeroed(linear, used, size) else linear)[..size] == Resized(linear[..used], size)
  {
  }

  lemma WrittenMemory(linear: seq<Byte>, used: nat, at: nat, byte: Byte)
    requires at < used <= |linear|
    ensures var m: seq<Byte> := linear[..used];
            linear[at := byte][..used] == m[..at] + [byte] + m[at + 1..]
  {
  }

  lemma MemoryStep(l: Layout, h: Host, op: Op)
    requires Sound(l, h) && OpOk(l, h, op)
    ensures Step(l, h, op).0.used <= |Step(l, h, op).0.linear|
    ensures Memory(Step(l, h, op).0) == MemoryAfter(l, Memory(h), op)
  {
    hide Search, MetadataMalloc, MetadataRealloc, FreshHeap, BlocksOk, Live, Zeroed, Resized, Zeros;
    SoundParts(l, h);
    match op
    case MallocOp(linear, size, answer) =>
      if linear && !h.inUse && size <= l.capacity {
        MallocMemory(l, h, size);
      }
    case ReallocOp(linear, pointer, size, answer) =>
      if linear && pointer == l.linear && size <= l.capacity {
        ResizedMemory(h.linear, h.used, size);
      }
    case FreeOp(pointer) => RoutedLinear(l, h);
    case WriteOp(at, byte) => WrittenMemory(h.linear, h.used, at, byte);
  }

  // ---- runs ----

  function MemoryRun(l: Layout, m: Option<seq<Byte>>, ops: seq<Op>): Option<seq<Byte>>
    decreases |ops|
  {
    if ops == [] then m else MemoryRun(l, MemoryAfter(l, m, ops[0]), ops[1..])
  }

  /** The call names this block to move or release it. */
  predicate Takes(op: Op, p: nat) {
    (op.ReallocOp? || op.FreeOp?) && op.pointer == p
  }

  /** Every call keeps the state sound and every block it does not name as it was. */
  lemma StepKeeps(l: Layout, h: Host, op: Op)
    requires Sound(l, h) && OpOk(l, h, op)
    ensures Sound(l, Step(l, h, op).0)
    ensures forall p :: Live(l, h, p).Some? && !Takes(op, p) ==> Live(l, Step(l, h, op).0, p) == Live(l, h, p)
  {
    hide MallocStep, ReallocStep, FreeStep, FreshHeap, BlocksOk, Live;
    SoundParts(l, h);
    NoneAtZero(l, h);
    match op
    case MallocOp(linear, size, answer) => MallocLive(l, h, linear, size, answer);
    case ReallocOp(linear, pointer, size, answer) => ReallocLive(l, h, linear, pointer, size, answer);
    case FreeOp(pointer) => FreeLive(l, h, pointer);
    case WriteOp(at, byte) => WriteKeeps(l, h, at, byte);
  }

  lemma WriteKeeps(l: Layout, h: Host, at: nat, byte: Byte)
    requires Sound(l, h) && h.inUse && at < h.used
    ensures var h' := h.(linear := h.linear[at := byte]);
            Sound(l, h') && forall p :: Live(l, h', p) == Live(l, h, p)
  {
  }

  /** Each call is in order where it is made. */
  ghost predicate RunOk(l: Layout, h: Host, ops: seq<Op>)
    requires Sound(l, h)
    decreases |ops|
  {
    ops != [] ==> OpOk(l, h, ops[0]) && (StepKeeps(l, h, ops[0]); RunOk(l, Step(l, h, ops[0]).0, ops[1..]))
  }

  ghost function Run(l: Layout, h: Host, ops: seq<Op>): Host
    requires Sound(l, h) && RunOk(l, h, ops)
    decreases |ops|
  {
    if ops == [] then h
    else
      StepKeeps(l, h, ops[0]);
      Run(l, Step(l, h, ops[0]).0, ops[1..])
  }

  /** Over every run the state stays sound, blocks no call names stay live, and memory is a sequence of bytes. */
  lemma {:induction false} EveryRun(l: Layout, h: Host, ops: seq<Op>, p: nat)
    requires Sound(l, h) && RunOk(l, h, ops)
    ensures Sound(l, Run(l, h, ops))
    ensures Memory(Run(l, h, ops)) == MemoryRun(l, Memory(h), ops)
    ensures Live(l, h, p).Some? && (forall i :: 0 <= i < |ops| ==> !Takes(ops[i], p)) ==>
              Live(l, Run(l, h, ops), p) == Live(l, h, p)
    decreases |ops|
  {
    hide Step, Sound, OpOk, Live, Memory, MemoryAfter;
    SoundParts(l, h);
    if ops != [] {
      StepKeeps(l, h, ops[0]);
      MemoryStep(l, h, ops[0]);
      EveryRun(l, Step(l, h, ops[0]).0, ops[1..], p);
    }
  }

  /** Nothing allocated; what the linear arena holds does not matter. */
  function Start(linear: seq<Byte>): Host { Host([Block(0, 0), Block(0, 0)], linear, 0, false, map[]) }

  lemma StartIsSound(l: Layout, linear: seq<Byte>)
    requires LayoutOk(l) && |linear| == l.capacity
    ensures Sound(l, Start(linear))
  {
  }

  /** A live block is inside one of the arenas, or libc's and away from both. */
  ghost predicate InBounds(l: Layout, h: Host, p: nat)
    requires |h.blocks| == SLOTS && Live(l, h, p).Some?
  {
    var size := Live(l, h, p).value;
    || (l.metadata <= p && p + size <= l.metadata + FX_METADATA_BYTES)
    || (p == l.linear && size <= l.capacity)
    || (p in h.heap && Apart(p, size, l.metadata, FX_METADATA_BYTES) && Apart(p, size, l.linear, l.capacity))
  }

  /** However calls are mixed from an empty host on, live blocks are in bounds and do not overlap. */
  lemma EveryRunIsSafe(l: Layout, linear: seq<Byte>, ops: seq<Op>, p: nat, q: nat)
    requires LayoutOk(l) && |linear| == l.capacity
    requires (StartIsSound(l, linear); RunOk(l, Start(linear), ops))
    ensures var h := (StartIsSound(l, linear); Run(l, Start(linear), ops));
            && |h.blocks| == SLOTS
            && (Live(l, h, p).Some? ==> p > 0 && InBounds(l, h, p))
            && (Live(l, h, p).Some? && Live(l, h, q).Some? && p != q ==>
                  Apart(p, Live(l, h, p).value, q, Live(l, h, q).value))
  {
    hide Sound, RunOk, Run, Live, Start, InBounds, Apart;
    StartIsSound(l, linear);
    EveryRun(l, Start(linear), ops, p);
    var h := Run(l, Start(linear), ops);
    SoundParts(l, h);
    if Live(l, h, p).Some? {
      LiveInBounds(l, h, p);
      if Live(l, h, q).Some? && p != q {
        LiveApart(l, h, p, q);
      }
    }
  }

  lemma SoundParts(l: Layout, h: Host)
    requires Sound(l, h)
    ensures |h.blocks| == SLOTS && h.used <= |h.linear|
  {
  }
}
