/**
 * Every run of the compact arena: what clients hold is safe, their bytes follow a plain store of byte strings,
 * and the memory reserved is bounded by what was asked for (guest/compact-arena.zig).
 */
module ArenaRuns {
  import opened Bytes
  import opened Alignment
  import opened ArenaModel
  import opened ByteStore

  /** The arena, the byte memory it carves up, and the allocations its clients hold, by client-chosen names. */
  datatype State = State(nodes: seq<Node>, live: map<nat, Block>, mem: seq<Byte>)

  datatype Event =
    | DoAlloc(id: nat, len: nat, align: nat, offer: Option<nat>)
    | DoResize(id: nat, newLen: nat)
    | DoRemap(id: nat, newLen: nat, offer: Option<nat>)
    | DoFree(id: nat)
    | DoWrite(id: nat, index: nat, b: Byte)

  ghost predicate BlockOk(nodes: seq<Node>, b: Block) {
    b.align > 0 && b.ptr % b.align == 0 && Housed(nodes, b)
  }

  ghost predicate LiveOk(nodes: seq<Node>, live: map<nat, Block>) {
    && (forall id :: id in live ==> BlockOk(nodes, live[id]))
    && (forall i, j :: i in live && j in live && i != j ==> BlocksApart(live[i], live[j]))
  }

  /** The arena is well formed, and live blocks are aligned, inside their nodes' data and pairwise disjoint. */
  ghost predicate Safe(s: State) {
    NodesOk(s.nodes, |s.mem|) && LiveOk(s.nodes, s.live)
  }

  /** What a client may do, and what the child allocator may answer. */
  ghost predicate Allowed(s: State, e: Event) {
    match e
    case DoAlloc(id, len, align, offer) =>
      id !in s.live && align > 0 && OfferOk(s.nodes, offer, TotalLen(len, align), |s.mem|)
    case DoResize(id, _) => id in s.live
    case DoRemap(id, newLen, offer) =>
      id in s.live && s.live[id].align > 0 && OfferOk(s.nodes, offer, TotalLen(newLen, s.live[id].align), |s.mem|)
    case DoFree(id) => id in s.live
    case DoWrite(id, index, _) => id in s.live && index < s.live[id].len && s.live[id].ptr + s.live[id].len <= |s.mem|
  }

  ghost function Step(s: State, e: Event): State
    requires Allowed(s, e)
  {
    match e
    case DoAlloc(id, len, align, offer) =>
      var (nodes, r) := Alloc(s.nodes, len, align, offer);
      State(nodes, if r == None then s.live else s.live[id := Block(r.value, len, align)], s.mem)
    case DoResize(id, newLen) =>
      var (nodes, done) := Resize(s.nodes, s.live[id].ptr, s.live[id].len, newLen);
      State(nodes, if done then s.live[id := s.live[id].(len := newLen)] else s.live, s.mem)
    case DoRemap(id, newLen, offer) =>
      var b := s.live[id];
      var (nodes, done) := Resize(s.nodes, b.ptr, b.len, newLen);
      if done then State(nodes, s.live[id := b.(len := newLen)], s.mem)
      else
        var (more, r) := Alloc(s.nodes, newLen, b.align, offer);
        if r == None then State(more, s.live, s.mem)
        else State(more, s.live[id := Block(r.value, newLen, b.align)],
                   Copied(s.mem, r.value, b.ptr, Min(b.len, newLen)))
    case DoFree(id) => State(Free(s.nodes, s.live[id].ptr, s.live[id].len), s.live - {id}, s.mem)
    case DoWrite(id, index, b) => s.(mem := Put(s.mem, s.live[id].ptr + index, b))
  }

  // ---- safety of one step ----

  lemma LiveWith(nodes: seq<Node>, live: map<nat, Block>, id: nat, b: Block)
    requires BlockOk(nodes, b)
    requires forall j :: j in live && j != id ==> BlockOk(nodes, live[j]) && BlocksApart(b, live[j])
    requires forall i, j :: i in live && j in live && i != j ==> BlocksApart(live[i], live[j])
    ensures LiveOk(nodes, live[id := b])
  {
    hide BlockOk;
  }

  lemma AllocLive(s: State, id: nat, len: nat, align: nat, offer: Option<nat>)
    requires Safe(s) && align > 0 && OfferOk(s.nodes, offer, TotalLen(len, align), |s.mem|)
    ensures var (now, r) := Alloc(s.nodes, len, align, offer);
            && NodesOk(now, |s.mem|)
            && (r == None ==> now == s.nodes)
            && (r.Some? ==> && LiveOk(now, s.live[id := Block(r.value, len, align)])
                            && forall j :: j in s.live ==> BlocksApart(s.live[j], Block(r.value, len, align)))
  {
    hide Alloc, NodesOk, Housed, OfferOk;
    var (now, r) := Alloc(s.nodes, len, align, offer);
    AllocKeeps(s.nodes, len, align, offer, |s.mem|);
    forall j | j in s.live
      ensures Housed(now, s.live[j])
      ensures r.Some? ==> BlocksApart(s.live[j], Block(r.value, len, align))
    {
      AllocHouses(s.nodes, len, align, offer, |s.mem|, s.live[j]);
    }
    if r.Some? {
      LiveWith(now, s.live, id, Block(r.value, len, align));
    }
  }

  lemma ResizeLive(s: State, id: nat, newLen: nat)
    requires Safe(s) && id in s.live
    ensures var b := s.live[id]; var (now, done) := Resize(s.nodes, b.ptr, b.len, newLen);
            && NodesOk(now, |s.mem|)
            && (!done ==> now == s.nodes)
            && (done ==> LiveOk(now, s.live[id := b.(len := newLen)]))
  {
    hide Resize, NodesOk, Housed;
    var b := s.live[id];
    var (now, done) := Resize(s.nodes, b.ptr, b.len, newLen);
    ResizeKeeps(s.nodes, b, newLen, |s.mem|);
    forall j | j in s.live && j != id
      ensures Housed(now, s.live[j])
      ensures done ==> BlocksApart(b.(len := newLen), s.live[j])
    {
      ResizeHouses(s.nodes, b, newLen, |s.mem|, s.live[j]);
    }
    if done {
      LiveWith(now, s.live, id, b.(len := newLen));
    }
  }

  lemma FreeLive(s: State, id: nat)
    requires Safe(s) && id in s.live
    ensures var b := s.live[id]; var now := Free(s.nodes, b.ptr, b.len);
            NodesOk(now, |s.mem|) && LiveOk(now, s.live - {id})
  {
    hide Free, NodesOk, Housed;
    var b := s.live[id];
    FreeKeeps(s.nodes, b, |s.mem|);
    forall j | j in s.live && j != id ensures Housed(Free(s.nodes, b.ptr, b.len), s.live[j]) {
      FreeHouses(s.nodes, b, |s.mem|, s.live[j]);
    }
  }

  /** Every allowed step keeps the arena safe. */
  lemma StepKeepsSafe(s: State, e: Event)
    requires Safe(s) && Allowed(s, e)
    ensures Safe(Step(s, e)) && |Step(s, e).mem| == |s.mem|
  {
    hide NodesOk, LiveOk, Alloc, Resize, Free, OfferOk;
    match e
    case DoAlloc(id, len, align, offer) => AllocLive(s, id, len, align, offer);
    case DoResize(id, newLen) => ResizeLive(s, id, newLen);
    case DoRemap(id, newLen, offer) =>
      ResizeLive(s, id, newLen);
      AllocLive(s, id, newLen, s.live[id].align, offer);
    case DoFree(id) => FreeLive(s, id);
    case DoWrite(_, _, _) =>
  }

  // ---- contents ----

  lemma BlockInMemory(s: State, id: nat)
    requires Safe(s) && id in s.live
    ensures s.live[id].ptr + s.live[id].len <= |s.mem|
  {
    var b := s.live[id];
    assert BlockOk(s.nodes, b);
    var i :| 0 <= i < |s.nodes| && InNode(s.nodes[i], b) && (i == 0 ==> InHead(s.nodes[0], b));
    assert NodeOk(s.nodes[i], |s.mem|);
  }

  /** The bytes a client sees under a name. */
  ghost function Contents(s: State, id: nat): seq<Byte>
    requires Safe(s) && id in s.live
  {
    BlockInMemory(s, id);
    s.mem[s.live[id].ptr..s.live[id].ptr + s.live[id].len]
  }

  /** The arena as its clients see it: names and byte strings. */
  ghost function StoreOf(s: State): Store
    requires Safe(s)
  {
    map id | id in s.live :: Contents(s, id)
  }

  /** A step that leaves a block's place and the memory there alone leaves its contents alone. */
  lemma ContentsKept(s: State, t: State, id: nat)
    requires Safe(s) && Safe(t) && |t.mem| == |s.mem| && id in s.live && id in t.live && t.live[id] == s.live[id]
    requires forall i :: s.live[id].ptr <= i < s.live[id].ptr + s.live[id].len && i < |s.mem| ==> t.mem[i] == s.mem[i]
    ensures Contents(t, id) == Contents(s, id)
  {
    BlockInMemory(s, id);
  }

  lemma StoreSame(s: State, t: State, id: nat)
    requires Safe(s) && Safe(t) && s.live.Keys - {id} == t.live.Keys - {id}
    requires forall j :: j in s.live && j in t.live && j != id ==> Contents(t, j) == Contents(s, j)
    ensures SameBut(StoreOf(s), StoreOf(t), id)
  {
    hide Safe, Contents;
    assert forall j :: j in s.live && j != id ==> j in s.live.Keys - {id};
    assert forall j :: j in t.live && j != id ==> j in t.live.Keys - {id};
  }

  lemma SameMemory(s: State, t: State, id: nat)
    requires Safe(s) && Safe(t) && t.mem == s.mem && s.live.Keys - {id} == t.live.Keys - {id}
    requires forall j :: j in s.live && j in t.live && j != id ==> t.live[j] == s.live[j]
    ensures SameBut(StoreOf(s), StoreOf(t), id)
  {
    hide Safe;
    forall j | j in s.live && j in t.live && j != id ensures Contents(t, j) == Contents(s, j) {
      ContentsKept(s, t, j);
    }
    StoreSame(s, t, id);
  }

  lemma WriteFollows(s: State, id: nat, index: nat, b: Byte)
    requires Safe(s) && Allowed(s, DoWrite(id, index, b))
    ensures var t := Step(s, DoWrite(id, index, b));
            Safe(t) && StoreStep(StoreOf(s), WriteOp(id, index, b), StoreOf(t))
  {
    var t := Step(s, DoWrite(id, index, b));
    StepKeepsSafe(s, DoWrite(id, index, b));
    forall j | j in s.live && j != id ensures Contents(t, j) == Contents(s, j) {
      assert BlocksApart(s.live[j], s.live[id]);
      ContentsKept(s, t, j);
    }
    StoreSame(s, t, id);
    assert Contents(t, id) == Put(Contents(s, id), index, b);
    SameStore(StoreOf(s), StoreOf(t), id);
  }

  lemma AllocFollows(s: State, id: nat, len: nat, align: nat, offer: Option<nat>)
    requires Safe(s) && Allowed(s, DoAlloc(id, len, align, offer))
    ensures var t := Step(s, DoAlloc(id, len, align, offer));
            Safe(t) && StoreStep(StoreOf(s), AllocOp(id, len), StoreOf(t))
  {
    hide Safe, Alloc, OfferOk;
    var t := Step(s, DoAlloc(id, len, align, offer));
    StepKeepsSafe(s, DoAlloc(id, len, align, offer));
    SameMemory(s, t, id);
    SameStore(StoreOf(s), StoreOf(t), id);
    if id in t.live {
      BlockInMemory(t, id);
    }
  }

  /** A block resized where it lies, or not at all. */
  lemma InPlaceFollows(s: State, t: State, id: nat, newLen: nat)
    requires Safe(s) && Safe(t) && t.mem == s.mem && id in s.live
    requires t.live == s.live[id := s.live[id].(len := newLen)]
    ensures ResizedOnly(StoreOf(s), StoreOf(t), id, newLen)
  {
    hide Safe, Resized;
    SameMemory(s, t, id);
    BlockInMemory(s, id);
    BlockInMemory(t, id);
    SamePlace(s.mem, s.live[id].ptr, s.live[id].len, newLen);
  }

  lemma UnchangedFollows(s: State, t: State, id: nat)
    requires Safe(s) && Safe(t) && t.mem == s.mem && t.live == s.live && id in s.live
    ensures StoreOf(t) == StoreOf(s) && id in StoreOf(s) && |StoreOf(s)[id]| == s.live[id].len
  {
    hide Safe;
    BlockInMemory(s, id);
    forall j | j in s.live ensures Contents(t, j) == Contents(s, j) {
      ContentsKept(s, t, j);
    }
  }

  lemma ShrinkingSucceeds(nodes: seq<Node>, b: Block, newLen: nat)
    ensures newLen <= b.len ==> Resize(nodes, b.ptr, b.len, newLen).1
  {
  }

  lemma ResizeFollows(s: State, id: nat, newLen: nat)
    requires Safe(s) && Allowed(s, DoResize(id, newLen))
    ensures var t := Step(s, DoResize(id, newLen));
            Safe(t) && StoreStep(StoreOf(s), ResizeOp(id, newLen), StoreOf(t))
  {
    hide Safe, Resize, ResizedOnly, StoreOf;
    var t := Step(s, DoResize(id, newLen));
    StepKeepsSafe(s, DoResize(id, newLen));
    ShrinkingSucceeds(s.nodes, s.live[id], newLen);
    if Resize(s.nodes, s.live[id].ptr, s.live[id].len, newLen).1 {
      InPlaceFollows(s, t, id, newLen);
    } else {
      UnchangedFollows(s, t, id);
    }
  }

  lemma FreeFollows(s: State, id: nat)
    requires Safe(s) && Allowed(s, DoFree(id))
    ensures var t := Step(s, DoFree(id));
            Safe(t) && StoreStep(StoreOf(s), FreeOp(id), StoreOf(t))
  {
    hide Safe, Free;
    var t := Step(s, DoFree(id));
    StepKeepsSafe(s, DoFree(id));
    SameMemory(s, t, id);
    SameStore(StoreOf(s), StoreOf(t), id);
  }

  /** A remap that moves copies between blocks that do not overlap, and disturbs no other block. */
  lemma MovingIsApart(s: State, id: nat, newLen: nat, offer: Option<nat>)
    requires Safe(s) && Allowed(s, DoRemap(id, newLen, offer))
    requires !Resize(s.nodes, s.live[id].ptr, s.live[id].len, newLen).1
    ensures s.live[id].len < newLen
    ensures var r := Alloc(s.nodes, newLen, s.live[id].align, offer).1;
            r.Some? ==> && r.value + newLen <= |s.mem|
                        && forall j :: j in s.live ==> BlocksApart(s.live[j], Block(r.value, newLen, s.live[id].align))
  {
    hide Alloc, Safe;
    AllocLive(s, id, newLen, s.live[id].align, offer);
    var (now, r) := Alloc(s.nodes, newLen, s.live[id].align, offer);
    if r.Some? {
      var t := Step(s, DoRemap(id, newLen, offer));
      StepKeepsSafe(s, DoRemap(id, newLen, offer));
      BlockInMemory(t, id);
    }
  }

  lemma RemapFollows(s: State, id: nat, newLen: nat, offer: Option<nat>)
    requires Safe(s) && Allowed(s, DoRemap(id, newLen, offer))
    ensures var t := Step(s, DoRemap(id, newLen, offer));
            Safe(t) && StoreStep(StoreOf(s), RemapOp(id, newLen), StoreOf(t))
  {
    hide Safe, Resize, Alloc, OfferOk, ResizedOnly, StoreOf, Copied;
    var b := s.live[id];
    var t := Step(s, DoRemap(id, newLen, offer));
    StepKeepsSafe(s, DoRemap(id, newLen, offer));
    if Resize(s.nodes, b.ptr, b.len, newLen).1 {
      InPlaceFollows(s, t, id, newLen);
    } else {
      MovingIsApart(s, id, newLen, offer);
      var r := Alloc(s.nodes, newLen, b.align, offer).1;
      if r == None {
        UnchangedFollows(s, t, id);
      } else {
        MovedStore(s, t, id, r.value, newLen);
      }
    }
  }

  /** Memory after the copy: the moved block starts with its old bytes, all other blocks keep theirs. */
  lemma MovedStore(s: State, t: State, id: nat, dst: nat, newLen: nat)
    requires Safe(s) && Safe(t) && id in s.live && s.live[id].len < newLen && dst + newLen <= |s.mem|
    requires t.live == s.live[id := Block(dst, newLen, s.live[id].align)]
    requires t.mem == Copied(s.mem, dst, s.live[id].ptr, s.live[id].len)
    requires forall j :: j in s.live ==> BlocksApart(s.live[j], Block(dst, newLen, s.live[id].align))
    ensures ResizedOnly(StoreOf(s), StoreOf(t), id, newLen)
  {
    hide Safe, Resized, Copied;
    BlockInMemory(s, id);
    MovedOthers(s, t, id, dst, newLen);
    CopiedResizes(s.mem, dst, s.live[id].ptr, s.live[id].len, newLen);
  }

  lemma MovedOthers(s: State, t: State, id: nat, dst: nat, newLen: nat)
    requires Safe(s) && Safe(t) && id in s.live && s.live[id].len < newLen && dst + newLen <= |s.mem|
    requires t.live == s.live[id := Block(dst, newLen, s.live[id].align)]
    requires t.mem == Copied(s.mem, dst, s.live[id].ptr, s.live[id].len)
    requires forall j :: j in s.live ==> BlocksApart(s.live[j], Block(dst, newLen, s.live[id].align))
    ensures SameBut(StoreOf(s), StoreOf(t), id)
  {
    hide Safe, StoreOf, SameBut;
    forall j | j in s.live && j != id ensures Contents(t, j) == Contents(s, j) {
      ContentsKept(s, t, j);
    }
    StoreSame(s, t, id);
  }

  /** An event as the request its client makes. */
  function OpOf(e: Event): Op {
    match e
    case DoAlloc(id, len, _, _) => AllocOp(id, len)
    case DoResize(id, newLen) => ResizeOp(id, newLen)
    case DoRemap(id, newLen, _) => RemapOp(id, newLen)
    case DoFree(id) => FreeOp(id)
    case DoWrite(id, index, b) => WriteOp(id, index, b)
  }

  function Ops(events: seq<Event>): seq<Op> {
    if events == [] then [] else [OpOf(events[0])] + Ops(events[1..])
  }

  /** Every allowed step is safe and answers as a plain store of byte strings would. */
  lemma StepFollowsStore(s: State, e: Event)
    requires Safe(s) && Allowed(s, e)
    ensures Safe(Step(s, e)) && |Step(s, e).mem| == |s.mem|
    ensures StoreStep(StoreOf(s), OpOf(e), StoreOf(Step(s, e)))
  {
    hide Safe, StoreStep, Step, StoreOf;
    StepKeepsSafe(s, e);
    match e
    case DoAlloc(id, len, align, offer) => AllocFollows(s, id, len, align, offer);
    case DoResize(id, newLen) => ResizeFollows(s, id, newLen);
    case DoRemap(id, newLen, offer) => RemapFollows(s, id, newLen, offer);
    case DoFree(id) => FreeFollows(s, id);
    case DoWrite(id, index, b) => WriteFollows(s, id, index, b);
  }

  // ---- the memory bound ----

  /** What a step asks of the arena: the worst case of a successful allocation, or the bytes grown in place. */
  ghost function Asked(s: State, e: Event): nat
    requires Allowed(s, e)
  {
    match e
    case DoAlloc(id, len, align, offer) =>
      if Alloc(s.nodes, len, align, offer).1.Some? then len + align - 1 else 0
    case DoResize(id, newLen) => GrownBy(s, id, newLen)
    case DoRemap(id, newLen, offer) =>
      var b := s.live[id];
      if Resize(s.nodes, b.ptr, b.len, newLen).1 then GrownBy(s, id, newLen)
      else if Alloc(s.nodes, newLen, b.align, offer).1.Some? then newLen + b.align - 1 else 0
    case DoFree(_) => 0
    case DoWrite(_, _, _) => 0
  }

  ghost function GrownBy(s: State, id: nat, newLen: nat): nat
    requires id in s.live
  {
    var b := s.live[id];
    if Resize(s.nodes, b.ptr, b.len, newLen).1 && newLen > b.len then newLen - b.len else 0
  }

  function TotalData(nodes: seq<Node>): nat {
    if nodes == [] then 0 else nodes[0].DataLen() + TotalData(nodes[1..])
  }

  /** All data outside the head, and the head's used part, was paid for twice at most; the head's slack is one chunk. */
  ghost predicate Paid(nodes: seq<Node>, asked: nat) {
    nodes != [] ==>
      && TotalData(nodes[1..]) + nodes[0].used <= 2 * asked
      && TotalData(nodes) <= 2 * asked + CHUNK_BYTES
  }

  lemma AllocPaid(nodes: seq<Node>, len: nat, align: nat, offer: Option<nat>, limit: nat, asked: nat)
    requires align > 0 && NodesOk(nodes, limit) && OfferOk(nodes, offer, TotalLen(len, align), limit)
             && Paid(nodes, asked)
    ensures var (now, r) := Alloc(nodes, len, align, offer);
            Paid(now, asked + if r.Some? then len + align - 1 else 0)
  {
    var (now, r) := Alloc(nodes, len, align, offer);
    if HeadFits(nodes, len, align) {
      assert now[1..] == nodes[1..];
    } else if NODE_BYTES + (align - 1) + len <= USIZE_MAX && offer.Some? {
      FreshNodeServes(offer.value, len, align);
      assert now[1..] == nodes;
    }
  }

  lemma ResizePaid(nodes: seq<Node>, b: Block, newLen: nat, limit: nat, asked: nat)
    requires NodesOk(nodes, limit) && Paid(nodes, asked)
    ensures var (now, done) := Resize(nodes, b.ptr, b.len, newLen);
            Paid(now, asked + if done && newLen > b.len then newLen - b.len else 0)
  {
    var (now, done) := Resize(nodes, b.ptr, b.len, newLen);
    if nodes != [] {
      assert now[1..] == nodes[1..];
    }
  }

  lemma FreePaid(nodes: seq<Node>, b: Block, limit: nat, asked: nat)
    requires NodesOk(nodes, limit) && Paid(nodes, asked)
    ensures Paid(Free(nodes, b.ptr, b.len), asked)
  {
    var now := Free(nodes, b.ptr, b.len);
    if nodes != [] {
      assert now[1..] == nodes[1..];
    }
  }

  lemma StepPaid(s: State, e: Event, asked: nat)
    requires Safe(s) && Allowed(s, e) && Paid(s.nodes, asked)
    ensures Paid(Step(s, e).nodes, asked + Asked(s, e))
  {
    hide Alloc, Resize, Free, NodesOk, LiveOk, OfferOk, Paid;
    match e
    case DoAlloc(id, len, align, offer) => AllocPaid(s.nodes, len, align, offer, |s.mem|, asked);
    case DoResize(id, newLen) => ResizePaid(s.nodes, s.live[id], newLen, |s.mem|, asked);
    case DoRemap(id, newLen, offer) =>
      ResizePaid(s.nodes, s.live[id], newLen, |s.mem|, asked);
      AllocPaid(s.nodes, newLen, s.live[id].align, offer, |s.mem|, asked);
      ResizeLive(s, id, newLen);
      AllocLive(s, id, newLen, s.live[id].align, offer);
    case DoFree(id) => FreePaid(s.nodes, s.live[id], |s.mem|, asked);
    case DoWrite(_, _, _) =>
  }

  lemma {:induction false} DataAtLeastChunks(nodes: seq<Node>)
    requires forall i :: 0 <= i < |nodes| ==> nodes[i].total >= NODE_BYTES + CHUNK_BYTES
    ensures TotalData(nodes) >= CHUNK_BYTES * |nodes|
  {
    if nodes != [] {
      DataAtLeastChunks(nodes[1..]);
    }
  }

  lemma {:induction false} ReservedIsDataAndHeaders(nodes: seq<Node>)
    requires forall i :: 0 <= i < |nodes| ==> nodes[i].total >= NODE_BYTES
    ensures Reserved(nodes) == TotalData(nodes) + NODE_BYTES * |nodes|
  {
    if nodes != [] {
      ReservedIsDataAndHeaders(nodes[1..]);
    }
  }

  // ---- whole runs ----

  /** A run: every step is allowed where it is taken. */
  ghost predicate IsRun(s: State, events: seq<Event>)
    decreases |events|
  {
    events != [] ==> Allowed(s, events[0]) && IsRun(Step(s, events[0]), events[1..])
  }

  ghost function Run(s: State, events: seq<Event>): State
    requires IsRun(s, events)
    decreases |events|
  {
    if events == [] then s else Run(Step(s, events[0]), events[1..])
  }

  ghost function TotalAsked(s: State, events: seq<Event>): nat
    requires IsRun(s, events)
    decreases |events|
  {
    if events == [] then 0 else Asked(s, events[0]) + TotalAsked(Step(s, events[0]), events[1..])
  }

  lemma {:induction false} RunFrom(s: State, events: seq<Event>, asked: nat)
    requires Safe(s) && IsRun(s, events) && Paid(s.nodes, asked)
    ensures Safe(Run(s, events))
    ensures StoreRun(StoreOf(s), Ops(events), StoreOf(Run(s, events)))
    ensures Paid(Run(s, events).nodes, asked + TotalAsked(s, events))
    decreases |events|
  {
    hide Safe, Paid, Step, StoreStep, StoreOf, Allowed;
    if events != [] {
      StepFollowsStore(s, events[0]);
      StepPaid(s, events[0], asked);
      assert Ops(events)[1..] == Ops(events[1..]);
      RunFrom(Step(s, events[0]), events[1..], asked + Asked(s, events[0]));
    }
  }

  /**
   * Every run from an empty arena is safe, its clients see a plain store of byte strings, and it reserves at
   * most twice what was asked for plus one chunk of data, in at most one node per 256 bytes asked, plus one.
   */
  lemma EveryRun(mem: seq<Byte>, events: seq<Event>)
    requires IsRun(State([], map[], mem), events)
    ensures var start := State([], map[], mem); var end := Run(start, events); var asked := TotalAsked(start, events);
            && Safe(start) && Safe(end)
            && StoreRun(map[], Ops(events), StoreOf(end))
            && TotalData(end.nodes) <= 2 * asked + CHUNK_BYTES
            && |end.nodes| <= asked / 256 + 1
            && Reserved(end.nodes) == TotalData(end.nodes) + NODE_BYTES * |end.nodes|
            && Reserved(end.nodes) <= 2 * asked + CHUNK_BYTES + NODE_BYTES * (asked / 256 + 1)
  {
    hide Run, IsRun, TotalAsked, StoreRun, Housed, BlocksApart, Ops;
    var start := State([], map[], mem);
    var end := Run(start, events);
    assert StoreOf(start) == map[];
    RunFrom(start, events, 0);
    ReservedIsDataAndHeaders(end.nodes);
    if end.nodes != [] {
      DataAtLeastChunks(end.nodes[1..]);
    }
  }
}
