/**
 * Runs of the whole tower: the arena whose nodes are slices of the aligned allocator, whose blocks are malloc's
 * (guest/compact-arena.zig over guest/compact-allocator.zig). Every byte is in the guest's memory: malloc writes to
 * it, header words and node headers are written to it, and what clients of the arena and other users of the
 * allocator hold is in it.
 */
module TowerRuns {
  import opened Bytes
  import opened Alignment
  import opened ByteStore
  import opened MemoryTower
  import A = AlignedAllocator
  import M = ArenaModel
  import R = ArenaRuns

  /** The allocator's state, the arena's nodes, the names of their slices, and the blocks clients of the arena hold. */
  datatype Tower = Tower(heap: A.State, nodes: seq<M.Node>, names: seq<nat>, live: map<nat, M.Block>)

  datatype Request =
    | Alloc(id: nat, len: nat, align: nat)
    | Resize(id: nat, newLen: nat)
    | Remap(id: nat, newLen: nat)
    | Free(id: nat)
    | Write(id: nat, index: nat, b: Byte)

  /**
   * A request, the name and malloc's answer for a node in case one is asked for, and memory when the arena has
   * written its node headers.
   */
  datatype Event = Event(request: Request, child: nat, answer: Option<A.Answer>, after: seq<Byte>)

  function View(t: Tower): R.State { R.State(t.nodes, t.live, t.heap.mem) }

  ghost predicate TowerOk(t: Tower) {
    && A.Safe(t.heap) && NodesAreSlices(t.heap, t.nodes, t.names) && R.Safe(View(t))
    && forall i, j :: 0 <= i < j < |t.names| ==> t.names[i] != t.names[j]
  }

  // ---- one request ----

  /** The request is in order: new names are new, others are held, and writes stay inside. */
  predicate RequestOk(t: Tower, r: Request) {
    match r
    case Alloc(id, _, align) => id !in t.live && align > 0
    case Resize(id, _) => id in t.live
    case Remap(id, _) => id in t.live && t.live[id].align > 0
    case Free(id) => id in t.live
    case Write(id, index, _) => id in t.live && index < t.live[id].len
  }

  function Asks(nodes: seq<M.Node>, len: nat, align: nat): Option<nat>
    requires align > 0
  {
    if !M.HeadFits(nodes, len, align) && M.NODE_BYTES + (align - 1) + len <= USIZE_MAX then Some(M.TotalLen(len, align))
    else None
  }

  /** The length of the node the arena asks its child for, if the request makes it ask. */
  function Wants(t: Tower, r: Request): Option<nat>
    requires RequestOk(t, r)
  {
    match r
    case Alloc(_, len, align) => Asks(t.nodes, len, align)
    case Remap(id, newLen) =>
      var b := t.live[id];
      if M.Resize(t.nodes, b.ptr, b.len, newLen).1 then None else Asks(t.nodes, newLen, b.align)
    case _ => None
  }

  ghost predicate ChildOk(t: Tower, e: Event)
    requires A.Safe(t.heap) && RequestOk(t, e.request)
  {
    match Wants(t, e.request)
    case None => true
    case Some(total) => A.Allowed(t.heap, A.DoAlloc(e.child, total, M.NODE_ALIGN, e.answer))
  }

  /** The allocator once it has served a node, or when it was not asked. */
  ghost function Served(t: Tower, e: Event): A.State
    requires A.Safe(t.heap) && RequestOk(t, e.request) && ChildOk(t, e)
  {
    match Wants(t, e.request)
    case None => t.heap
    case Some(total) => A.Step(t.heap, A.DoAlloc(e.child, total, M.NODE_ALIGN, e.answer))
  }

  ghost function Offer(t: Tower, e: Event): Option<nat>
    requires A.Safe(t.heap) && RequestOk(t, e.request) && ChildOk(t, e)
  {
    if Wants(t, e.request).Some? && e.child in Served(t, e).live then Some(Served(t, e).live[e.child].ptr) else None
  }

  ghost function ArenaEvent(t: Tower, e: Event): R.Event
    requires A.Safe(t.heap) && RequestOk(t, e.request) && ChildOk(t, e)
  {
    match e.request
    case Alloc(id, len, align) => R.DoAlloc(id, len, align, Offer(t, e))
    case Resize(id, newLen) => R.DoResize(id, newLen)
    case Remap(id, newLen) => R.DoRemap(id, newLen, Offer(t, e))
    case Free(id) => R.DoFree(id)
    case Write(id, index, b) => R.DoWrite(id, index, b)
  }

  function OpOf(r: Request): Op {
    match r
    case Alloc(id, len, _) => AllocOp(id, len)
    case Resize(id, newLen) => ResizeOp(id, newLen)
    case Remap(id, newLen) => RemapOp(id, newLen)
    case Free(id) => FreeOp(id)
    case Write(id, index, b) => WriteOp(id, index, b)
  }

  /** The arena as the request finds it, when the child allocator has written what it writes. */
  ghost function Found(t: Tower, e: Event): R.State
    requires A.Safe(t.heap) && RequestOk(t, e.request) && ChildOk(t, e)
  {
    R.State(t.nodes, t.live, Served(t, e).mem)
  }

  ghost predicate InHeader(nodes: seq<M.Node>, i: nat) {
    exists k :: 0 <= k < |nodes| && nodes[k].addr <= i < nodes[k].addr + M.NODE_BYTES
  }

  /** Memory differs in node headers only. */
  ghost predicate HeadersWritten(nodes: seq<M.Node>, mem: seq<Byte>, after: seq<Byte>) {
    |after| == |mem| && forall i :: 0 <= i < |mem| && !InHeader(nodes, i) ==> after[i] == mem[i]
  }

  ghost predicate Allowed(t: Tower, e: Event)
    requires TowerOk(t)
  {
    && RequestOk(t, e.request) && ChildOk(t, e)
    && (FoundOk(t, e);
        var s := R.Step(Found(t, e), ArenaEvent(t, e));
        HeadersWritten(s.nodes, s.mem, e.after))
  }

  ghost function Step(t: Tower, e: Event): Tower
    requires TowerOk(t) && Allowed(t, e)
  {
    FoundOk(t, e);
    var s := R.Step(Found(t, e), ArenaEvent(t, e));
    Tower(Served(t, e).(mem := e.after), s.nodes,
          if Offer(t, e).Some? then [e.child] + t.names else t.names, s.live)
  }

  // ---- the child's part ----

  /** Slices keep their place, their malloc block and every byte of it, except those of the given names. */
  ghost predicate Spares(h: A.State, g: A.State, names: set<nat>)
    requires A.Safe(h) && A.Safe(g)
  {
    |g.mem| == |h.mem| && forall j :: j in h.live && j !in names ==> SparesOne(h, g, j)
  }

  ghost predicate SparesOne(h: A.State, g: A.State, j: nat)
    requires A.Safe(h) && A.Safe(g) && j in h.live
  {
    && j in g.live && g.live[j] == h.live[j]
    && (A.SafeBase(h, j); A.SafeBase(g, j);
        var base := A.Base(h.mem, h.live[j]);
        && A.Base(g.mem, g.live[j]) == base && g.heap[base] == h.heap[base]
        && A.SameRange(h.mem, g.mem, base, h.heap[base]))
  }

  lemma ServedSpares(t: Tower, e: Event)
    requires TowerOk(t) && RequestOk(t, e.request) && ChildOk(t, e)
    ensures var g := Served(t, e); A.Safe(g) && Spares(t.heap, g, {})
    ensures Served(t, e).live
            == if Offer(t, e).Some? then t.heap.live[e.child := Served(t, e).live[e.child]] else t.heap.live
    ensures Offer(t, e).Some? ==> Wants(t, e.request).Some? && e.child !in t.heap.live && e.child in Served(t, e).live
  {
    hide A.Safe, A.Base, A.SameRange, Wants, A.StoreOf, R.Safe, NodesAreSlices;
    var g := Served(t, e);
    match Wants(t, e.request)
    case None =>
      SparesSelf(t.heap);
    case Some(total) =>
      A.AllocSpares(t.heap, e.child, total, M.NODE_ALIGN, e.answer);
      forall j | j in t.heap.live ensures SparesOne(t.heap, g, j) {
        A.SafeBase(t.heap, j);
        A.SafeBase(g, j);
        A.BlockKept(t.heap, g.mem, j);
      }
  }

  lemma SparesSelf(h: A.State)
    requires A.Safe(h)
    ensures Spares(h, h, {})
  {
    hide A.Safe, A.Base;
    forall j | j in h.live ensures SparesOne(h, h, j) {
      A.SafeBase(h, j);
    }
  }

  /** A node's bytes are those of its slice, inside the slice's malloc block. */
  lemma NodeInBlock(h: A.State, nodes: seq<M.Node>, names: seq<nat>, k: nat)
    requires A.Safe(h) && NodesAreSlices(h, nodes, names) && k < |nodes|
    ensures k < |names| && names[k] in h.live
    ensures (A.SafeBase(h, names[k]);
             var base := A.Base(h.mem, h.live[names[k]]);
             base <= nodes[k].addr && nodes[k].addr + nodes[k].total <= base + h.heap[base])
  {
    hide A.Base;
    A.BlockInside(h, names[k]);
  }

  /** Serving a node leaves the bytes of the nodes there are alone. */
  lemma NodesSpared(t: Tower, e: Event, k: nat, i: nat)
    requires TowerOk(t) && RequestOk(t, e.request) && ChildOk(t, e)
    requires k < |t.nodes| && t.nodes[k].addr <= i < t.nodes[k].addr + t.nodes[k].total
    ensures i < |t.heap.mem| == |Served(t, e).mem| && Served(t, e).mem[i] == t.heap.mem[i]
  {
    hide A.Safe, A.Base, Served, Wants, R.Safe, NodesAreSlices;
    ServedSpares(t, e);
    NodeInBlock(t.heap, t.nodes, t.names, k);
    assert SparesOne(t.heap, Served(t, e), t.names[k]);
  }

  // ---- the arena's part ----

  /** Where a live block is. */
  lemma BlockInNode(s: R.State, id: nat) returns (k: nat)
    requires R.Safe(s) && id in s.live
    ensures k < |s.nodes| && M.InNode(s.nodes[k], s.live[id]) && M.NodeOk(s.nodes[k], |s.mem|)
  {
    assert R.BlockOk(s.nodes, s.live[id]);
    k :| 0 <= k < |s.nodes| && M.InNode(s.nodes[k], s.live[id]) && (k == 0 ==> M.InHead(s.nodes[0], s.live[id]));
  }

  /** What clients hold does not depend on memory outside the nodes' data. */
  lemma SameData(s: R.State, mem: seq<Byte>)
    requires R.Safe(s) && |mem| == |s.mem|
    requires forall k, i ::
               0 <= k < |s.nodes| && s.nodes[k].Data() <= i < s.nodes[k].addr + s.nodes[k].total && i < |mem| ==>
                 mem[i] == s.mem[i]
    ensures R.Safe(s.(mem := mem)) && R.StoreOf(s.(mem := mem)) == R.StoreOf(s)
  {
    hide R.LiveOk, M.NodesOk;
    var t := s.(mem := mem);
    forall id | id in s.live ensures R.Contents(t, id) == R.Contents(s, id) {
      var k := BlockInNode(s, id);
      R.BlockInMemory(s, id);
      R.ContentsKept(s, t, id);
    }
  }

  lemma FoundOk(t: Tower, e: Event)
    requires TowerOk(t) && RequestOk(t, e.request) && ChildOk(t, e)
    ensures R.Safe(Found(t, e)) && R.StoreOf(Found(t, e)) == R.StoreOf(View(t))
    ensures R.Allowed(Found(t, e), ArenaEvent(t, e))
  {
    hide A.Safe, R.Safe, A.Base, Served, Wants, M.OfferOk, R.StoreOf;
    var s := View(t);
    ServedSpares(t, e);
    NodeLengths(s);
    forall k, i | 0 <= k < |t.nodes| && t.nodes[k].Data() <= i < t.nodes[k].addr + t.nodes[k].total && i < |s.mem|
      ensures Served(t, e).mem[i] == s.mem[i]
    {
      NodesSpared(t, e, k, i);
    }
    SameData(s, Served(t, e).mem);
    ArenaMay(t, e);
  }

  lemma ArenaMay(t: Tower, e: Event)
    requires TowerOk(t) && RequestOk(t, e.request) && ChildOk(t, e) && R.Safe(Found(t, e))
    ensures R.Allowed(Found(t, e), ArenaEvent(t, e))
  {
    hide A.Safe, R.Safe, A.Base, Served, M.OfferOk, M.HeadFits, M.Resize, NodesAreSlices;
    OfferIsOk(t, e);
    match e.request
    case Alloc(_, len, align) => NoOffer(t.nodes, M.TotalLen(len, align), |Served(t, e).mem|);
    case Remap(id, newLen) => NoOffer(t.nodes, M.TotalLen(newLen, t.live[id].align), |Served(t, e).mem|);
    case Write(id, _, _) => R.BlockInMemory(Found(t, e), id);
    case _ =>
  }

  lemma NoOffer(nodes: seq<M.Node>, total: nat, limit: nat)
    ensures M.OfferOk(nodes, None, total, limit)
  {
  }

  lemma NodeLengths(s: R.State)
    requires R.Safe(s)
    ensures forall k :: 0 <= k < |s.nodes| ==> s.nodes[k].addr + s.nodes[k].total <= |s.mem|
  {
  }

  lemma OfferIsOk(t: Tower, e: Event)
    requires TowerOk(t) && RequestOk(t, e.request) && ChildOk(t, e)
    ensures Wants(t, e.request).None? ==> Offer(t, e) == None
    ensures Wants(t, e.request).Some? ==>
              M.OfferOk(t.nodes, Offer(t, e), Wants(t, e.request).value, |Served(t, e).mem|)
    ensures NodesAreSlices(Served(t, e), t.nodes, t.names)
    ensures Offer(t, e).Some? ==> Served(t, e).live[e.child].len == Wants(t, e.request).value
  {
    hide A.Safe, R.Safe, A.Base, M.OfferOk, A.Step, NodesAreSlices, Wants;
    if Wants(t, e.request).Some? {
      AnswersAreOffers(t.heap, t.nodes, t.names, e.child, Wants(t, e.request).value, e.answer);
    }
  }

  /** The same nodes at the same places, whatever is used of them. */
  predicate SameFrame(a: seq<M.Node>, b: seq<M.Node>) {
    |a| == |b| && forall k :: 0 <= k < |a| ==> a[k].addr == b[k].addr && a[k].total == b[k].total
  }

  lemma AllocFrame(nodes: seq<M.Node>, len: nat, align: nat, offer: Option<nat>)
    requires align > 0
    ensures var now := M.Alloc(nodes, len, align, offer).0;
            if Asks(nodes, len, align).Some? && offer.Some? then
              && now != [] && now[0].addr == offer.value && now[0].total == Asks(nodes, len, align).value
              && now[1..] == nodes
            else SameFrame(nodes, now)
  {
    if Asks(nodes, len, align).Some? && offer.Some? {
      M.FreshNodeServes(offer.value, len, align);
    }
  }

  lemma ResizeFrame(nodes: seq<M.Node>, ptr: nat, len: nat, newLen: nat)
    ensures SameFrame(nodes, M.Resize(nodes, ptr, len, newLen).0) && SameFrame(nodes, M.Free(nodes, ptr, len))
    ensures SameFrame(nodes, nodes)
    ensures !M.Resize(nodes, ptr, len, newLen).1 ==> M.Resize(nodes, ptr, len, newLen).0 == nodes
  {
  }

  lemma StepFrame(t: Tower, e: Event)
    requires TowerOk(t) && RequestOk(t, e.request) && ChildOk(t, e)
    ensures (FoundOk(t, e);
             var now := R.Step(Found(t, e), ArenaEvent(t, e)).nodes;
             if Offer(t, e).Some? then
               && now != [] && now[0].addr == Offer(t, e).value && Wants(t, e.request) == Some(now[0].total)
               && now[1..] == t.nodes
             else SameFrame(t.nodes, now))
  {
    hide R.Safe, A.Safe, Served, NodesAreSlices, Asks, M.Alloc, M.Resize, M.Free, M.OfferOk, R.Allowed, SameFrame;
    FoundOk(t, e);
    OfferIsOk(t, e);
    match e.request
    case Alloc(_, len, align) => AllocFrame(t.nodes, len, align, Offer(t, e));
    case Resize(id, newLen) => ResizeFrame(t.nodes, t.live[id].ptr, t.live[id].len, newLen);
    case Remap(id, newLen) =>
      ResizeFrame(t.nodes, t.live[id].ptr, t.live[id].len, newLen);
      AllocFrame(t.nodes, newLen, t.live[id].align, Offer(t, e));
    case Free(id) => ResizeFrame(t.nodes, t.live[id].ptr, t.live[id].len, 0);
    case Write(_, _, _) => ResizeFrame(t.nodes, 0, 0, 0);
  }

  ghost predicate InNodes(nodes: seq<M.Node>, i: nat) {
    exists k :: 0 <= k < |nodes| && nodes[k].addr <= i < nodes[k].addr + nodes[k].total
  }

  lemma InBlockInNodes(s: R.State, id: nat, i: nat)
    requires R.Safe(s) && id in s.live && s.live[id].ptr <= i < s.live[id].ptr + s.live[id].len
    ensures InNodes(s.nodes, i)
  {
    var k := BlockInNode(s, id);
  }

  /** The arena writes inside its nodes only. */
  lemma WritesInside(s: R.State, e: R.Event)
    requires R.Safe(s) && R.Allowed(s, e)
    ensures var t := R.Step(s, e);
            |t.mem| == |s.mem| && forall i :: 0 <= i < |s.mem| && !InNodes(t.nodes, i) ==> t.mem[i] == s.mem[i]
  {
    hide R.Safe, InNodes, M.Alloc, M.Resize;
    var t := R.Step(s, e);
    R.StepKeepsSafe(s, e);
    match e
    case DoWrite(id, index, b) => InBlockInNodes(t, id, s.live[id].ptr + index);
    case DoRemap(id, newLen, offer) =>
      forall i | 0 <= i < |s.mem| && !InNodes(t.nodes, i) ensures t.mem[i] == s.mem[i] {
        if t.live[id].ptr <= i < t.live[id].ptr + t.live[id].len {
          InBlockInNodes(t, id, i);
        }
      }
    case _ =>
  }

  lemma HeaderInNodes(s: R.State, i: nat)
    requires R.Safe(s) && InHeader(s.nodes, i)
    ensures InNodes(s.nodes, i)
  {
    var k :| 0 <= k < |s.nodes| && s.nodes[k].addr <= i < s.nodes[k].addr + M.NODE_BYTES;
    assert M.NodeOk(s.nodes[k], |s.mem|);
  }

  /** Node headers are outside all node data. */
  lemma DataNotHeader(s: R.State, k: nat, i: nat)
    requires R.Safe(s) && k < |s.nodes| && s.nodes[k].Data() <= i < s.nodes[k].addr + s.nodes[k].total
    ensures !InHeader(s.nodes, i)
  {
    hide R.LiveOk;
    forall j | 0 <= j < |s.nodes| ensures !(s.nodes[j].addr <= i < s.nodes[j].addr + M.NODE_BYTES) {
      assert M.NodeOk(s.nodes[j], |s.mem|);
      if j < k {
        assert M.NodesApart(s.nodes[j], s.nodes[k]);
      } else if k < j {
        assert M.NodesApart(s.nodes[k], s.nodes[j]);
      }
    }
  }

  // ---- both together ----

  lemma NodesInPayload(h: A.State, nodes: seq<M.Node>, names: seq<nat>, i: nat)
    requires NodesAreSlices(h, nodes, names) && InNodes(nodes, i)
    ensures A.InPayload(h.live, i)
  {
    var k :| 0 <= k < |nodes| && nodes[k].addr <= i < nodes[k].addr + nodes[k].total;
    assert names[k] in h.live;
  }

  /** The nodes after the request are the slices that were there, and the one served in front. */
  lemma StillSlices(t: Tower, e: Event)
    requires TowerOk(t) && Allowed(t, e)
    ensures var u := Step(t, e);
            && NodesAreSlices(u.heap, u.nodes, u.names)
            && NodesAreSlices(Served(t, e), u.nodes, u.names)
            && forall i, j :: 0 <= i < j < |u.names| ==> u.names[i] != u.names[j]
  {
    hide A.Safe, R.Safe, Served, Wants, R.Step, R.Allowed, HeadersWritten, M.OfferOk;
    FoundOk(t, e);
    OfferIsOk(t, e);
    StepFrame(t, e);
    ServedSpares(t, e);
    var u := Step(t, e);
    if Offer(t, e).Some? {
      forall k | 0 <= k < |u.nodes|
        ensures var n := u.names[k];
                n in u.heap.live && u.heap.live[n].ptr == u.nodes[k].addr && u.heap.live[n].len == u.nodes[k].total
      {
        if k > 0 {
          assert u.nodes[k] == t.nodes[k - 1];
        }
      }
    }
  }

  lemma StepSafe(t: Tower, e: Event)
    requires TowerOk(t) && Allowed(t, e)
    ensures A.Safe(Step(t, e).heap)
    ensures var u := Step(t, e);
            |u.heap.mem| == |Served(t, e).mem|
            && forall i :: 0 <= i < |u.heap.mem| && !InNodes(u.nodes, i) ==> u.heap.mem[i] == Served(t, e).mem[i]
    ensures var u := Step(t, e); forall j :: j in u.heap.live ==>
              A.WORD <= u.heap.live[j].ptr <= |u.heap.mem|
              && A.Base(u.heap.mem, u.heap.live[j]) == A.Base(Served(t, e).mem, u.heap.live[j])
  {
    hide A.Safe, R.Safe, Served, Wants, R.Step, R.Allowed, InNodes, InHeader, A.InPayload, NodesAreSlices, A.Base;
    FoundOk(t, e);
    var g, u := Served(t, e), Step(t, e);
    var s := R.Step(Found(t, e), ArenaEvent(t, e));
    ServedSpares(t, e);
    StillSlices(t, e);
    WritesInside(Found(t, e), ArenaEvent(t, e));
    R.StepKeepsSafe(Found(t, e), ArenaEvent(t, e));
    forall i | 0 <= i < |g.mem| && !InNodes(u.nodes, i) ensures u.heap.mem[i] == g.mem[i] {
      if InHeader(s.nodes, i) {
        HeaderInNodes(s, i);
      }
    }
    forall i | 0 <= i < |g.mem| && !A.InPayload(g.live, i) ensures e.after[i] == g.mem[i] {
      if InNodes(u.nodes, i) {
        NodesInPayload(g, u.nodes, u.names, i);
      }
    }
    A.PayloadWritesSafe(g, e.after);
  }

  /** Every request keeps the tower in order, and acts on what the arena's clients hold as a plain store would. */
  lemma StepFollowsStore(t: Tower, e: Event)
    requires TowerOk(t) && Allowed(t, e)
    ensures TowerOk(Step(t, e))
    ensures StoreStep(R.StoreOf(View(t)), OpOf(e.request), R.StoreOf(View(Step(t, e))))
  {
    hide A.Safe, R.Safe, Served, Wants, R.Step, R.Allowed, InNodes, InHeader, NodesAreSlices, StoreStep, R.StoreOf;
    FoundOk(t, e);
    var s := R.Step(Found(t, e), ArenaEvent(t, e));
    R.StepFollowsStore(Found(t, e), ArenaEvent(t, e));
    forall k, i | 0 <= k < |s.nodes| && s.nodes[k].Data() <= i < s.nodes[k].addr + s.nodes[k].total && i < |s.mem|
      ensures e.after[i] == s.mem[i]
    {
      DataNotHeader(s, k, i);
    }
    SameData(s, e.after);
    StillSlices(t, e);
    StepSafe(t, e);
    assert s.(mem := e.after) == View(Step(t, e));
    SameOp(t, e);
  }

  lemma SameOp(t: Tower, e: Event)
    requires A.Safe(t.heap) && RequestOk(t, e.request) && ChildOk(t, e)
    ensures R.OpOf(ArenaEvent(t, e)) == OpOf(e.request)
  {
    hide A.Safe, Served, Wants;
  }

  // ---- the other users of the allocator ----

  lemma SparesChain(f: A.State, g: A.State, h: A.State, j: nat)
    requires A.Safe(f) && A.Safe(g) && A.Safe(h) && j in f.live && SparesOne(f, g, j) && SparesOne(g, h, j)
    ensures SparesOne(f, h, j)
  {
    hide A.Safe, A.Base;
    A.SafeBase(f, j);
    A.SafeBase(g, j);
    A.SafeBase(h, j);
  }

  /** No node reaches into the malloc block of a slice that is none of the arena's. */
  lemma OthersOutside(h: A.State, nodes: seq<M.Node>, names: seq<nat>, j: nat, i: nat)
    requires A.Safe(h) && NodesAreSlices(h, nodes, names) && j in h.live && j !in names
    requires (A.SafeBase(h, j); var base := A.Base(h.mem, h.live[j]); base <= i < base + h.heap[base])
    ensures !InNodes(nodes, i)
  {
    hide A.Base, A.BlockOk;
    A.SafeBase(h, j);
    A.SafeBound(h);
    forall k | 0 <= k < |nodes| ensures !(nodes[k].addr <= i < nodes[k].addr + nodes[k].total) {
      NodeInBlock(h, nodes, names, k);
      assert names[k] in names;
      A.SafeBase(h, names[k]);
      var p, q := A.Base(h.mem, h.live[names[k]]), A.Base(h.mem, h.live[j]);
      assert p != q;
      assert RangesApart(p, h.heap[p], q, h.heap[q]);
    }
  }

  lemma WrittenSpares(t: Tower, e: Event, j: nat)
    requires TowerOk(t) && Allowed(t, e) && j in Served(t, e).live && j !in Step(t, e).names
    ensures A.Safe(Served(t, e)) && A.Safe(Step(t, e).heap) && SparesOne(Served(t, e), Step(t, e).heap, j)
  {
    hide A.Safe, R.Safe, Served, Wants, R.Step, R.Allowed, InNodes, InHeader, NodesAreSlices, A.Base, HeadersWritten;
    var g, u := Served(t, e), Step(t, e);
    ServedSpares(t, e);
    StillSlices(t, e);
    StepSafe(t, e);
    A.SafeBase(g, j);
    A.SafeBase(u.heap, j);
    var base := A.Base(g.mem, g.live[j]);
    forall i | base <= i < base + g.heap[base] ensures u.heap.mem[i] == g.mem[i] {
      OthersOutside(g, u.nodes, u.names, j, i);
    }
  }

  /** Whatever the arena does, slices that are none of its nodes keep their place, their block and every byte of it. */
  lemma StepSpares(t: Tower, e: Event)
    requires TowerOk(t) && Allowed(t, e)
    ensures TowerOk(Step(t, e))
    ensures Spares(t.heap, Step(t, e).heap, set n | n in t.names)
    ensures Step(t, e).heap.live.Keys - (set n | n in Step(t, e).names) == t.heap.live.Keys - (set n | n in t.names)
    ensures forall n :: n in Step(t, e).names && n !in t.names ==> n !in t.heap.live
  {
    hide A.Safe, R.Safe, Served, Wants, R.Step, R.Allowed, InNodes, InHeader, NodesAreSlices, SparesOne, HeadersWritten,
         R.StoreOf, StoreStep;
    StepFollowsStore(t, e);
    ServedSpares(t, e);
    var g, u := Served(t, e), Step(t, e);
    StepSafe(t, e);
    forall j | j in t.heap.live && j !in t.names ensures SparesOne(t.heap, u.heap, j) {
      WrittenSpares(t, e, j);
      SparesChain(t.heap, g, u.heap, j);
    }
    NamesKept(t, u, e.child, Offer(t, e).Some?);
  }

  lemma NamesKept(t: Tower, u: Tower, child: nat, served: bool)
    requires served ==> child !in t.heap.live
    requires u.names == if served then [child] + t.names else t.names
    requires u.heap.live.Keys == t.heap.live.Keys + (if served then {child} else {})
    ensures u.heap.live.Keys - (set n | n in u.names) == t.heap.live.Keys - (set n | n in t.names)
    ensures forall n :: n in u.names && n !in t.names ==> n !in t.heap.live
  {
  }

  // ---- whole runs ----

  ghost predicate IsRun(t: Tower, events: seq<Event>)
    requires TowerOk(t)
    decreases |events|
  {
    events != [] ==> Allowed(t, events[0]) && (StepFollowsStore(t, events[0]); IsRun(Step(t, events[0]), events[1..]))
  }

  ghost function Run(t: Tower, events: seq<Event>): (u: Tower)
    requires TowerOk(t) && IsRun(t, events)
    ensures TowerOk(u)
    decreases |events|
  {
    if events == [] then t
    else
      StepFollowsStore(t, events[0]);
      Run(Step(t, events[0]), events[1..])
  }

  function Ops(events: seq<Event>): seq<Op> {
    if events == [] then [] else [OpOf(events[0].request)] + Ops(events[1..])
  }

  /** What the run asked of the arena. */
  ghost function TotalAsked(t: Tower, events: seq<Event>): nat
    requires TowerOk(t) && IsRun(t, events)
    decreases |events|
  {
    if events == [] then 0
    else
      StepFollowsStore(t, events[0]);
      AskedBy(t, events[0]) + TotalAsked(Step(t, events[0]), events[1..])
  }

  ghost function AskedBy(t: Tower, e: Event): nat
    requires TowerOk(t) && Allowed(t, e)
  {
    FoundOk(t, e);
    R.Asked(Found(t, e), ArenaEvent(t, e))
  }

  lemma StepPaid(t: Tower, e: Event, asked: nat)
    requires TowerOk(t) && Allowed(t, e) && R.Paid(t.nodes, asked)
    ensures R.Paid(Step(t, e).nodes, asked + AskedBy(t, e))
  {
    hide A.Safe, NodesAreSlices, R.Paid, R.Asked, R.Step, R.Safe, R.Allowed, ChildOk, RequestOk, HeadersWritten;
    FoundOk(t, e);
    R.StepPaid(Found(t, e), ArenaEvent(t, e), asked);
  }

  lemma {:induction false} RunFrom(t: Tower, events: seq<Event>, asked: nat)
    requires TowerOk(t) && IsRun(t, events) && R.Paid(t.nodes, asked)
    ensures R.Safe(View(t)) && R.Safe(View(Run(t, events)))
    ensures StoreRun(R.StoreOf(View(t)), Ops(events), R.StoreOf(View(Run(t, events))))
    ensures R.Paid(Run(t, events).nodes, asked + TotalAsked(t, events))
    decreases |events|
  {
    hide TowerOk, Allowed, Step, StoreStep, R.StoreOf, R.Safe, R.Paid, AskedBy;
    ViewSafe(t);
    ViewSafe(Run(t, events));
    if events != [] {
      StepFollowsStore(t, events[0]);
      ViewSafe(Step(t, events[0]));
      StepPaid(t, events[0], asked);
      assert Ops(events)[1..] == Ops(events[1..]);
      RunFrom(Step(t, events[0]), events[1..], asked + AskedBy(t, events[0]));
    }
  }

  lemma ViewSafe(t: Tower)
    requires TowerOk(t)
    ensures R.Safe(View(t))
  {
  }

  // ---- what the rest of the heap sees ----

  ghost function Names(names: seq<nat>): set<nat> { set n | n in names }

  /** Compared with a heap from before: its slices are as they were, and the arena's nodes are all there is besides. */
  ghost predicate Kept(was: A.State, t: Tower)
    requires A.Safe(was) && A.Safe(t.heap)
  {
    && Spares(was, t.heap, {}) && t.heap.live.Keys == was.live.Keys + Names(t.names)
    && forall n :: n in t.names ==> n !in was.live
  }

  lemma StepKeeps(was: A.State, t: Tower, e: Event)
    requires A.Safe(was) && TowerOk(t) && Allowed(t, e) && Kept(was, t)
    ensures TowerOk(Step(t, e)) && Kept(was, Step(t, e))
  {
    hide A.Safe, R.Safe, A.Base, A.SameRange, SparesOne, Allowed, Step;
    StepSpares(t, e);
    var u := Step(t, e);
    forall j | j in was.live ensures SparesOne(was, u.heap, j) {
      assert SparesOne(was, t.heap, j);
      SparedIsThere(was, t.heap, j);
      assert j !in t.names;
      assert SparesOne(t.heap, u.heap, j);
      SparesChain(was, t.heap, u.heap, j);
    }
    NodeNames(u);
    KeysKept(was.live.Keys, t.heap.live.Keys, u.heap.live.Keys, Names(t.names), Names(u.names));
  }

  lemma SparedIsThere(h: A.State, g: A.State, j: nat)
    requires A.Safe(h) && A.Safe(g) && j in h.live && SparesOne(h, g, j)
    ensures j in g.live && g.live[j] == h.live[j]
  {
  }

  lemma NodeNames(t: Tower)
    requires TowerOk(t)
    ensures Names(t.names) <= t.heap.live.Keys
  {
    hide A.Safe, R.Safe;
    forall n | n in t.names ensures n in t.heap.live {
      var k :| 0 <= k < |t.names| && t.names[k] == n;
      assert t.names[k] in t.heap.live;
    }
  }

  lemma KeysKept(was: set<nat>, before: set<nat>, after: set<nat>, names: set<nat>, names': set<nat>)
    requires before == was + names && names !! was && after - names' == before - names && names' <= after
    requires forall n :: n in names' && n !in names ==> n !in before
    ensures after == was + names' && forall n :: n in names' ==> n !in was
  {
    assert before - names == was;
    forall n | n in after ensures n in was + names' {
      if n !in names' {
        assert n in after - names';
      }
    }
    forall n | n in was ensures n in after {
      assert n in before - names;
      assert n in after - names';
    }
  }

  lemma {:induction false} RunKeeps(was: A.State, t: Tower, events: seq<Event>)
    requires A.Safe(was) && TowerOk(t) && IsRun(t, events) && Kept(was, t)
    ensures Kept(was, Run(t, events))
    decreases |events|
  {
    hide A.Safe, R.Safe, Kept, Allowed, Step, NodesAreSlices;
    if events != [] {
      StepKeeps(was, t, events[0]);
      RunKeeps(was, Step(t, events[0]), events[1..]);
    }
  }

  /** An arena with nothing in it, beside whatever else is on the heap. */
  function Start(heap: A.State): Tower { Tower(heap, [], [], map[]) }

  lemma StartOk(heap: A.State)
    requires A.Safe(heap)
    ensures TowerOk(Start(heap)) && Kept(heap, Start(heap)) && R.StoreOf(View(Start(heap))) == map[]
  {
    hide A.Safe, SparesOne;
    SparesSelf(heap);
  }

  /**
   * Every run of the tower, whatever malloc answers and writes: what clients of the arena hold follows a plain store
   * of byte strings, their blocks are safe, every other slice on the heap keeps its place and every byte of its
   * malloc block, and what was reserved is bounded by what was asked for.
   */
  lemma EveryRun(heap: A.State, events: seq<Event>)
    requires A.Safe(heap)
    requires (StartOk(heap); IsRun(Start(heap), events))
    ensures (StartOk(heap);
             var end := Run(Start(heap), events);
             var asked := TotalAsked(Start(heap), events);
             && TowerOk(end) && Kept(heap, end)
             && StoreRun(map[], Ops(events), R.StoreOf(View(end)))
             && R.TotalData(end.nodes) <= 2 * asked + M.CHUNK_BYTES
             && |end.nodes| <= asked / 256 + 1)
  {
    hide A.Safe, R.Safe, Kept, IsRun, Run, TotalAsked, Ops, NodesAreSlices, StoreRun;
    StartOk(heap);
    RunFrom(Start(heap), events, 0);
    RunKeeps(heap, Start(heap), events);
    var end := Run(Start(heap), events);
    NodesAreLarge(end);
    if end.nodes != [] {
      R.DataAtLeastChunks(end.nodes[1..]);
    }
  }

  lemma NodesAreLarge(t: Tower)
    requires TowerOk(t)
    ensures forall k :: 0 <= k < |t.nodes| ==> t.nodes[k].total >= M.NODE_BYTES + M.CHUNK_BYTES
  {
    hide A.Safe;
    forall k | 0 <= k < |t.nodes| ensures t.nodes[k].total >= M.NODE_BYTES + M.CHUNK_BYTES {
      assert M.NodeOk(t.nodes[k], |t.heap.mem|);
    }
  }

  // ---- taking it down ----

  /** deinit gives back one node after another; `afters` is memory after each of free's calls. */
  ghost predicate DeinitOk(h: A.State, names: seq<nat>, afters: seq<seq<Byte>>)
    requires A.Safe(h)
    decreases |names|
  {
    && |afters| == |names|
    && (names != [] ==>
          && A.Allowed(h, A.DoFree(names[0], afters[0]))
          && (A.FreeFollows(h, names[0], afters[0]);
              DeinitOk(A.Step(h, A.DoFree(names[0], afters[0])), names[1..], afters[1..])))
  }

  ghost function Deinit(h: A.State, names: seq<nat>, afters: seq<seq<Byte>>): (g: A.State)
    requires A.Safe(h) && DeinitOk(h, names, afters)
    ensures A.Safe(g)
    decreases |names|
  {
    if names == [] then h
    else
      A.FreeFollows(h, names[0], afters[0]);
      Deinit(A.Step(h, A.DoFree(names[0], afters[0])), names[1..], afters[1..])
  }

  lemma FreeSparesOne(h: A.State, id: nat, after: seq<Byte>, j: nat)
    requires A.Safe(h) && A.Allowed(h, A.DoFree(id, after)) && j in h.live && j != id
    ensures var g := A.Step(h, A.DoFree(id, after));
            && A.Safe(g) && |g.mem| == |h.mem| && g.live == h.live - {id} && SparesOne(h, g, j)
  {
    hide A.Base, A.SameRange, A.HeapOk, A.BlockOk;
    A.FreeSafe(h, id, after);
    var g := A.Step(h, A.DoFree(id, after));
    A.SafeBase(h, j);
    A.SafeBase(g, j);
    A.BlockKept(h, after, j);
  }

  lemma FreeShrinks(h: A.State, id: nat, after: seq<Byte>)
    requires A.Safe(h) && A.Allowed(h, A.DoFree(id, after))
    ensures var g := A.Step(h, A.DoFree(id, after));
            A.Safe(g) && |g.mem| == |h.mem| && g.live.Keys == h.live.Keys - {id} && Spares(h, g, {id})
  {
    hide A.Safe, A.Base, A.SameRange, SparesOne;
    A.FreeSafe(h, id, after);
    forall j | j in h.live && j != id ensures SparesOne(h, A.Step(h, A.DoFree(id, after)), j) {
      FreeSparesOne(h, id, after, j);
    }
  }

  lemma {:induction false} DeinitSpares(h: A.State, names: seq<nat>, afters: seq<seq<Byte>>)
    requires A.Safe(h) && DeinitOk(h, names, afters)
    ensures var g := Deinit(h, names, afters);
            g.live.Keys == h.live.Keys - Names(names) && Spares(h, g, Names(names))
    decreases |names|
  {
    hide A.Safe, A.Allowed, A.Step, SparesOne;
    var g := Deinit(h, names, afters);
    if names == [] {
      SparesSelf(h);
    } else {
      FreeShrinks(h, names[0], afters[0]);
      var f := A.Step(h, A.DoFree(names[0], afters[0]));
      DeinitSpares(f, names[1..], afters[1..]);
      assert Names(names) == {names[0]} + Names(names[1..]);
      forall j | j in h.live && j !in Names(names) ensures SparesOne(h, g, j) {
        assert SparesOne(h, f, j);
        SparedIsThere(h, f, j);
        assert SparesOne(f, g, j);
        SparesChain(h, f, g, j);
      }
    }
  }

  /** A heap with the same slices in the same malloc blocks has the same malloc blocks. */
  lemma SameSlicesSameHeap(h: A.State, g: A.State)
    requires A.Safe(h) && A.Safe(g) && g.live.Keys == h.live.Keys && Spares(h, g, {})
    ensures g.live == h.live && g.heap == h.heap
  {
    hide A.Safe, A.Base, A.SameRange;
    forall j | j in h.live ensures g.live[j] == h.live[j] {
      assert SparesOne(h, g, j);
    }
    A.HeadersNameTheHeap(h);
    A.HeadersNameTheHeap(g);
    forall q | q in h.heap ensures q in g.heap && g.heap[q] == h.heap[q] {
      var j :| j in h.live && A.Base(h.mem, h.live[j]) == q;
      assert SparesOne(h, g, j);
    }
    forall q | q in g.heap ensures q in h.heap {
      var j :| j in g.live && A.Base(g.mem, g.live[j]) == q;
      assert SparesOne(h, g, j);
    }
  }

  /**
   * After a run and deinit, the heap is what it was before the arena existed: malloc has every node back, and all
   * other slices have their places, blocks and bytes.
   */
  lemma DeinitRestores(heap: A.State, events: seq<Event>, afters: seq<seq<Byte>>)
    requires A.Safe(heap)
    requires (StartOk(heap); IsRun(Start(heap), events))
    requires (StartOk(heap);
              var end := Run(Start(heap), events);
              DeinitOk(end.heap, end.names, afters))
    ensures (StartOk(heap);
             var end := Run(Start(heap), events);
             var g := Deinit(end.heap, end.names, afters);
             g.heap == heap.heap && g.live == heap.live && Spares(heap, g, {}))
  {
    hide A.Safe, R.Safe, IsRun, Run, DeinitOk, Deinit, NodesAreSlices, SparesOne;
    StartOk(heap);
    RunKeeps(heap, Start(heap), events);
    var end := Run(Start(heap), events);
    DeinitSpares(end.heap, end.names, afters);
    var g := Deinit(end.heap, end.names, afters);
    forall j | j in heap.live ensures SparesOne(heap, g, j) {
      assert SparesOne(heap, end.heap, j);
      SparedIsThere(heap, end.heap, j);
      assert SparesOne(end.heap, g, j);
      SparesChain(heap, end.heap, g, j);
    }
    assert g.live.Keys == heap.live.Keys;
    SameSlicesSameHeap(heap, g);
  }
}
