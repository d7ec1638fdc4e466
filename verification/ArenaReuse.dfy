/** Where the compact arena puts blocks, and what shrinking and freeing make room for (guest/compact-arena.zig). */
module ArenaReuse {
  import opened Bytes
  import opened Alignment
  import opened ArenaModel

  /** The request can have address `p`: aligned, behind what is used, and inside the node. */
  predicate CanHave(n: Node, len: nat, align: nat, p: nat)
    requires align > 0
  {
    p % align == 0 && n.Data() + n.used <= p && p + len <= n.addr + n.total
  }

  /** A node serves a request exactly when some address will do, and then by the least one. */
  lemma ServesTheLeast(n: Node, len: nat, align: nat, limit: nat)
    requires align > 0 && NodeOk(n, limit)
    ensures AllocateFrom(n, len, align).None? ==> forall p :: !CanHave(n, len, align, p)
    ensures AllocateFrom(n, len, align).Some? ==>
              var (m, ptr) := AllocateFrom(n, len, align).value;
              && CanHave(n, len, align, ptr) && (forall p :: CanHave(n, len, align, p) ==> ptr <= p)
              && m.addr == n.addr && m.total == n.total && m.IsLast(ptr, len) && m.Data() + m.used == ptr + len
  {
    AlignUpIsAligned(n.Data() + n.used, align);
    forall p | CanHave(n, len, align, p) ensures AlignUp(n.Data() + n.used, align) <= p {
      AlignUpIsLeast(n.Data() + n.used, align, p);
    }
  }

  /**
   * The arena answers by the least address its head can give, and asks for a node only when there is none; the block
   * is then the newest one, and the next begins right behind it.
   */
  lemma AnswersTheLeast(nodes: seq<Node>, len: nat, align: nat, offer: Option<nat>, limit: nat)
    requires align > 0 && NodesOk(nodes, limit)
    ensures var (now, r) := Alloc(nodes, len, align, offer);
            var inHead := nodes != [] && exists p :: CanHave(nodes[0], len, align, p);
            && (inHead ==> && r.Some? && |now| == |nodes|
                           && CanHave(nodes[0], len, align, r.value)
                           && forall p :: CanHave(nodes[0], len, align, p) ==> r.value <= p)
            && (!inHead && r.Some? ==> offer.Some? && |now| == |nodes| + 1
                                       && CanHave(FreshNode(offer.value, len, align), len, align, r.value)
                                       && r.value < offer.value + NODE_BYTES + align)
            && (r.Some? ==> now[0].IsLast(r.value, len) && now[0].Data() + now[0].used == r.value + len)
  {
    if nodes != [] {
      ServesTheLeast(nodes[0], len, align, limit);
    }
    if !HeadFits(nodes, len, align) && offer.Some? {
      FreshNodeServes(offer.value, len, align);
      ServesTheLeast(FreshNode(offer.value, len, align), len, align, offer.value + TotalLen(len, align));
    }
  }

  // ---- free ----

  /** A block freed before anything else is asked for can be had again at once. */
  lemma FreedComesBack(nodes: seq<Node>, len: nat, align: nat, offer: Option<nat>, other: Option<nat>, limit: nat)
    requires align > 0 && NodesOk(nodes, limit) && OfferOk(nodes, offer, TotalLen(len, align), limit)
    ensures var (now, r) := Alloc(nodes, len, align, offer);
            r.Some? ==> Alloc(Free(now, r.value, len), len, align, other) == (now, r)
  {
    hide Alloc, OfferOk;
    var (now, r) := Alloc(nodes, len, align, offer);
    AnswersTheLeast(nodes, len, align, offer, limit);
    AllocKeeps(nodes, len, align, offer, limit);
    if r.Some? {
      GivesAgain(now, r.value, len, align, other, limit);
    }
  }

  /** The head's newest block, once freed, is what the same request gets again. */
  lemma GivesAgain(now: seq<Node>, p: nat, len: nat, align: nat, other: Option<nat>, limit: nat)
    requires align > 0 && NodesOk(now, limit) && now != [] && now[0].IsLast(p, len) && p % align == 0
    ensures Alloc(Free(now, p, len), len, align, other) == (now, Some(p))
  {
    hide AllocateFrom, NodesOk;
    var head := now[0].(used := now[0].lastStart, lastLen := 0);
    HeadIsOk(now, limit);
    assert Free(now, p, len) == [head] + now[1..];
    ServesTheLeast(head, len, align, limit);
    assert CanHave(head, len, align, p);
    assert [now[0]] + now[1..] == now;
    assert ([head] + now[1..])[1..] == now[1..];
  }

  lemma HeadIsOk(now: seq<Node>, limit: nat)
    requires NodesOk(now, limit) && now != []
    ensures NodeOk(now[0], limit)
  {
  }

  /**
   * Freeing the newest block of the head gives back its bytes: whatever is asked for next gets the least address from
   * there on that will do. Freeing any other gives back nothing.
   */
  lemma FreeReclaims(nodes: seq<Node>, b: Block, len: nat, align: nat, offer: Option<nat>, limit: nat)
    requires align > 0 && NodesOk(nodes, limit)
    ensures nodes == [] || !nodes[0].IsLast(b.ptr, b.len) ==> Free(nodes, b.ptr, b.len) == nodes
    ensures nodes != [] && nodes[0].IsLast(b.ptr, b.len) ==>
              var r := Alloc(Free(nodes, b.ptr, b.len), len, align, offer).1;
              forall p :: From(nodes[0], b.ptr, len, align, p) ==> r.Some? && b.ptr <= r.value <= p
  {
    if nodes != [] && nodes[0].IsLast(b.ptr, b.len) {
      var freed := Free(nodes, b.ptr, b.len);
      var r := Alloc(freed, len, align, offer).1;
      ServesTheLeast(freed[0], len, align, limit);
      forall p | From(nodes[0], b.ptr, len, align, p) ensures r.Some? && b.ptr <= r.value <= p {
        assert CanHave(freed[0], len, align, p);
      }
    }
  }

  /** The request can have address `p` from `start` on, wherever the node's used part ends. */
  predicate From(n: Node, start: nat, len: nat, align: nat, p: nat)
    requires align > 0
  {
    p % align == 0 && start <= p && p + len <= n.addr + n.total
  }

  // ---- resize ----

  /** A block can shrink always, and grow in place exactly when it is the head's newest and the node has the room. */
  lemma GrantsGrowth(nodes: seq<Node>, ptr: nat, len: nat, newLen: nat, limit: nat)
    requires NodesOk(nodes, limit)
    ensures Resize(nodes, ptr, len, newLen).1
       <==> newLen <= len
            || (nodes != [] && nodes[0].IsLast(ptr, len) && ptr + newLen <= nodes[0].addr + nodes[0].total)
  {
  }

  /** After the newest block was shrunk, a byte-aligned request that fits is answered right behind what is left. */
  lemma ShrunkGivesItsTail(nodes: seq<Node>, b: Block, n: nat, len: nat, offer: Option<nat>, limit: nat)
    requires NodesOk(nodes, limit) && nodes != [] && nodes[0].IsLast(b.ptr, b.len) && n <= b.len
    requires b.ptr + n + len <= nodes[0].addr + nodes[0].total
    ensures var (now, done) := Resize(nodes, b.ptr, b.len, n);
            done && Alloc(now, len, 1, offer).1 == Some(b.ptr + n)
  {
    var now := Resize(nodes, b.ptr, b.len, n).0;
    ServesTheLeast(now[0], len, 1, limit);
    assert CanHave(now[0], len, 1, b.ptr + n);
  }

  // ---- many small requests ----

  /** The list after `count` byte-aligned requests of `len` bytes; `offers` is where the child allocator has nodes. */
  function AfterRequests(count: nat, len: nat, offers: nat -> nat): seq<Node> {
    if count == 0 then [] else Alloc(AfterRequests(count - 1, len, offers), len, 1, Some(offers(count))).0
  }

  /** How many nodes that many blocks take, `each` a node, and how many are in the newest. */
  function NodesFor(count: nat, each: nat): nat
    requires each > 0
  {
    (count + each - 1) / each
  }

  function InNewest(count: nat, each: nat): nat
    requires count > 0 && each > 0
  {
    (count - 1) % each + 1
  }

  /** Nodes are filled up: as many blocks as a node's 512 bytes hold share one, and no node is asked for before. */
  lemma {:induction false} NodesAreFilled(count: nat, len: nat, each: nat, offers: nat -> nat)
    requires 0 < len && each > 0 && each * len <= CHUNK_BYTES < each * len + len
    ensures var nodes := AfterRequests(count, len, offers);
            && |nodes| == NodesFor(count, each)
            && Reserved(nodes) == (NODE_BYTES + CHUNK_BYTES) * |nodes|
            && (count > 0 ==> nodes != [] && nodes[0].total == NODE_BYTES + CHUNK_BYTES
                              && nodes[0].used == InNewest(count, each) * len)
  {
    hide Alloc, NodesFor, InNewest;
    FirstNodes(each);
    MulBeyond(each, len);
    if count > 0 {
      NodesAreFilled(count - 1, len, each, offers);
      OneMore(AfterRequests(count - 1, len, offers), len, offers(count));
      if count > 1 {
        NextInRow(count - 1, each);
        RoomForOneMore(InNewest(count - 1, each), len, each);
      }
    }
  }

  /** One more small request: behind the others, or in a node of its own. */
  lemma OneMore(nodes: seq<Node>, len: nat, offer: nat)
    requires 0 < len <= CHUNK_BYTES && (nodes != [] ==> nodes[0].total == NODE_BYTES + CHUNK_BYTES)
    ensures var now := Alloc(nodes, len, 1, Some(offer)).0;
            && now != [] && now[0].total == NODE_BYTES + CHUNK_BYTES
            && if nodes != [] && nodes[0].used + len <= CHUNK_BYTES
               then |now| == |nodes| && now[0].used == nodes[0].used + len && Reserved(now) == Reserved(nodes)
               else && |now| == |nodes| + 1 && now[0].used == len
                    && Reserved(now) == NODE_BYTES + CHUNK_BYTES + Reserved(nodes)
  {
    var now := Alloc(nodes, len, 1, Some(offer)).0;
    if nodes == [] || nodes[0].used + len > CHUNK_BYTES {
      assert now[1..] == nodes;
    }
  }

  /** Twenty requests of 100 bytes take four nodes. */
  lemma TwentyOfAHundred(offers: nat -> nat)
    ensures |AfterRequests(20, 100, offers)| == 4 && Reserved(AfterRequests(20, 100, offers)) == 2128 <= 3 * 1024
  {
    hide AfterRequests;
    NodesAreFilled(20, 100, 5, offers);
  }

  /** `k` blocks leave room for another exactly when they are fewer than a node holds. */
  lemma RoomForOneMore(k: nat, len: nat, each: nat)
    requires 0 < len && each * len <= CHUNK_BYTES < each * len + len
    ensures k * len + len == (k + 1) * len
    ensures k * len + len <= CHUNK_BYTES <==> k < each
  {
    MulBeyond(k + 1 - each, len);
    assert (k + 1 - each) * len == k * len + len - each * len;
  }

  lemma FirstNodes(each: nat)
    requires each > 0
    ensures NodesFor(0, each) == 0 && NodesFor(1, each) == 1 && InNewest(1, each) == 1
  {
    DivisionIs(each - 1, each, 0, each - 1);
    DivisionIs(each, each, 1, 0);
    DivisionIs(0, each, 0, 0);
  }

  /** The next block goes into the newest node, or begins another when that is full. */
  lemma NextInRow(n: nat, each: nat)
    requires n > 0 && each > 0
    ensures InNewest(n, each) <= each
    ensures InNewest(n, each) < each ==>
              InNewest(n + 1, each) == InNewest(n, each) + 1 && NodesFor(n + 1, each) == NodesFor(n, each)
    ensures InNewest(n, each) == each ==>
              InNewest(n + 1, each) == 1 && NodesFor(n + 1, each) == NodesFor(n, each) + 1
  {
    var q, r := (n - 1) / each, (n - 1) % each;
    assert n - 1 == q * each + r;
    DivisionIs(n + each - 1, each, q + 1, r);
    if r + 1 < each {
      DivisionIs(n, each, q, r + 1);
      DivisionIs(n + each, each, q + 1, r + 1);
    } else {
      DivisionIs(n, each, q + 1, 0);
      DivisionIs(n + each, each, q + 2, 0);
    }
  }

  lemma DivisionIs(x: nat, a: nat, q: nat, r: nat)
    requires r < a && x == q * a + r
    ensures x / a == q && x % a == r
  {
    MulBeyond(x / a - q, a);
    assert (x / a - q) * a == (x / a) * a - q * a == r - x % a;
  }
}
