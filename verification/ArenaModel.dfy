/** What the compact arena does to its list of nodes (guest/compact-arena.zig), as functions on values. */
module ArenaModel {
  import opened Bytes
  import opened Alignment

  const NODE_BYTES: nat := 20  // @sizeOf(Node): five words of the 32-bit guest
  const NODE_ALIGN: nat := 4
  const CHUNK_BYTES: nat := 512

  /** A node: a block of `total` bytes at `addr` from the child allocator, its header first, then its data. */
  datatype Node = Node(addr: nat, total: nat, used: nat, lastStart: nat, lastLen: nat) {
    function Data(): nat { addr + NODE_BYTES }

    function DataLen(): nat { if total >= NODE_BYTES then total - NODE_BYTES else 0 }

    /** The slice is the one this node handed out last. */
    predicate IsLast(ptr: nat, len: nat) { ptr == Data() + lastStart && len == lastLen }
  }

  function AllocateFrom(n: Node, len: nat, align: nat): Option<(Node, nat)>
    requires align > 0
  {
    var aligned := AlignUp(n.Data() + n.used, align) - n.Data();
    if aligned > n.DataLen() || len > n.DataLen() - aligned then None
    else Some((n.(used := aligned + len, lastStart := aligned, lastLen := len), n.Data() + aligned))
  }

  function TotalLen(len: nat, align: nat): (t: nat)
    requires align > 0
    ensures t >= NODE_BYTES + CHUNK_BYTES
  {
    var required := NODE_BYTES + (align - 1) + len;
    if required > NODE_BYTES + CHUNK_BYTES then required else NODE_BYTES + CHUNK_BYTES
  }

  function FreshNode(addr: nat, len: nat, align: nat): Node
    requires align > 0
  {
    Node(addr, TotalLen(len, align), 0, 0, 0)
  }

  /** The head node has room for the request. */
  predicate HeadFits(nodes: seq<Node>, len: nat, align: nat)
    requires align > 0
  {
    nodes != [] && AllocateFrom(nodes[0], len, align).Some?
  }

  /** `offer` is what the child allocator answers if it is asked for a node. */
  function Alloc(nodes: seq<Node>, len: nat, align: nat, offer: Option<nat>): (seq<Node>, Option<nat>)
    requires align > 0
  {
    if HeadFits(nodes, len, align) then
      var (n, ptr) := AllocateFrom(nodes[0], len, align).value;
      ([n] + nodes[1..], Some(ptr))
    else if NODE_BYTES + (align - 1) + len > USIZE_MAX || offer == None then (nodes, None)
    else
      var n := FreshNode(offer.value, len, align);
      match AllocateFrom(n, len, align)
      case None => ([n] + nodes, None)
      case Some((m, ptr)) => ([m] + nodes, Some(ptr))
  }

  function SetLast(nodes: seq<Node>, newLen: nat): seq<Node>
    requires nodes != []
  {
    [nodes[0].(used := nodes[0].lastStart + newLen, lastLen := newLen)] + nodes[1..]
  }

  function Resize(nodes: seq<Node>, ptr: nat, len: nat, newLen: nat): (seq<Node>, bool) {
    if newLen <= len then
      (if nodes != [] && nodes[0].IsLast(ptr, len) then SetLast(nodes, newLen) else nodes, true)
    else if nodes == [] || !nodes[0].IsLast(ptr, len) then (nodes, false)
    else if nodes[0].lastStart > nodes[0].DataLen() || newLen > nodes[0].DataLen() - nodes[0].lastStart
    then (nodes, false)
    else (SetLast(nodes, newLen), true)
  }

  function Free(nodes: seq<Node>, ptr: nat, len: nat): seq<Node> {
    if nodes != [] && nodes[0].IsLast(ptr, len) then SetLast(nodes, 0) else nodes
  }

  function Reserved(nodes: seq<Node>): nat {
    if nodes == [] then 0 else nodes[0].total + Reserved(nodes[1..])
  }

  // ---- the invariant ----

  predicate NodeOk(n: Node, limit: nat) {
    && n.total >= NODE_BYTES + CHUNK_BYTES
    && n.lastStart + n.lastLen == n.used <= n.DataLen()
    && n.addr + n.total <= limit
  }

  predicate NodesApart(m: Node, n: Node) { RangesApart(m.addr, m.total, n.addr, n.total) }

  /** All nodes lie below `limit`, are well formed and do not overlap. */
  ghost predicate NodesOk(nodes: seq<Node>, limit: nat) {
    && (forall i :: 0 <= i < |nodes| ==> NodeOk(nodes[i], limit))
    && (forall i, j :: 0 <= i < j < |nodes| ==> NodesApart(nodes[i], nodes[j]))
  }

  datatype Block = Block(ptr: nat, len: nat, align: nat)

  predicate BlocksApart(b: Block, c: Block) { RangesApart(b.ptr, b.len, c.ptr, c.len) }

  /** A live block inside the used part of a node. */
  predicate InNode(n: Node, b: Block) { n.Data() <= b.ptr && b.ptr + b.len <= n.Data() + n.used }

  /** In the head node, a live block is the last one or ends before the last one starts. */
  predicate InHead(n: Node, b: Block) {
    n.Data() <= b.ptr && (n.IsLast(b.ptr, b.len) || b.ptr + b.len <= n.Data() + n.lastStart)
  }

  ghost predicate Housed(nodes: seq<Node>, b: Block) {
    exists i :: 0 <= i < |nodes| && InNode(nodes[i], b) && (i == 0 ==> InHead(nodes[0], b))
  }

  /** What the child allocator may answer: an aligned block inside memory that overlaps no node. */
  ghost predicate OfferOk(nodes: seq<Node>, offer: Option<nat>, total: nat, limit: nat) {
    offer.Some? ==>
      && offer.value % NODE_ALIGN == 0
      && offer.value + total <= limit
      && forall i :: 0 <= i < |nodes| ==> NodesApart(Node(offer.value, total, 0, 0, 0), nodes[i])
  }

  // ---- one node ----

  /** A request that obtains a node of its own never fails. */
  lemma FreshNodeServes(addr: nat, len: nat, align: nat)
    requires align > 0
    ensures AllocateFrom(FreshNode(addr, len, align), len, align).Some?
  {
  }

  lemma AllocateFromKeeps(n: Node, len: nat, align: nat, limit: nat)
    requires align > 0 && NodeOk(n, limit) && AllocateFrom(n, len, align).Some?
    ensures var (m, ptr) := AllocateFrom(n, len, align).value;
            && NodeOk(m, limit) && m.addr == n.addr && m.total == n.total
            && ptr % align == 0
            && InNode(m, Block(ptr, len, align)) && InHead(m, Block(ptr, len, align))
            && n.Data() + n.used <= ptr
  {
    AlignUpIsAligned(n.Data() + n.used, align);
  }

  lemma AllocateFromHouses(n: Node, len: nat, align: nat, limit: nat, b: Block)
    requires align > 0 && NodeOk(n, limit) && AllocateFrom(n, len, align).Some? && InNode(n, b)
    ensures var (m, ptr) := AllocateFrom(n, len, align).value;
            InNode(m, b) && InHead(m, b) && b.ptr + b.len <= ptr
  {
  }

  // ---- the list ----

  lemma ReplaceHeadHouses(nodes: seq<Node>, m: Node, b: Block)
    requires nodes != [] && Housed(nodes, b)
    requires InNode(nodes[0], b) && InHead(nodes[0], b) ==> InNode(m, b) && InHead(m, b)
    ensures Housed([m] + nodes[1..], b)
  {
    var i :| 0 <= i < |nodes| && InNode(nodes[i], b) && (i == 0 ==> InHead(nodes[0], b));
    var now := [m] + nodes[1..];
    assert i > 0 ==> now[i] == nodes[i];
    assert InNode(now[i], b);
  }

  lemma ReplaceHeadOk(nodes: seq<Node>, m: Node, limit: nat)
    requires nodes != [] && NodesOk(nodes, limit) && NodeOk(m, limit)
    requires m.addr == nodes[0].addr && m.total == nodes[0].total
    ensures NodesOk([m] + nodes[1..], limit)
  {
    var now := [m] + nodes[1..];
    assert forall i :: 0 < i < |now| ==> now[i] == nodes[i];
  }

  lemma PrependOk(nodes: seq<Node>, m: Node, limit: nat)
    requires NodesOk(nodes, limit) && NodeOk(m, limit)
    requires forall i :: 0 <= i < |nodes| ==> NodesApart(m, nodes[i])
    ensures NodesOk([m] + nodes, limit)
  {
    var now := [m] + nodes;
    assert forall i :: 0 < i < |now| ==> now[i] == nodes[i - 1];
  }

  lemma PrependHouses(nodes: seq<Node>, m: Node, b: Block)
    requires Housed(nodes, b)
    ensures Housed([m] + nodes, b)
  {
    var i :| 0 <= i < |nodes| && InNode(nodes[i], b) && (i == 0 ==> InHead(nodes[0], b));
    assert InNode(([m] + nodes)[i + 1], b);
  }

  /**
   * Allocation keeps the list well formed and houses the new block. It fails only when the head has no room and
   * no node can be had.
   */
  lemma AllocKeeps(nodes: seq<Node>, len: nat, align: nat, offer: Option<nat>, limit: nat)
    requires align > 0 && NodesOk(nodes, limit) && OfferOk(nodes, offer, TotalLen(len, align), limit)
    ensures var (now, r) := Alloc(nodes, len, align, offer);
            && NodesOk(now, limit)
            && (r == None <==> !HeadFits(nodes, len, align)
                                 && (NODE_BYTES + (align - 1) + len > USIZE_MAX || offer == None))
            && (r == None ==> now == nodes)
            && (r.Some? ==> r.value % align == 0 && Housed(now, Block(r.value, len, align)))
  {
    if HeadFits(nodes, len, align) {
      var (m, ptr) := AllocateFrom(nodes[0], len, align).value;
      AllocateFromKeeps(nodes[0], len, align, limit);
      ReplaceHeadOk(nodes, m, limit);
      assert InNode(([m] + nodes[1..])[0], Block(ptr, len, align));
    } else if NODE_BYTES + (align - 1) + len <= USIZE_MAX && offer.Some? {
      var n := FreshNode(offer.value, len, align);
      FreshNodeServes(offer.value, len, align);
      AllocateFromKeeps(n, len, align, limit);
      var (m, ptr) := AllocateFrom(n, len, align).value;
      PrependOk(nodes, m, limit);
      assert InNode(([m] + nodes)[0], Block(ptr, len, align));
    }
  }

  lemma AllocHouses(nodes: seq<Node>, len: nat, align: nat, offer: Option<nat>, limit: nat, b: Block)
    requires align > 0 && NodesOk(nodes, limit) && OfferOk(nodes, offer, TotalLen(len, align), limit)
    requires Housed(nodes, b)
    ensures var (now, r) := Alloc(nodes, len, align, offer);
            && Housed(now, b)
            && (r.Some? ==> BlocksApart(b, Block(r.value, len, align)))
  {
    var i :| 0 <= i < |nodes| && InNode(nodes[i], b) && (i == 0 ==> InHead(nodes[0], b));
    if HeadFits(nodes, len, align) {
      var (m, ptr) := AllocateFrom(nodes[0], len, align).value;
      AllocateFromKeeps(nodes[0], len, align, limit);
      if InNode(nodes[0], b) {
        AllocateFromHouses(nodes[0], len, align, limit, b);
      }
      ReplaceHeadHouses(nodes, m, b);
      if i > 0 {
        assert NodesApart(nodes[0], nodes[i]);
      }
    } else if NODE_BYTES + (align - 1) + len <= USIZE_MAX && offer.Some? {
      var n := FreshNode(offer.value, len, align);
      FreshNodeServes(offer.value, len, align);
      AllocateFromKeeps(n, len, align, limit);
      var (m, ptr) := AllocateFrom(n, len, align).value;
      PrependHouses(nodes, m, b);
      assert NodesApart(n, nodes[i]);
    }
  }

  /** Resizing keeps the list well formed and houses the resized block. */
  lemma ResizeKeeps(nodes: seq<Node>, b: Block, newLen: nat, limit: nat)
    requires NodesOk(nodes, limit) && Housed(nodes, b)
    ensures var (now, done) := Resize(nodes, b.ptr, b.len, newLen);
            && NodesOk(now, limit)
            && (done ==> Housed(now, b.(len := newLen)))
            && (!done ==> now == nodes)
  {
    var (now, done) := Resize(nodes, b.ptr, b.len, newLen);
    var i :| 0 <= i < |nodes| && InNode(nodes[i], b) && (i == 0 ==> InHead(nodes[0], b));
    if now != nodes {
      ReplaceHeadOk(nodes, now[0], limit);
    }
    if done {
      var c := b.(len := newLen);
      if nodes[0].IsLast(b.ptr, b.len) {
        assert InNode(now[0], c);
      } else {
        assert InNode(now[i], c);
      }
    }
  }

  lemma HousedIn(nodes: seq<Node>, b: Block) returns (i: nat)
    requires Housed(nodes, b)
    ensures i < |nodes| && InNode(nodes[i], b) && (i == 0 ==> InHead(nodes[0], b))
  {
    i :| 0 <= i < |nodes| && InNode(nodes[i], b) && (i == 0 ==> InHead(nodes[0], b));
  }

  /** Resizing moves nothing else: every other block stays housed, and apart from the resized one. */
  lemma ResizeHouses(nodes: seq<Node>, b: Block, newLen: nat, limit: nat, c: Block)
    requires NodesOk(nodes, limit) && Housed(nodes, b) && Housed(nodes, c) && BlocksApart(b, c)
    ensures var (now, done) := Resize(nodes, b.ptr, b.len, newLen);
            Housed(now, c) && (done ==> BlocksApart(b.(len := newLen), c))
  {
    hide Housed;
    var (now, done) := Resize(nodes, b.ptr, b.len, newLen);
    var i := HousedIn(nodes, b);
    var j := HousedIn(nodes, c);
    LastIsInHead(nodes, b, limit, i);
    if now != nodes {
      if InNode(nodes[0], c) && InHead(nodes[0], c) {
        assert InNode(now[0], c) && InHead(now[0], c);
      }
      ReplaceHeadHouses(nodes, now[0], c);
      if j > 0 {
        assert NodesApart(nodes[0], nodes[j]);
      }
    }
  }

  /** A housed block that carries the address of the head's last block lies in the head: headers keep nodes apart. */
  lemma LastIsInHead(nodes: seq<Node>, b: Block, limit: nat, i: nat)
    requires NodesOk(nodes, limit) && i < |nodes| && InNode(nodes[i], b)
    ensures nodes[0].IsLast(b.ptr, b.len) ==> i == 0
  {
    if i > 0 {
      assert NodesApart(nodes[0], nodes[i]);
    }
  }

  lemma FreeKeeps(nodes: seq<Node>, b: Block, limit: nat)
    requires NodesOk(nodes, limit) && Housed(nodes, b)
    ensures NodesOk(Free(nodes, b.ptr, b.len), limit)
  {
    var now := Free(nodes, b.ptr, b.len);
    if now != nodes {
      ReplaceHeadOk(nodes, now[0], limit);
    }
  }

  lemma FreeHouses(nodes: seq<Node>, b: Block, limit: nat, c: Block)
    requires NodesOk(nodes, limit) && Housed(nodes, b) && Housed(nodes, c) && BlocksApart(b, c)
    ensures Housed(Free(nodes, b.ptr, b.len), c)
  {
    var now := Free(nodes, b.ptr, b.len);
    if now != nodes {
      if InNode(nodes[0], c) && InHead(nodes[0], c) {
        assert InNode(now[0], c) && InHead(now[0], c);
      }
      ReplaceHeadHouses(nodes, now[0], c);
    }
  }
}
