/**
 * The arena on top of the aligned allocator: every node it is given is one it may use (guest/compact-arena.zig over
 * guest/compact-allocator.zig).
 */
module MemoryTower {
  import opened Bytes
  import opened Alignment
  import A = AlignedAllocator
  import M = ArenaModel

  /** The arena's nodes are slices the aligned allocator has handed out and not taken back. */
  ghost predicate NodesAreSlices(s: A.State, nodes: seq<M.Node>, names: seq<nat>) {
    && |names| == |nodes|
    && forall i :: 0 <= i < |nodes| ==>
         names[i] in s.live && s.live[names[i]].ptr == nodes[i].addr && s.live[names[i]].len == nodes[i].total
  }

  /** Slices of different names do not overlap, and neither do they and malloc's other blocks. */
  lemma SlicesApart(s: A.State, i: nat, j: nat)
    requires A.Safe(s) && i in s.live && j in s.live && i != j
    ensures RangesApart(s.live[i].ptr, s.live[i].len, s.live[j].ptr, s.live[j].len)
  {
    hide A.Base;
    A.BlockInside(s, i);
    A.BlockInside(s, j);
    A.SafeBound(s);
  }

  /** What the aligned allocator answers to a request for a node meets all the arena asks of its child. */
  lemma AnswersAreOffers(s: A.State, nodes: seq<M.Node>, names: seq<nat>, id: nat, total: nat, answer: Option<A.Answer>)
    requires A.Safe(s) && NodesAreSlices(s, nodes, names)
    requires A.Allowed(s, A.DoAlloc(id, total, M.NODE_ALIGN, answer))
    ensures var t := A.Step(s, A.DoAlloc(id, total, M.NODE_ALIGN, answer));
            && A.Safe(t)
            && NodesAreSlices(t, nodes, names)
            && M.OfferOk(nodes, if id in t.live then Some(t.live[id].ptr) else None, total, |t.mem|)
            && (id in t.live ==> t.live[id].len == total)
  {
    hide A.Safe, A.Base;
    var t := A.Step(s, A.DoAlloc(id, total, M.NODE_ALIGN, answer));
    A.AllocFollows(s, id, total, M.NODE_ALIGN, answer);
    if id in t.live {
      A.BlockInside(t, id);
      SliceAligned(t, id);
      forall i | 0 <= i < |nodes|
        ensures M.NodesApart(M.Node(t.live[id].ptr, total, 0, 0, 0), nodes[i])
      {
        SlicesApart(t, id, names[i]);
      }
    }
  }

  lemma SliceAligned(s: A.State, id: nat)
    requires A.Safe(s) && id in s.live
    ensures s.live[id].ptr % A.Effective(s.live[id].align) == 0
  {
    assert A.BlockOk(s.mem, s.heap, s.live[id]);
  }
}
