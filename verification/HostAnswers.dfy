/** Which arena serves a request, when one is refused, and where it is put (runtime/fx_wamr_runner.c, 178-302). */
module HostAnswers {
  import opened Alignment
  import opened Bytes
  import opened HostArenas

  /** A place for `size` bytes: a multiple of 8 inside the 128 KiB of the area, apart from both blocks in it. */
  predicate IsRoom(blocks: seq<Block>, offset: nat, size: nat)
    requires |blocks| == 2
  {
    && offset % 8 == 0 && offset + size <= 131072
    && (blocks[0].size > 0 ==> RangesApart(offset, size, blocks[0].offset, blocks[0].size))
    && (blocks[1].size > 0 ==> RangesApart(offset, size, blocks[1].offset, blocks[1].size))
  }

  lemma RoomFits(blocks: seq<Block>, offset: nat, size: nat)
    requires |blocks| == 2
    ensures IsRoom(blocks, offset, size) <==> Fits(blocks, offset, size)
  {
    assert SLOTS == 2;
    if Fits(blocks, offset, size) {
      assert !Overlaps(blocks[0], offset, size) && !Overlaps(blocks[1], offset, size);
    }
  }

  /** The answer to a large request: the first room in the area; none when two blocks are in it or it has no room. */
  ghost predicate FirstRoom(l: Layout, blocks: seq<Block>, size: nat, r: nat)
    requires |blocks| == 2 && l.metadata > 0
  {
    if r == 0 then (blocks[0].size > 0 && blocks[1].size > 0) || forall o: nat :: !IsRoom(blocks, o, size)
    else && (blocks[0].size == 0 || blocks[1].size == 0)
         && r >= l.metadata && IsRoom(blocks, r - l.metadata, size)
         && forall o: nat :: o < r - l.metadata ==> !IsRoom(blocks, o, size)
  }

  lemma RoomIsFirst(l: Layout, blocks: seq<Block>, size: nat)
    requires LayoutOk(l) && BlocksOk(blocks) && size > 0
    ensures var m := MetadataMalloc(blocks, size);
            FirstRoom(l, blocks, size, if m.Some? then l.metadata + m.value.0 else 0)
  {
    hide Fits, IsRoom, BlocksOk;
    assert |blocks| == 2 by {
      TwoBlocks(blocks);
    }
    FirstFit(blocks, size);
    forall o: nat ensures IsRoom(blocks, o, size) <==> Fits(blocks, o, size) {
      RoomFits(blocks, o, size);
    }
    HasFreeSlot(blocks, size);
  }

  lemma TwoBlocks(blocks: seq<Block>)
    requires BlocksOk(blocks)
    ensures |blocks| == 2
  {
  }

  lemma HasFreeSlot(blocks: seq<Block>, size: nat)
    requires BlocksOk(blocks)
    ensures MetadataMalloc(blocks, size).Some? ==> blocks[0].size == 0 || blocks[1].size == 0
  {
  }

  /** libc's address for a request, or NULL. */
  function Address(answer: LibcAnswer): nat {
    if answer.Served? then answer.p else 0
  }

  /**
   * Up to 32768 bytes libc serves a runtime request, beyond that the metadata area does, and neither touches what is
   * the other's; the linear memory is handed out once at a time, if large enough, and zeroed.
   */
  lemma MallocServes(l: Layout, h: Host, linear: bool, size: nat, answer: LibcAnswer)
    requires Sound(l, h)
    ensures var (h', r) := MallocStep(l, h, linear, size, answer);
            if linear then
              && (r == 0 <==> h.inUse || size > l.capacity)
              && (r == 0 ==> h' == h)
              && (r != 0 ==> && r == l.linear && h' == h.(linear := h'.linear, used := size, inUse := true)
                             && |h'.linear| == l.capacity && forall i :: 0 <= i < size ==> h'.linear[i] == 0)
            else if size <= 32768 then
              && r == Address(answer)
              && h' == if answer.Served? then h.(heap := h.heap[answer.p := size]) else h
            else
              && FirstRoom(l, h.blocks, size, r)
              && h' == h.(blocks := h'.blocks) && (r == 0 ==> h' == h)
              && (r != 0 ==> var slot := if h.blocks[0].size == 0 then 0 else 1;
                             h.blocks[slot].size == 0
                             && h'.blocks == h.blocks[slot := Block(r - l.metadata, size)])
  {
    hide BlocksOk, FirstRoom, Fits, Search;
    assert |h.blocks| == 2 by {
      TwoBlocks(h.blocks);
    }
    if linear {
      if !h.inUse && size <= l.capacity {
        var now := Zeroed(h.linear, 0, size);
        assert now[..size] == Zeros(size);
      }
    } else if size > LARGE {
      RoomIsFirst(l, h.blocks, size);
    }
  }

  /** A block of the area can be resized where it is exactly when it then ends in the area and before the other one. */
  lemma MetadataReallocServes(blocks: seq<Block>, slot: nat, size: nat)
    requires BlocksOk(blocks) && slot < 2 && blocks[slot].size > 0
    ensures |blocks| == 2
    ensures MetadataRealloc(blocks, slot, size)
         == if IsRoom(blocks[slot := Block(0, 0)], blocks[slot].offset, size)
            then Some(blocks[slot := Block(blocks[slot].offset, size)]) else None
  {
  }

  /**
   * A block of the area is resized in place or not at all; no other runtime block grows beyond 32768 bytes, and up to
   * there libc answers; a NULL pointer is a malloc; linear memory is resized in place, up to its capacity.
   */
  lemma ReallocServes(l: Layout, h: Host, linear: bool, pointer: nat, size: nat, answer: LibcAnswer)
    requires Sound(l, h)
    ensures |h.blocks| == 2
    ensures var (h', r) := ReallocStep(l, h, linear, pointer, size, answer);
            var slot := SlotOf(l, h.blocks, pointer);
            if linear then
              && (r == 0 <==> pointer != l.linear || size > l.capacity)
              && (r == 0 ==> h' == h)
              && (r != 0 ==> && r == l.linear && h' == h.(linear := h'.linear, used := size)
                             && |h'.linear| == l.capacity
                             && h'.linear[..Min(h.used, size)] == h.linear[..Min(h.used, size)]
                             && forall i :: h.used <= i < size ==> h'.linear[i] == 0)
            else if slot >= 0 then
              if IsRoom(h.blocks[slot := Block(0, 0)], h.blocks[slot].offset, size)
              then && h' == h.(blocks := h.blocks[slot := Block(h.blocks[slot].offset, size)])
                   && r == if size > 0 then pointer else 0
              else (h', r) == (h, 0)
            else if pointer == 0 then (h', r) == MallocStep(l, h, false, size, answer)
            else if size <= 32768 then
              && r == Address(answer)
              && h' == match answer
                       case Refused => h
                       case Freed => h.(heap := h.heap - {pointer})
                       case Served(p) => h.(heap := (h.heap - {pointer})[p := size])
            else (h', r) == (h, 0)
  {
    hide IsRoom, MetadataRealloc, BlocksOk;
    TwoBlocks(h.blocks);
    var slot := SlotOf(l, h.blocks, pointer);
    if linear {
      if pointer == l.linear && size <= l.capacity && size > h.used {
        var now := Zeroed(h.linear, h.used, size);
        assert now[..size] == h.linear[..h.used] + Zeros(size - h.used);
        assert now[..h.used] == h.linear[..h.used];
      }
    } else if slot >= 0 {
      MetadataReallocServes(h.blocks, slot, size);
    }
  }
}
