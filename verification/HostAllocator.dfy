/** The allocator callbacks themselves (runtime/fx_wamr_runner.c, lines 88-98 and 178-302). */
module HostAllocator {
  import opened Alignment
  import opened Bytes
  import opened HostArenas

  class WamrAllocator {
    const layout: Layout
    const metadataBlocks: array<Block>
    const linearMemory: array<Byte>
    var used: nat
    var inUse: bool
    ghost var heap: map<nat, nat>  // what libc has given out

    ghost predicate Valid()
      reads this, metadataBlocks, linearMemory
    {
      metadataBlocks.Length == SLOTS && Sound(layout, State())
    }

    ghost function State(): Host
      reads this, metadataBlocks, linearMemory
    {
      Host(metadataBlocks[..], linearMemory[..], used, inUse, heap)
    }

    constructor (layout: Layout)
      requires LayoutOk(layout)
      ensures Valid() && this.layout == layout && State().heap == map[] && Memory(State()) == None
      ensures State().blocks == [Block(0, 0), Block(0, 0)]
      ensures fresh(metadataBlocks) && fresh(linearMemory)
    {
      this.layout := layout;
      metadataBlocks := new Block[SLOTS](i => Block(0, 0));
      linearMemory := new Byte[layout.capacity](i => 0);
      used, inUse, heap := 0, false, map[];
    }

    method MetadataMalloc(size: nat) returns (pointer: nat)
      requires Valid()
      modifies metadataBlocks
      ensures Valid()
      ensures match HostArenas.MetadataMalloc(old(metadataBlocks[..]), size)
              case None => pointer == 0 && metadataBlocks[..] == old(metadataBlocks[..])
              case Some((offset, blocks)) => pointer == layout.metadata + offset && metadataBlocks[..] == blocks
    {
      hide Sound, Search;
      ghost var h := State();
      SoundBlocks(layout, h);
      FirstFit(h.blocks, size);
      pointer := 0;
      if size == 0 || size > FX_METADATA_BYTES {
        return;
      }
      var slot := 0;
      while slot < SLOTS && metadataBlocks[slot].size > 0
        invariant slot <= SLOTS && forall i :: 0 <= i < slot ==> metadataBlocks[i].size > 0
      {
        slot := slot + 1;
      }
      if slot == SLOTS {
        return;
      }
      var offset := FindOffset(size);
      if offset.None? {
        return;
      }
      SlotSet(layout, h, slot, Block(offset.value, size));
      metadataBlocks[slot] := Block(offset.value, size);
      pointer := layout.metadata + offset.value;
      assert metadataBlocks[..] == h.blocks[slot := Block(offset.value, size)];
    }

    /** The search loop; `offset` only grows, by whole blocks. */
    method FindOffset(size: nat) returns (found: Option<nat>)
      requires metadataBlocks.Length == SLOTS && BlocksOk(metadataBlocks[..]) && 0 < size <= FX_METADATA_BYTES
      ensures found == Search(metadataBlocks[..], 0, size)
    {
      hide BlocksOk, Search;
      ghost var blocks := metadataBlocks[..];
      var offset := 0;
      while true
        invariant offset % 8 == 0 && offset <= FX_METADATA_BYTES
        invariant Search(blocks, offset, size) == Search(blocks, 0, size)
        decreases FX_METADATA_BYTES - offset
      {
        SearchTurn(blocks, offset, size);
        if size > FX_METADATA_BYTES - offset {
          return None;
        }
        var i := 0;
        while i < SLOTS
          invariant i <= SLOTS && forall k :: 0 <= k < i ==> !Overlaps(blocks[k], offset, size)
        {
          var block := metadataBlocks[i];
          var start, end := block.offset, block.offset + block.size;
          if block.size > 0 && offset < end && offset + size > start {
            break;
          }
          i := i + 1;
        }
        if i == SLOTS {
          return Some(offset);
        }
        BehindStays(blocks, i);
        offset := AlignUp(metadataBlocks[i].offset + metadataBlocks[i].size, 8);
      }
    }

    /** `answer` is what libc's malloc returns, when it is called. */
    method Malloc(linear: bool, size: nat, answer: LibcAnswer) returns (pointer: nat)
      requires Valid() && OpOk(layout, State(), MallocOp(linear, size, answer))
      modifies this`used, this`inUse, this`heap, metadataBlocks, linearMemory
      ensures Valid() && (State(), pointer) == MallocStep(layout, old(State()), linear, size, answer)
    {
      hide Sound, HostArenas.MetadataMalloc, Zeroed;
      ghost var h := State();
      SoundParts(layout, h);
      SoundLengths(layout, h);
      MallocLive(layout, h, linear, size, answer);
      if !linear {
        if size > LARGE {
          pointer := MetadataMalloc(size);
          return;
        }
        pointer := 0;
        if answer.Served? {
          pointer := answer.p;
          heap := heap[pointer := size];
        }
        return;
      }
      if inUse || size > layout.capacity {
        return 0;
      }
      ZeroFrom(linearMemory, 0, size);
      used := size;
      inUse := true;
      pointer := layout.linear;
    }

    method Realloc(linear: bool, pointer: nat, size: nat, answer: LibcAnswer) returns (moved: nat)
      requires Valid() && OpOk(layout, State(), ReallocOp(linear, pointer, size, answer))
      modifies this`used, this`inUse, this`heap, metadataBlocks, linearMemory
      ensures Valid() && (State(), moved) == ReallocStep(layout, old(State()), linear, pointer, size, answer)
    {
      hide Sound, HostArenas.MetadataMalloc, Zeroed, MallocStep, FreshHeap, Live;
      ghost var h := State();
      SoundParts(layout, h);
      SoundBlocks(layout, h);
      SoundLengths(layout, h);
      ReallocLive(layout, h, linear, pointer, size, answer);
      if !linear {
        var slot := MetadataSlot(pointer);
        if slot >= 0 {
          moved := ReallocInPlace(slot, pointer, size);
          return;
        }
        if pointer == 0 {
          moved := Malloc(linear, size, answer);
          return;
        }
        if size > LARGE {
          return 0;
        }
        moved := 0;
        if answer.Served? {
          moved := answer.p;
          heap := (heap - {pointer})[moved := size];
        } else if answer.Freed? {
          heap := heap - {pointer};
        }
        return;
      }
      if pointer != layout.linear || size > layout.capacity {
        return 0;
      }
      if size > used {
        ZeroFrom(linearMemory, used, size);
      }
      used := size;
      moved := layout.linear;
    }

    method MetadataSlot(pointer: nat) returns (slot: int)
      requires metadataBlocks.Length == SLOTS
      ensures slot == SlotOf(layout, metadataBlocks[..], pointer)
    {
      slot := 0;
      while slot < SLOTS
        invariant 0 <= slot <= SLOTS
        invariant forall i :: 0 <= i < slot ==>
                    !(metadataBlocks[i].size > 0 && pointer == layout.metadata + metadataBlocks[i].offset)
      {
        if metadataBlocks[slot].size > 0 && pointer == layout.metadata + metadataBlocks[slot].offset {
          return;
        }
        slot := slot + 1;
      }
      slot := -1;
    }

    /** Growing or shrinking a metadata block, which never moves. */
    method ReallocInPlace(slot: nat, pointer: nat, size: nat) returns (moved: nat)
      requires metadataBlocks.Length == SLOTS && BlocksOk(metadataBlocks[..]) && slot < SLOTS
      requires metadataBlocks[slot].size > 0
      modifies metadataBlocks
      ensures var r := MetadataRealloc(old(metadataBlocks[..]), slot, size);
              && metadataBlocks[..] == (if r.Some? then r.value else old(metadataBlocks[..]))
              && moved == if r.Some? && size > 0 then pointer else 0
    {
      ghost var blocks := metadataBlocks[..];
      var offset := metadataBlocks[slot].offset;
      if size > FX_METADATA_BYTES - offset {
        return 0;
      }
      var i := 0;
      while i < SLOTS
        invariant i <= SLOTS && metadataBlocks[..] == blocks
        invariant forall k :: 0 <= k < i && k != slot ==> !Overlaps(blocks[k], offset, size)
      {
        var other := metadataBlocks[i].offset;
        if i != slot && metadataBlocks[i].size > 0 && offset < other + metadataBlocks[i].size && offset + size > other {
          return 0;
        }
        i := i + 1;
      }
      assert !Overlaps(blocks[1 - slot], offset, size);
      metadataBlocks[slot] := Block(offset, size);
      assert metadataBlocks[..] == blocks[slot := Block(offset, size)];
      moved := if size > 0 then pointer else 0;
    }

    /** Releasing a block to where it came from: libc is only ever handed its own. */
    method Free(pointer: nat)
      requires Valid() && OpOk(layout, State(), FreeOp(pointer))
      modifies this`used, this`inUse, this`heap, metadataBlocks
      ensures Valid() && State() == FreeStep(layout, old(State()), pointer)
    {
      hide Sound, Live;
      ghost var h := State();
      SoundParts(layout, h);
      FreeLive(layout, h, pointer);
      RoutedHere(layout, h, pointer);
      var slot := MetadataSlot(pointer);
      if slot >= 0 {
        metadataBlocks[slot] := metadataBlocks[slot].(size := 0);
        assert metadataBlocks[..] == h.blocks[slot := h.blocks[slot].(size := 0)];
        return;
      }
      if pointer == layout.linear {
        used := 0;
        inUse := false;
      } else {
        LibcFree(pointer);
      }
    }

    ghost method LibcFree(pointer: nat)
      requires pointer == 0 || pointer in heap
      modifies this`heap
      ensures heap == old(heap) - {pointer}
    {
      heap := heap - {pointer};
    }
  }

  /** memset */
  method ZeroFrom(memory: array<Byte>, from: nat, end: nat)
    requires from <= end <= memory.Length
    modifies memory
    ensures memory[..] == Zeroed(old(memory[..]), from, end)
  {
    ghost var was := memory[..];
    var i := from;
    while i < end
      invariant from <= i <= end
      invariant forall k :: 0 <= k < memory.Length ==> memory[k] == if from <= k < i then 0 else was[k]
    {
      memory[i] := 0;
      i := i + 1;
    }
    assert memory[..] == was[..from] + Zeros(end - from) + was[end..];
  }

  lemma SoundBlocks(l: Layout, h: Host)
    requires Sound(l, h)
    ensures BlocksOk(h.blocks)
  {
  }

  lemma SoundLengths(l: Layout, h: Host)
    requires Sound(l, h)
    ensures |h.linear| == l.capacity
  {
  }

  lemma SearchTurn(blocks: seq<Block>, offset: nat, size: nat)
    requires BlocksOk(blocks) && size > 0 && offset <= FX_METADATA_BYTES
    ensures |blocks| == SLOTS
    ensures size > FX_METADATA_BYTES - offset ==> Search(blocks, offset, size) == None
    ensures size <= FX_METADATA_BYTES - offset ==>
              Search(blocks, offset, size)
              == if Overlaps(blocks[0], offset, size) then Search(blocks, Behind(blocks[0]), size)
                 else if Overlaps(blocks[1], offset, size) then Search(blocks, Behind(blocks[1]), size)
                 else Some(offset)
  {
  }

  lemma BehindStays(blocks: seq<Block>, i: nat)
    requires BlocksOk(blocks) && i < |blocks| && blocks[i].size > 0
    ensures Behind(blocks[i]) % 8 == 0 && Behind(blocks[i]) <= FX_METADATA_BYTES
  {
    AlignUpIsAligned(blocks[i].offset + blocks[i].size, 8);
  }
}
