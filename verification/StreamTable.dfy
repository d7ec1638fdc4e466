/** The stream slots themselves (runtime/fx_wamr_native.c, lines 126-128, 282-289, 963-1088 and 1253-1265). */
module StreamTable {
  import opened Bytes
  import opened ByteSinks
  import opened StreamModel

  datatype StreamSlot = StreamSlot(used: bool, owned: bool, status: nat, bytes: array<Byte>, len: nat, cursor: nat)

  predicate SlotOk(s: StreamSlot) {
    && (s.used ==> s.cursor <= s.len <= s.bytes.Length)
    && (!s.used ==> !s.owned)
  }

  ghost function Held(s: StreamSlot, id: nat): Option<Stream>
    requires SlotOk(s)
    reads s.bytes
  {
    if !s.used then None
    else Some(Stream(s.bytes[..s.len], s.status, s.cursor, if s.owned then Some(id) else None))
  }

  /** The chunk gets the memory it asks for; an empty one does not need it, its count being 0 either way. */
  predicate ServedAt(chunks: seq<seq<Byte>>, rooms: seq<bool>, i: nat)
    requires |rooms| == |chunks| && i < |chunks|
  {
    rooms[i] || chunks[i] == []
  }

  ghost predicate AllServed(chunks: seq<seq<Byte>>, rooms: seq<bool>)
    requires |rooms| == |chunks|
  {
    forall i :: 0 <= i < |chunks| ==> ServedAt(chunks, rooms, i)
  }

  lemma JoinEnds(chunks: seq<seq<Byte>>)
    ensures Join(chunks[..0]) == [] && chunks[..|chunks|] == chunks
  {
  }

  lemma HeldNew(owned: bool, status: nat, bytes: array<Byte>, len: nat, id: nat)
    requires len <= bytes.Length
    ensures Held(StreamSlot(true, owned, status, bytes, len, 0), id)
         == Some(Stream(bytes[..len], status, 0, if owned then Some(id) else None))
  {
  }

  lemma OwnedStep(t: Table, slot: nat, chunks: seq<seq<Byte>>, status: nat, succeeds: bool)
    requires |t.slots| == MAX_STREAMS && t.buffer.None? && slot == FreeFrom(t.slots, 0) < MAX_STREAMS
    ensures OpenStep(t, chunks, status, succeeds)
         == if succeeds && |Join(chunks)| <= MAX_STREAM_BYTES then
              (t.(slots := t.slots[slot := Some(Stream(Join(chunks), status, 0, Some(t.issued)))],
                 issued := t.issued + 1), slot + 1)
            else (t.(issued := t.issued + 1, freed := t.freed + multiset{t.issued}), -1)
  {
    hide Join;
  }

  lemma HeldUnused(s: StreamSlot, id: nat)
    requires SlotOk(s) && !s.used
    ensures Held(s, id) == None
  {
  }

  lemma NextIs(t: Table, handle: int, cap: nat)
    requires |t.slots| == MAX_STREAMS
    ensures !ValidHandle(handle) || t.slots[handle - 1].None? ==> NextStep(t, handle, cap) == (t, None)
    ensures ValidHandle(handle) && t.slots[handle - 1].Some?
            && t.slots[handle - 1].value.cursor <= |t.slots[handle - 1].value.body| ==>
              (var s := t.slots[handle - 1].value;
               var end := s.cursor + Min(|s.body| - s.cursor, cap);
               NextStep(t, handle, cap)
               == (t.(slots := t.slots[handle - 1 := Some(s.(cursor := end))]), Some(s.body[s.cursor..end])))
  {
  }

  lemma HeldRead(s: StreamSlot, id: nat, n: nat)
    requires SlotOk(s) && s.used && s.cursor + n <= s.len
    ensures Held(s, id).Some? && Held(s, id).value.body == s.bytes[..s.len] && Held(s, id).value.cursor == s.cursor
    ensures Held(s.(cursor := s.cursor + n), id) == Some(Held(s, id).value.(cursor := s.cursor + n))
    ensures s.bytes[..s.len][s.cursor..s.cursor + n] == s.bytes[s.cursor..s.cursor + n]
  {
  }

  class Streams {
    const streams: array<StreamSlot>
    const nothing: array<Byte>         // stands for the null pointer of a cleared slot
    var borrowed: array?<Byte>       // borrowed_stream_buffer
    ghost var ids: seq<nat>            // which allocated buffer each slot has
    ghost var issued: nat              // how many were allocated
    ghost var freed: multiset<nat>     // which were given back

    ghost predicate Valid()
      reads this, streams
    {
      && streams.Length == MAX_STREAMS && |ids| == MAX_STREAMS
      && forall i :: 0 <= i < MAX_STREAMS ==> SlotOk(streams[i])
    }

    /** What a slot holds. */
    ghost function Slot(i: nat): Option<Stream>
      requires Valid() && i < MAX_STREAMS
      reads this, streams, streams[i].bytes
    {
      Held(streams[i], ids[i])
    }

    ghost function Contents(): (t: Table)
      requires Valid()
      reads this, streams, set i | 0 <= i < streams.Length :: streams[i].bytes
      ensures |t.slots| == MAX_STREAMS && forall i :: 0 <= i < MAX_STREAMS ==> t.slots[i] == Slot(i)
    {
      Table([Slot(0), Slot(1), Slot(2), Slot(3)], if borrowed == null then None else Some(borrowed.Length),
            issued, freed)
    }

    constructor ()
      ensures Valid() && Contents() == EMPTY && fresh(streams)
    {
      var none := new Byte[0];
      nothing := none;
      streams := new StreamSlot[MAX_STREAMS](i => StreamSlot(false, false, 0, none, 0, 0));
      borrowed := null;
      ids, issued, freed := [0, 0, 0, 0], 0, multiset{};
    }

    /** One slot filled in; every other, and the buffers of the others, stay as they are. */
    method PutSlot(i: nat, s: StreamSlot, ghost id: nat)
      requires Valid() && i < MAX_STREAMS && SlotOk(s)
      modifies this`ids, streams
      ensures Valid() && Contents() == old(Contents()).(slots := old(Contents()).slots[i := Held(s, id)])
      ensures ids == old(ids)[i := id] && streams[i] == s
    {
      hide Held;
      ghost var t := Contents();
      streams[i] := s;
      ids := ids[i := id];
      assert Contents().slots == t.slots[i := Held(s, id)];
    }

    /** fx_wamr_set_stream_buffer */
    method SetStreamBuffer(buffer: array?<Byte>)
      requires Valid()
      modifies this`borrowed
      ensures Valid() && borrowed == buffer
      ensures Contents() == Step(old(Contents()), SetBuffer(if buffer == null then None else Some(buffer.Length)))
    {
      borrowed := buffer;
    }

    /**
     * The whole exchange: chunks until one does not fit, and a result. `rooms` says for each chunk whether realloc
     * has a block to give, if one is asked for.
     */
    method PerformRequest(sink: ByteSink, chunks: seq<seq<Byte>>, rooms: seq<bool>, succeeds: bool) returns (ok: bool)
      requires sink.Valid() && sink.Contents() == [] && |rooms| == |chunks|
      modifies sink, sink.bytes
      ensures sink.Valid() && sink.cap == old(sink.cap)
      ensures sink.bytes == old(sink.bytes) || (sink.owned && fresh(sink.bytes))
      ensures ok == (succeeds && |Join(chunks)| <= sink.cap && (sink.owned ==> AllServed(chunks, rooms)))
      ensures ok ==> sink.Contents() == Join(chunks)
    {
      hide Join, ByteSink.Valid;
      var i := 0;
      JoinEnds(chunks);
      while i < |chunks|
        invariant i <= |chunks| && sink.Valid() && sink.cap == old(sink.cap)
        invariant sink.bytes == old(sink.bytes) || (sink.owned && fresh(sink.bytes))
        invariant sink.Contents() == Join(chunks[..i]) && |sink.Contents()| <= sink.cap
        invariant sink.owned ==> forall k :: 0 <= k < i ==> ServedAt(chunks, rooms, k)
      {
        JoinSplit(chunks, i);
        JoinSplit(chunks, i + 1);
        sink.Room();
        var count := sink.WriteBody(chunks[i], rooms[i]);
        if count != |chunks[i]| {
          assert rooms[i] <==> ServedAt(chunks, rooms, i);
          return false;
        }
        i := i + 1;
      }
      ok := succeeds;
    }

    /** A request into a buffer of its own. */
    method CollectOwned(chunks: seq<seq<Byte>>, rooms: seq<bool>, succeeds: bool)
      returns (ok: bool, bytes: array<Byte>, len: nat)
      requires |rooms| == |chunks|
      ensures ok == (succeeds && AllServed(chunks, rooms) && |Join(chunks)| <= MAX_STREAM_BYTES) && fresh(bytes)
      ensures ok ==> len <= bytes.Length && bytes[..len] == Join(chunks)
    {
      hide Join;
      var sink := new ByteSink.Owned();
      ok := PerformRequest(sink, chunks, rooms, succeeds);
      bytes, len := sink.bytes, sink.len;
    }

    /** The first slot not in use, or none. */
    method FindSlot() returns (slot: int)
      requires Valid()
      ensures slot == if FreeFrom(Contents().slots, 0) == MAX_STREAMS then -1 else FreeFrom(Contents().slots, 0)
    {
      var i := 0;
      while i < MAX_STREAMS
        invariant i <= MAX_STREAMS && FreeFrom(Contents().slots, i) == FreeFrom(Contents().slots, 0)
      {
        if !streams[i].used {
          return i;
        }
        i := i + 1;
      }
      slot := -1;
    }

    method AnyUsed() returns (any: bool)
      requires Valid()
      ensures any == !Idle(Contents().slots)
    {
      var i := 0;
      while i < MAX_STREAMS
        invariant i <= MAX_STREAMS && forall k :: 0 <= k < i ==> !streams[k].used
      {
        if streams[i].used {
          assert Contents().slots[i].Some?;
          return true;
        }
        i := i + 1;
      }
      any := false;
    }

    /** fx_http_stream_open */
    method OpenStream(chunks: seq<seq<Byte>>, rooms: seq<bool>, status: nat, succeeds: bool) returns (handle: int)
      requires Valid() && |rooms| == |chunks|
      modifies this`ids, this`issued, this`freed, streams, if borrowed == null then {} else {borrowed}
      ensures Valid()
      ensures var served := borrowed != null || AllServed(chunks, rooms);
              (Contents(), handle) == OpenStep(old(Contents()), chunks, status, succeeds && served)
    {
      hide FreeFrom, Join, Idle, AllServed;
      var slot := FindSlot();
      if slot < 0 {
        return -1;
      }
      if borrowed != null {
        var busy := AnyUsed();
        if busy {
          return -1;
        }
        handle := OpenBorrowed(slot, chunks, rooms, status, succeeds);
      } else {
        handle := OpenOwned(slot, chunks, rooms, status, succeeds);
      }
    }

    /** With a buffer of its own; one that failed is freed on the spot. */
    method OpenOwned(slot: nat, chunks: seq<seq<Byte>>, rooms: seq<bool>, status: nat, succeeds: bool)
      returns (handle: int)
      requires Valid() && |rooms| == |chunks| && borrowed == null
               && slot < MAX_STREAMS && FreeFrom(Contents().slots, 0) == slot
      modifies this`ids, this`issued, this`freed, streams
      ensures Valid()
      ensures (Contents(), handle) == OpenStep(old(Contents()), chunks, status, succeeds && AllServed(chunks, rooms))
    {
      hide FreeFrom, Join, Idle, Held, OpenStep, AllServed;
      OwnedStep(Contents(), slot, chunks, status, succeeds && AllServed(chunks, rooms));
      var ok, bytes, len := CollectOwned(chunks, rooms, succeeds);
      issued := issued + 1;
      if !ok {
        freed := freed + multiset{issued - 1};
        return -1;
      }
      HeldNew(true, status, bytes, len, issued - 1);
      PutSlot(slot, StreamSlot(true, true, status, bytes, len, 0), issued - 1);
      handle := slot + 1;
    }

    /** In the borrowed buffer, which no live slot is in. */
    method OpenBorrowed(slot: nat, chunks: seq<seq<Byte>>, rooms: seq<bool>, status: nat, succeeds: bool)
      returns (handle: int)
      requires Valid() && |rooms| == |chunks| && borrowed != null
               && slot < MAX_STREAMS && FreeFrom(Contents().slots, 0) == slot
      requires Idle(Contents().slots)
      modifies this`ids, streams, borrowed
      ensures Valid() && (Contents(), handle) == OpenStep(old(Contents()), chunks, status, succeeds)
    {
      hide FreeFrom, Join;
      assert forall i :: 0 <= i < MAX_STREAMS ==> Contents().slots[i].None?;
      var sink := new ByteSink.Borrowed(borrowed);
      var ok := PerformRequest(sink, chunks, rooms, succeeds);
      if !ok {
        return -1;
      }
      PutSlot(slot, StreamSlot(true, false, status, sink.bytes, sink.len, 0), 0);
      handle := slot + 1;
    }

    /** fx_http_stream_status */
    method StreamStatus(handle: int) returns (status: Option<nat>)
      requires Valid()
      ensures status == StatusOf(Contents(), handle)
    {
      if handle < 1 || handle > MAX_STREAMS || !streams[handle - 1].used {
        return None;
      }
      status := Some(streams[handle - 1].status);
    }

    /** fx_http_stream_next: into guest memory, which is not where the host keeps the bodies. */
    method NextChunk(handle: int, out: array<Byte>, cap: nat) returns (count: int)
      requires Valid() && cap <= out.Length
      requires out != borrowed && forall i :: 0 <= i < MAX_STREAMS ==> streams[i].bytes != out
      modifies this`ids, streams, out
      ensures Valid()
      ensures var (t, r) := NextStep(old(Contents()), handle, cap);
              && Contents() == t && count == (if r.Some? then |r.value| else -1)
              && (forall k :: 0 <= k < out.Length ==>
                    out[k] == if r.Some? && k < |r.value| then r.value[k] else old(out[k]))
    {
      hide Held, NextStep;
      ghost var t := Contents();
      NextIs(t, handle, cap);
      if handle < 1 || handle > MAX_STREAMS || !streams[handle - 1].used {
        if ValidHandle(handle) {
          HeldUnused(streams[handle - 1], ids[handle - 1]);
        }
        return -1;
      }
      var slot := streams[handle - 1];
      var remaining := slot.len - slot.cursor;
      var n := if remaining < cap then remaining else cap;
      HeldRead(slot, ids[handle - 1], n);
      CopyOut(slot.bytes, slot.cursor, out, n);
      PutSlot(handle - 1, slot.(cursor := slot.cursor + n), ids[handle - 1]);
      count := n;
    }

    /** Freeing what a slot owns and clearing it. */
    method ClearSlot(i: nat)
      requires Valid() && i < MAX_STREAMS
      modifies this`freed, this`ids, streams
      ensures Valid() && Contents() == CloseSlot(old(Contents()), i)
    {
      if streams[i].owned {
        freed := freed + multiset{ids[i]};
      }
      PutSlot(i, StreamSlot(false, false, 0, nothing, 0, 0), ids[i]);
    }

    /** fx_http_stream_close */
    method CloseStream(handle: int)
      requires Valid()
      modifies this`freed, this`ids, streams
      ensures Valid() && Contents() == Step(old(Contents()), Close(handle))
    {
      if handle < 1 || handle > MAX_STREAMS {
        return;
      }
      ClearSlot(handle - 1);
    }

    /** deinit_native_lib */
    method DeinitLib()
      requires Valid()
      modifies this`freed, this`ids, this`borrowed, streams
      ensures Valid() && Contents() == Step(old(Contents()), Deinit)
    {
      hide CloseSlot;
      var i := 0;
      while i < MAX_STREAMS
        invariant i <= MAX_STREAMS && Valid() && borrowed == old(borrowed)
        invariant CloseFrom(Contents(), i) == CloseFrom(old(Contents()), 0)
      {
        ClearSlot(i);
        i := i + 1;
      }
      borrowed := null;
    }
  }

  /** memcpy between buffers that do not overlap. */
  method CopyOut(bytes: array<Byte>, from: nat, out: array<Byte>, n: nat)
    requires from + n <= bytes.Length && n <= out.Length && bytes != out
    modifies out
    ensures forall k :: 0 <= k < out.Length ==> out[k] == if k < n then bytes[from + k] else old(out[k])
  {
    forall i | 0 <= i < n {
      out[i] := bytes[from + i];
    }
  }
}
