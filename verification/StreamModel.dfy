/** The buffered HTTP streams over whole runs (runtime/fx_wamr_native.c, lines 91-128, 282-289, 963-1088, 1253-1265). */
module StreamModel {
  import opened Bytes
  import opened ByteSinks

  const MAX_STREAMS: nat := 4

  /** A live slot: the whole body, how much of it was read, and the number of the buffer it owns, if it owns one. */
  datatype Stream = Stream(body: seq<Byte>, status: nat, cursor: nat, owned: Option<nat>)

  /**
   * `buffer` is the capacity of the borrowed buffer when there is one, `issued` how many buffers were allocated,
   * `freed` how often each of them was given back.
   */
  datatype Table = Table(slots: seq<Option<Stream>>, buffer: Option<nat>, issued: nat, freed: multiset<nat>)

  const EMPTY: Table := Table([None, None, None, None], None, 0, multiset{})

  /** A request is the chunks it hands to write_body, then a status or a failure. */
  datatype Event =
    | Open(chunks: seq<seq<Byte>>, status: nat, succeeds: bool)
    | Next(handle: int, cap: nat)
    | Status(handle: int)
    | Close(handle: int)
    | SetBuffer(buffer: Option<nat>)
    | Deinit

  /** The first free slot, or the number of slots. */
  function FreeFrom(slots: seq<Option<Stream>>, i: nat): (slot: nat)
    requires i <= |slots|
    ensures i <= slot <= |slots| && (slot < |slots| ==> slots[slot].None?)
    ensures forall k :: i <= k < slot ==> slots[k].Some?
    decreases |slots| - i
  {
    if i == |slots| || slots[i].None? then i else FreeFrom(slots, i + 1)
  }

  predicate Idle(slots: seq<Option<Stream>>) {
    forall i :: 0 <= i < |slots| ==> slots[i].None?
  }

  predicate ValidHandle(handle: int) { 1 <= handle <= MAX_STREAMS }

  /** Opening a stream: the new table and the handle, or -1. */
  function OpenStep(t: Table, chunks: seq<seq<Byte>>, status: nat, succeeds: bool): (Table, int)
    requires |t.slots| == MAX_STREAMS
  {
    var slot := FreeFrom(t.slots, 0);
    if slot == MAX_STREAMS || (t.buffer.Some? && !Idle(t.slots)) then (t, -1)
    else
      var cap := if t.buffer.Some? then t.buffer.value else MAX_STREAM_BYTES;
      var done := succeeds && |Join(chunks)| <= cap;
      if t.buffer.Some? then
        if done then (t.(slots := t.slots[slot := Some(Stream(Join(chunks), status, 0, None))]), slot + 1) else (t, -1)
      else if done then
        (t.(slots := t.slots[slot := Some(Stream(Join(chunks), status, 0, Some(t.issued)))],
           issued := t.issued + 1), slot + 1)
      else (t.(issued := t.issued + 1, freed := t.freed + multiset{t.issued}), -1)
  }

  /** What a read returns: bytes, or -1 for a handle that is not open. */
  function NextStep(t: Table, handle: int, cap: nat): (Table, Option<seq<Byte>>)
    requires |t.slots| == MAX_STREAMS
  {
    if !ValidHandle(handle) || t.slots[handle - 1].None? then (t, None)
    else
      var s := t.slots[handle - 1].value;
      if s.cursor > |s.body| then (t, None)
      else
        var end := s.cursor + Min(|s.body| - s.cursor, cap);
        (t.(slots := t.slots[handle - 1 := Some(s.(cursor := end))]), Some(s.body[s.cursor..end]))
  }

  /** The status of a handle that is open. */
  function StatusOf(t: Table, handle: int): Option<nat>
    requires |t.slots| == MAX_STREAMS
  {
    if ValidHandle(handle) && t.slots[handle - 1].Some? then Some(t.slots[handle - 1].value.status) else None
  }

  function Released(s: Option<Stream>): multiset<nat> {
    if s.Some? && s.value.owned.Some? then multiset{s.value.owned.value} else multiset{}
  }

  function CloseSlot(t: Table, i: nat): Table
    requires |t.slots| == MAX_STREAMS && i < MAX_STREAMS
  {
    t.(slots := t.slots[i := None], freed := t.freed + Released(t.slots[i]))
  }

  function CloseFrom(t: Table, i: nat): (t': Table)
    requires |t.slots| == MAX_STREAMS && i <= MAX_STREAMS
    ensures |t'.slots| == MAX_STREAMS
    decreases MAX_STREAMS - i
  {
    if i == MAX_STREAMS then t else CloseFrom(CloseSlot(t, i), i + 1)
  }

  function Step(t: Table, e: Event): (t': Table)
    requires |t.slots| == MAX_STREAMS
    ensures |t'.slots| == MAX_STREAMS
  {
    match e
    case Open(chunks, status, succeeds) => OpenStep(t, chunks, status, succeeds).0
    case Next(handle, cap) => NextStep(t, handle, cap).0
    case Status(_) => t
    case Close(handle) => if ValidHandle(handle) then CloseSlot(t, handle - 1) else t
    case SetBuffer(buffer) => t.(buffer := buffer)
    case Deinit => CloseFrom(t, 0).(buffer := None)
  }

  function Run(t: Table, events: seq<Event>): (t': Table)
    requires |t.slots| == MAX_STREAMS
    ensures |t'.slots| == MAX_STREAMS
    decreases |events|
  {
    if events == [] then t else Run(Step(t, events[0]), events[1..])
  }

  // ---- what holds in every run ----

  predicate Borrowed(s: Option<Stream>) { s.Some? && s.value.owned.None? }

  /** How many of the slots own a buffer. */
  function Owners(slots: seq<Option<Stream>>, id: nat): nat
    requires |slots| == MAX_STREAMS
  {
    Released(slots[0])[id] + Released(slots[1])[id] + Released(slots[2])[id] + Released(slots[3])[id]
  }

  /** Every buffer allocated is either with exactly one live slot or freed exactly once, and no other is. */
  ghost predicate Accounted(slots: seq<Option<Stream>>, issued: nat, freed: multiset<nat>)
    requires |slots| == MAX_STREAMS
  {
    forall id: nat :: Owners(slots, id) + freed[id] == if id < issued then 1 else 0
  }

  predicate CursorOk(s: Option<Stream>) { s.Some? ==> s.value.cursor <= |s.value.body| }

  predicate OneBorrowed(slots: seq<Option<Stream>>) {
    forall i, j :: 0 <= i < j < |slots| ==> !(Borrowed(slots[i]) && Borrowed(slots[j]))
  }

  ghost predicate Sound(t: Table) {
    && |t.slots| == MAX_STREAMS && Accounted(t.slots, t.issued, t.freed) && OneBorrowed(t.slots)
    && forall i :: 0 <= i < MAX_STREAMS ==> CursorOk(t.slots[i])
  }

  lemma EmptyIsSound()
    ensures Sound(EMPTY)
  {
    var slots: seq<Option<Stream>> := [None, None, None, None];
    forall i | 0 <= i < MAX_STREAMS ensures slots[i] == None {
    }
  }

  lemma OwnersSet(slots: seq<Option<Stream>>, i: nat, s: Option<Stream>, id: nat)
    requires |slots| == MAX_STREAMS && i < MAX_STREAMS
    ensures Owners(slots[i := s], id) == Owners(slots, id) - Released(slots[i])[id] + Released(s)[id]
  {
    hide Released;
  }

  /** A slot that takes a newly allocated buffer. */
  lemma AccountedIssue(slots: seq<Option<Stream>>, issued: nat, freed: multiset<nat>, i: nat, s: Stream)
    requires |slots| == MAX_STREAMS && i < MAX_STREAMS && slots[i].None? && s.owned == Some(issued)
    requires Accounted(slots, issued, freed)
    ensures Accounted(slots[i := Some(s)], issued + 1, freed)
  {
    hide Owners;
    var after := slots[i := Some(s)];
    forall id: nat ensures Owners(after, id) + freed[id] == if id < issued + 1 then 1 else 0 {
      OwnersSet(slots, i, Some(s), id);
      assert Owners(slots, id) + freed[id] == if id < issued then 1 else 0;
    }
  }

  /** A slot whose buffer, if it had one of its own, stays the same or is given back. */
  lemma AccountedSlot(slots: seq<Option<Stream>>, issued: nat, freed: multiset<nat>, i: nat, s: Option<Stream>)
    requires |slots| == MAX_STREAMS && i < MAX_STREAMS && Accounted(slots, issued, freed)
    requires s.None? || Released(s) == Released(slots[i])
    ensures Accounted(slots[i := s], issued, if s.None? then freed + Released(slots[i]) else freed)
  {
    hide Owners;
    var after := slots[i := s];
    var freed' := if s.None? then freed + Released(slots[i]) else freed;
    forall id: nat ensures Owners(after, id) + freed'[id] == if id < issued then 1 else 0 {
      OwnersSet(slots, i, s, id);
      assert Owners(slots, id) + freed[id] == if id < issued then 1 else 0;
    }
  }

  lemma AccountedFailed(slots: seq<Option<Stream>>, issued: nat, freed: multiset<nat>)
    requires |slots| == MAX_STREAMS && Accounted(slots, issued, freed)
    ensures Accounted(slots, issued + 1, freed + multiset{issued})
  {
    hide Owners;
    forall id: nat ensures Owners(slots, id) + (freed + multiset{issued})[id] == if id < issued + 1 then 1 else 0 {
      assert Owners(slots, id) + freed[id] == if id < issued then 1 else 0;
    }
  }

  lemma OpenKeeps(t: Table, chunks: seq<seq<Byte>>, status: nat, succeeds: bool)
    requires Sound(t)
    ensures Sound(OpenStep(t, chunks, status, succeeds).0)
  {
    hide Join, Accounted;
    var slot := FreeFrom(t.slots, 0);
    if slot < MAX_STREAMS && !(t.buffer.Some? && !Idle(t.slots)) {
      AccountedFailed(t.slots, t.issued, t.freed);
      AccountedIssue(t.slots, t.issued, t.freed, slot, Stream(Join(chunks), status, 0, Some(t.issued)));
      if t.buffer.Some? {
        AccountedSlot(t.slots, t.issued, t.freed, slot, Some(Stream(Join(chunks), status, 0, None)));
      }
    }
  }

  lemma NextKeeps(t: Table, handle: int, cap: nat)
    requires Sound(t)
    ensures Sound(NextStep(t, handle, cap).0)
  {
    hide Accounted;
    if ValidHandle(handle) && t.slots[handle - 1].Some? {
      assert CursorOk(t.slots[handle - 1]);
      var s := t.slots[handle - 1].value;
      var s' := s.(cursor := s.cursor + Min(|s.body| - s.cursor, cap));
      AccountedSlot(t.slots, t.issued, t.freed, handle - 1, Some(s'));
    }
  }

  lemma CloseKeeps(t: Table, i: nat)
    requires Sound(t) && i < MAX_STREAMS
    ensures Sound(CloseSlot(t, i))
  {
    hide Accounted, Released;
    AccountedSlot(t.slots, t.issued, t.freed, i, None);
  }

  lemma {:induction false} CloseAllKeeps(t: Table, i: nat)
    requires Sound(t) && i <= MAX_STREAMS
    ensures Sound(CloseFrom(t, i))
    ensures forall k :: i <= k < MAX_STREAMS ==> CloseFrom(t, i).slots[k].None?
    ensures forall k :: 0 <= k < i ==> CloseFrom(t, i).slots[k] == t.slots[k]
    decreases MAX_STREAMS - i
  {
    hide Sound, Released;
    SlotCount(t);
    if i < MAX_STREAMS {
      CloseKeeps(t, i);
      CloseAllKeeps(CloseSlot(t, i), i + 1);
    }
  }

  lemma SlotCount(t: Table)
    requires Sound(t)
    ensures |t.slots| == MAX_STREAMS
  {
  }

  lemma BufferIsFree(t: Table, buffer: Option<nat>)
    requires Sound(t)
    ensures Sound(t.(buffer := buffer))
  {
  }

  lemma StepKeeps(t: Table, e: Event)
    requires Sound(t)
    ensures Sound(Step(t, e))
  {
    hide Sound, OpenStep, NextStep, CloseSlot, CloseFrom;
    SlotCount(t);
    match e
    case Open(chunks, status, succeeds) => OpenKeeps(t, chunks, status, succeeds);
    case Next(handle, cap) => NextKeeps(t, handle, cap);
    case Status(_) =>
    case Close(handle) => if ValidHandle(handle) { CloseKeeps(t, handle - 1); }
    case SetBuffer(buffer) => BufferIsFree(t, buffer);
    case Deinit => CloseAllKeeps(t, 0); BufferIsFree(CloseFrom(t, 0), None);
  }

  /**
   * In every run, however buffers are lent and taken back in between, at most one live slot is in a borrowed
   * buffer, and every allocated one is freed once or still with one live slot.
   */
  lemma {:induction false} EveryRun(t: Table, events: seq<Event>)
    requires Sound(t)
    ensures Sound(Run(t, events))
    decreases |events|
  {
    hide Sound, Step;
    SlotCount(t);
    if events != [] {
      StepKeeps(t, events[0]);
      EveryRun(Step(t, events[0]), events[1..]);
    }
  }

  /** Unloading gives back whatever is still held: every buffer ever allocated has then been freed, once. */
  lemma DeinitFreesAll(t: Table)
    requires Sound(t)
    ensures Idle(Step(t, Deinit).slots)
    ensures forall id: nat :: Step(t, Deinit).freed[id] == if id < Step(t, Deinit).issued then 1 else 0
  {
    hide CloseFrom, Owners;
    CloseAllKeeps(t, 0);
    var t' := CloseFrom(t, 0);
    forall id: nat ensures t'.freed[id] == if id < t'.issued then 1 else 0 {
      NoOwners(t'.slots, id);
    }
  }

  lemma NoOwners(slots: seq<Option<Stream>>, id: nat)
    requires |slots| == MAX_STREAMS && Idle(slots)
    ensures Owners(slots, id) == 0
  {
  }

  // ---- what a reader sees ----

  /** For each slot, the chunks and the status of its last open, and what was read since. */
  datatype Log = Log(sent: seq<seq<Byte>>, heard: seq<seq<Byte>>, status: seq<nat>)

  predicate LogOk(log: Log) { |log.sent| == |log.heard| == |log.status| == MAX_STREAMS }

  function LogStep(t: Table, log: Log, e: Event): (l: Log)
    requires |t.slots| == MAX_STREAMS && LogOk(log)
    ensures LogOk(l)
  {
    match e
    case Open(chunks, status, succeeds) =>
      var handle := OpenStep(t, chunks, status, succeeds).1;
      if !ValidHandle(handle) then log
      else
        Log(log.sent[handle - 1 := Join(chunks)], log.heard[handle - 1 := []], log.status[handle - 1 := status])
    case Next(handle, cap) =>
      var r := NextStep(t, handle, cap).1;
      if ValidHandle(handle) && r.Some? then log.(heard := log.heard[handle - 1 := log.heard[handle - 1] + r.value])
      else log
    case _ => log
  }

  function LogRun(t: Table, log: Log, events: seq<Event>): (l: Log)
    requires |t.slots| == MAX_STREAMS && LogOk(log)
    ensures LogOk(l)
    decreases |events|
  {
    if events == [] then log else LogRun(Step(t, events[0]), LogStep(t, log, events[0]), events[1..])
  }

  predicate Agrees(s: Option<Stream>, sent: seq<Byte>, heard: seq<Byte>, status: nat) {
    && heard <= sent
    && (s.Some? ==> && s.value.body == sent && s.value.cursor <= |sent| && heard == sent[..s.value.cursor]
                    && s.value.status == status)
  }

  predicate AllAgree(t: Table, log: Log) {
    && |t.slots| == MAX_STREAMS && LogOk(log)
    && forall i :: 0 <= i < MAX_STREAMS ==> Agrees(t.slots[i], log.sent[i], log.heard[i], log.status[i])
  }

  lemma {:induction false} ClosedAgree(t: Table, log: Log, i: nat)
    requires AllAgree(t, log) && i <= MAX_STREAMS
    ensures AllAgree(CloseFrom(t, i), log)
    decreases MAX_STREAMS - i
  {
    if i < MAX_STREAMS {
      ClosedAgree(CloseSlot(t, i), log, i + 1);
    }
  }

  lemma ReadOn(body: seq<Byte>, from: nat, end: nat)
    requires from <= end <= |body|
    ensures body[..from] + body[from..end] == body[..end]
  {
  }

  lemma NextAgrees(t: Table, log: Log, handle: int, cap: nat)
    requires AllAgree(t, log)
    ensures AllAgree(Step(t, Next(handle, cap)), LogStep(t, log, Next(handle, cap)))
  {
    if ValidHandle(handle) && t.slots[handle - 1].Some? {
      var s := t.slots[handle - 1].value;
      assert Agrees(t.slots[handle - 1], log.sent[handle - 1], log.heard[handle - 1], log.status[handle - 1]);
      ReadOn(s.body, s.cursor, s.cursor + Min(|s.body| - s.cursor, cap));
    }
  }

  lemma OpenAgrees(t: Table, log: Log, chunks: seq<seq<Byte>>, status: nat, succeeds: bool)
    requires AllAgree(t, log)
    ensures AllAgree(Step(t, Open(chunks, status, succeeds)), LogStep(t, log, Open(chunks, status, succeeds)))
  {
    hide Join, Idle;
  }

  lemma StepAgrees(t: Table, log: Log, e: Event)
    requires AllAgree(t, log)
    ensures AllAgree(Step(t, e), LogStep(t, log, e))
  {
    hide Join, CloseFrom, OpenStep, NextStep;
    match e
    case Open(chunks, status, succeeds) => OpenAgrees(t, log, chunks, status, succeeds);
    case Next(handle, cap) => NextAgrees(t, log, handle, cap);
    case Deinit => ClosedAgree(t, log, 0);
    case _ =>
  }

  /**
   * In every run, what was read from a slot is a prefix of what its request delivered, closed or not, and an open slot
   * has the status its request came back with.
   */
  lemma {:induction false} ReadsArePrefixes(t: Table, log: Log, events: seq<Event>)
    requires AllAgree(t, log)
    ensures AllAgree(Run(t, events), LogRun(t, log, events))
    decreases |events|
  {
    hide Step, LogStep, Agrees;
    if events != [] {
      StepAgrees(t, log, events[0]);
      ReadsArePrefixes(Step(t, events[0]), LogStep(t, log, events[0]), events[1..]);
    }
  }

  const NO_LOG: Log := Log([[], [], [], []], [[], [], [], []], [0, 0, 0, 0])

  /** All of this holds in every run from a table that was just initialised. */
  lemma RunsFromEmpty(events: seq<Event>)
    ensures Sound(Run(EMPTY, events))
    ensures AllAgree(Run(EMPTY, events), LogRun(EMPTY, NO_LOG, events))
  {
    hide Sound, Run, LogRun;
    EmptyIsSound();
    EveryRun(EMPTY, events);
    NothingHeard();
    ReadsArePrefixes(EMPTY, NO_LOG, events);
  }

  lemma NothingHeard()
    ensures AllAgree(EMPTY, NO_LOG)
  {
    var none: seq<seq<Byte>> := [[], [], [], []];
    forall i | 0 <= i < MAX_STREAMS ensures none[i] == [] && EMPTY.slots[i] == None {
    }
  }

  /** An empty read with room to read into means all of it has been read. */
  lemma EmptyReadIsTheEnd(t: Table, log: Log, handle: int, cap: nat)
    requires AllAgree(t, log) && cap > 0 && NextStep(t, handle, cap).1.Some?
    ensures NextStep(t, handle, cap).1 == Some([]) <==> log.heard[handle - 1] == log.sent[handle - 1]
  {
    var s := t.slots[handle - 1].value;
    assert Agrees(t.slots[handle - 1], log.sent[handle - 1], log.heard[handle - 1], log.status[handle - 1]);
  }

  /** The event ends the stream in slot `i`. */
  predicate Ends(e: Event, i: nat) { e == Deinit || e == Close(i + 1) }

  predicate SameStream(a: Option<Stream>, b: Option<Stream>) {
    a.Some? && b.Some? && a.value.body == b.value.body && a.value.status == b.value.status
    && a.value.owned == b.value.owned
  }

  lemma {:induction false} LiveStays(t: Table, events: seq<Event>, i: nat)
    requires |t.slots| == MAX_STREAMS && i < MAX_STREAMS && t.slots[i].Some?
    requires forall k :: 0 <= k < |events| ==> !Ends(events[k], i)
    ensures SameStream(t.slots[i], Run(t, events).slots[i])
    decreases |events|
  {
    hide Join, CloseFrom;
    if events != [] {
      var t' := Step(t, events[0]);
      assert !Ends(events[0], i);
      assert SameStream(t.slots[i], t'.slots[i]);
      LiveStays(t', events[1..], i);
    }
  }

  predicate OneLive(slots: seq<Option<Stream>>) {
    forall i, j :: 0 <= i < j < |slots| ==> slots[i].None? || slots[j].None?
  }

  /** While a buffer stays lent, only one stream is live at a time. */
  lemma {:induction false} LentMeansOne(t: Table, events: seq<Event>)
    requires |t.slots| == MAX_STREAMS && t.buffer.Some? && OneLive(t.slots)
    requires forall k :: 0 <= k < |events| ==> events[k] != Deinit && events[k] != SetBuffer(None)
    ensures Run(t, events).buffer.Some? && OneLive(Run(t, events).slots)
    decreases |events|
  {
    hide Join, CloseFrom;
    if events != [] {
      var t' := Step(t, events[0]);
      assert events[0] != Deinit && events[0] != SetBuffer(None);
      assert t'.buffer.Some? && OneLive(t'.slots);
      LentMeansOne(t', events[1..]);
    }
  }
}
