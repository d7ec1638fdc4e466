/** When a stream is opened, what its reads and its status give, and what closing it frees (fx_wamr_native.c). */
module StreamAnswers {
  import opened Bytes
  import opened StreamModel

  /** Room for a response: the lent buffer, when there is one, or else two MiB. */
  function Capacity(t: Table): nat {
    match t.buffer
    case Some(capacity) => capacity
    case None => 2097152
  }

  predicate Takes(t: Table, i: nat)
    requires |t.slots| == MAX_STREAMS
  {
    i < 4 && t.slots[i].None?
  }

  /**
   * A stream is opened exactly when a slot is free, all are if a buffer is lent, the request succeeds and its body
   * fits; it takes the first free slot, with nothing read yet, and no other slot changes.
   */
  lemma OpenServes(t: Table, chunks: seq<seq<Byte>>, status: nat, succeeds: bool)
    requires |t.slots| == MAX_STREAMS
    ensures var (t', handle) := OpenStep(t, chunks, status, succeeds);
            && (handle == -1 || 1 <= handle <= 4)
            && (handle != -1 <==> && (exists i :: Takes(t, i))
                                  && (t.buffer.Some? ==> forall i :: 0 <= i < 4 ==> Takes(t, i))
                                  && succeeds && |Join(chunks)| <= Capacity(t))
            && (handle == -1 ==> t'.slots == t.slots)
            && (handle != -1 ==>
                  && Takes(t, handle - 1) && (forall i :: Takes(t, i) ==> handle - 1 <= i)
                  && t'.slots[handle - 1].Some?
                  && (var s := t'.slots[handle - 1].value;
                      && s.body == Join(chunks) && s.status == status && s.cursor == 0
                      && (s.owned.None? <==> t.buffer.Some?))
                  && forall i :: 0 <= i < 4 && i != handle - 1 ==> t'.slots[i] == t.slots[i])
            && t'.buffer == t.buffer
  {
    hide Join;
    var slot := FreeFrom(t.slots, 0);
    if slot < 4 {
      assert Takes(t, slot);
    }
    if t.buffer.Some? && !Idle(t.slots) {
      var i :| 0 <= i < 4 && t.slots[i].Some?;
      assert !Takes(t, i);
    }
  }

  /** Lending a buffer, or taking it back, decides what the next stream has room for, and ends none. */
  lemma LendingServes(t: Table, buffer: Option<nat>)
    requires |t.slots| == MAX_STREAMS
    ensures var t' := Step(t, SetBuffer(buffer));
            && Capacity(t') == (if buffer.Some? then buffer.value else 2097152)
            && t'.slots == t.slots && t'.freed == t.freed
            && Capacity(Step(t', Deinit)) == 2097152
  {
  }

  // ---- reading ----

  /** A read gives as much of what is left as there is room for, and the next goes on behind it. */
  lemma NextServes(t: Table, log: Log, handle: int, cap: nat)
    requires AllAgree(t, log)
    ensures var (t', r) := NextStep(t, handle, cap);
            if !ValidHandle(handle) || t.slots[handle - 1].None? then r == None && t' == t
            else
              var sent, heard := log.sent[handle - 1], log.heard[handle - 1];
              var end := Min(|heard| + cap, |sent|);
              && |heard| <= end && r == Some(sent[|heard|..end])
              && LogStep(t, log, Next(handle, cap)) == log.(heard := log.heard[handle - 1 := sent[..end]])
              && (forall i :: 0 <= i < 4 && i != handle - 1 ==> t'.slots[i] == t.slots[i])
              && t'.slots[handle - 1].Some?
  {
    if ValidHandle(handle) && t.slots[handle - 1].Some? {
      var s := t.slots[handle - 1].value;
      assert Agrees(t.slots[handle - 1], log.sent[handle - 1], log.heard[handle - 1], log.status[handle - 1]);
      ReadOn(s.body, s.cursor, s.cursor + Min(|s.body| - s.cursor, cap));
    }
  }

  function Sum(caps: seq<nat>): nat {
    if caps == [] then 0 else caps[0] + Sum(caps[1..])
  }

  /** One read after another from the same stream. */
  function Reads(handle: int, caps: seq<nat>): (events: seq<Event>)
    ensures |events| == |caps|
  {
    seq(|caps|, i requires 0 <= i < |caps| => Next(handle, caps[i]))
  }

  /** Reading with enough room in all gives the whole body, and with less as much of it as there was room for. */
  lemma {:induction false} ReadsGiveTheBody(t: Table, log: Log, handle: int, caps: seq<nat>)
    requires AllAgree(t, log) && ValidHandle(handle) && t.slots[handle - 1].Some?
    ensures var sent, heard := log.sent[handle - 1], log.heard[handle - 1];
            LogRun(t, log, Reads(handle, caps)).heard[handle - 1] == sent[..Min(|heard| + Sum(caps), |sent|)]
    decreases |caps|
  {
    hide Agrees, NextStep, Step, LogStep;
    var sent, heard := log.sent[handle - 1], log.heard[handle - 1];
    if caps == [] {
      HeardIsFront(t, log, handle);
    } else {
      var e := Next(handle, caps[0]);
      NextServes(t, log, handle, caps[0]);
      StepAgrees(t, log, e);
      assert Reads(handle, caps)[0] == e && Reads(handle, caps)[1..] == Reads(handle, caps[1..]);
      StepIsNext(t, handle, caps[0]);
      var end := Min(|heard| + caps[0], |sent|);
      assert LogStep(t, log, e).heard[handle - 1] == sent[..end];
      ReadsGiveTheBody(Step(t, e), LogStep(t, log, e), handle, caps[1..]);
    }
  }

  lemma StepIsNext(t: Table, handle: int, cap: nat)
    requires |t.slots| == MAX_STREAMS
    ensures Step(t, Next(handle, cap)) == NextStep(t, handle, cap).0
  {
  }

  lemma HeardIsFront(t: Table, log: Log, handle: int)
    requires AllAgree(t, log) && ValidHandle(handle)
    ensures |log.heard[handle - 1]| <= |log.sent[handle - 1]|
    ensures log.heard[handle - 1] == log.sent[handle - 1][..|log.heard[handle - 1]|]
  {
    assert Agrees(t.slots[handle - 1], log.sent[handle - 1], log.heard[handle - 1], log.status[handle - 1]);
  }

  /** The status of an open stream is the one its request came back with; a handle that is not open has none. */
  lemma StatusIsSent(t: Table, log: Log, handle: int)
    requires AllAgree(t, log)
    ensures StatusOf(t, handle)
         == if ValidHandle(handle) && t.slots[handle - 1].Some? then Some(log.status[handle - 1]) else None
  {
    if ValidHandle(handle) {
      assert Agrees(t.slots[handle - 1], log.sent[handle - 1], log.heard[handle - 1], log.status[handle - 1]);
    }
  }

  // ---- closing ----

  /** A closed stream has no status and no bytes; its slot can be had again, and its own buffer is given back. */
  lemma CloseServes(t: Table, handle: int, cap: nat)
    requires |t.slots| == MAX_STREAMS
    ensures var t' := Step(t, Close(handle));
            && StatusOf(t', handle) == None && NextStep(t', handle, cap) == (t', None)
            && (ValidHandle(handle) ==> Takes(t', handle - 1))
            && (forall i :: 0 <= i < 4 && i != handle - 1 ==> t'.slots[i] == t.slots[i])
            && t'.buffer == t.buffer
            && Step(t', Close(handle)) == t'
            && t'.freed == t.freed + if ValidHandle(handle) then Released(t.slots[handle - 1]) else multiset{}
  {
    var t' := Step(t, Close(handle));
    assert t.freed + multiset{} == t.freed && t'.freed + multiset{} == t'.freed;
    if ValidHandle(handle) {
      assert t'.slots[handle - 1 := None] == t'.slots;
    }
  }
}
