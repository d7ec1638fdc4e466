/** What the aligned allocator grants, and where: alignment, room and refusals (guest/compact-allocator.zig). */
module SliceAnswers {
  import opened Bytes
  import opened Alignment
  import opened AlignedAllocator

  /** The alignment that is asked for divides the one a slice is given, and so does a word's. */
  lemma AlignmentServed(align: nat)
    requires IsPowerOfTwo(align)
    ensures align > 0 && Effective(align) % align == 0 && Effective(align) % WORD == 0
  {
    PowersOfTwo(align);
    if align > WORD {
      ModOfMultiple(1, align);
    }
  }

  /** An address a slice could have in a block at `base`: aligned as asked, and behind a word-aligned header. */
  predicate CanBeAt(base: nat, align: nat, p: nat)
    requires align > 0
  {
    base + WORD <= p && p % align == 0 && p % WORD == 0
  }

  /** The address a slice gets is the least it could have. */
  lemma AddressIsLeast(base: nat, align: nat)
    requires IsPowerOfTwo(align)
    ensures CanBeAt(base, align, Address(base, align))
    ensures forall p :: CanBeAt(base, align, p) ==> Address(base, align) <= p
  {
    var e, p := Effective(align), Address(base, align);
    AlignmentServed(align);
    AlignUpIsAligned(base + WORD, e);
    MultipleOfMultiple(p, e, align);
    MultipleOfMultiple(p, e, WORD);
    forall q | CanBeAt(base, align, q) ensures p <= q {
      AlignUpIsLeast(base + WORD, e, q);
    }
  }

  /** Every slice has the alignment that was asked for, and its header that of a word, in every safe state. */
  lemma SlicesAreAligned(s: State, id: nat)
    requires Safe(s) && id in s.live && IsPowerOfTwo(s.live[id].align)
    ensures s.live[id].ptr % s.live[id].align == 0 && (s.live[id].ptr - WORD) % WORD == 0
  {
    hide Safe, Effective, IsPowerOfTwo;
    var b := s.live[id];
    BlockAligned(s, id);
    AlignmentServed(b.align);
    MultipleOfMultiple(b.ptr, Effective(b.align), b.align);
    MultipleOfMultiple(b.ptr, Effective(b.align), WORD);
  }

  lemma BlockAligned(s: State, id: nat)
    requires Safe(s) && id in s.live
    ensures WORD <= s.live[id].ptr && s.live[id].ptr % Effective(s.live[id].align) == 0
  {
    assert BlockOk(s.mem, s.heap, s.live[id]);
  }

  lemma {:induction false} RunSlicesAreAligned(s: State, events: seq<Event>, id: nat)
    requires Safe(s) && IsRun(s, events) && id in Run(s, events).live && IsPowerOfTwo(Run(s, events).live[id].align)
    ensures Run(s, events).live[id].ptr % Run(s, events).live[id].align == 0
  {
    hide Safe, IsRun, Run;
    SlicesAreAligned(Run(s, events), id);
  }

  /** The bytes malloc is asked for when there is a slice to place: room for a header and any shift to an alignment. */
  predicate Askable(len: nat, align: nat) {
    len + (if align > 4 then align else 4) + 4 <= 0xffff_ffff
  }

  /** alloc is refused only by malloc or the address space, and otherwise gives a slice as asked for. */
  lemma AllocGrants(s: State, id: nat, len: nat, align: nat, answer: Option<Answer>)
    requires Safe(s) && Allowed(s, DoAlloc(id, len, align, answer)) && IsPowerOfTwo(align)
    ensures var t := Step(s, DoAlloc(id, len, align, answer));
            if !Askable(len, align) || answer == None then t == s
            else && id in t.live && t.live[id].len == len && t.live[id].ptr % align == 0
                 && CanBeAt(answer.value.base, align, t.live[id].ptr)
                 && (forall p :: CanBeAt(answer.value.base, align, p) ==> t.live[id].ptr <= p)
                 && Base(t.mem, t.live[id]) == answer.value.base
                 && t.heap == s.heap[answer.value.base := answer.value.usable]
                 && forall j :: j in s.live ==> j in t.live && t.live[j] == s.live[j]
  {
    hide HeapOk, FreshRange, AgreeBut, Address, ReadWord, WriteWord, BlockOk;
    if answer.Some? {
      var a := answer.value;
      AddressIsLeast(a.base, align);
      AgreeLength(s.heap, s.mem, a.mem, None);
      SafeBound(s);
      if Total(len, align) <= USIZE_MAX {
        Placing(a.mem, a.base, a.usable, len, align);
      }
    }
  }

  /** remap is refused only by realloc or the address space, and otherwise keeps the alignment. */
  lemma RemapGrants(s: State, id: nat, newLen: nat, answer: Option<Answer>)
    requires Safe(s) && Allowed(s, DoRemap(id, newLen, answer)) && IsPowerOfTwo(s.live[id].align)
    ensures var t := Step(s, DoRemap(id, newLen, answer)); var align := s.live[id].align;
            if !Askable(newLen, align) || answer == None then t == s
            else && id in t.live && t.live[id].len == newLen && t.live[id].align == align
                 && CanBeAt(answer.value.base, align, t.live[id].ptr)
                 && forall p :: CanBeAt(answer.value.base, align, p) ==> t.live[id].ptr <= p
  {
    hide Safe, HeapOk, SameBlocksBut, Address, ReallocOk, Settled;
    if answer.Some? {
      AddressIsLeast(answer.value.base, s.live[id].align);
    }
  }

  /** resize is granted exactly when the slice, so resized, still ends inside its malloc block; shrinking always is. */
  lemma ResizeGrants(s: State, id: nat, newLen: nat)
    requires Safe(s) && id in s.live
    ensures var t := Step(s, DoResize(id, newLen)); var b := s.live[id];
            && (SafeBase(s, id);
                if b.ptr + newLen <= Base(s.mem, b) + s.heap[Base(s.mem, b)]
                then t == s.(live := s.live[id := b.(len := newLen)])
                else t == s && newLen > b.len)
  {
    hide HeapOk, Base;
    SafeBase(s, id);
    BlockInside(s, id);
  }
}
