/** The aligned allocator on the guest's memory, byte by byte (guest/compact-allocator.zig). */
module CompactAllocator {
  import opened Bytes
  import opened Alignment
  import opened ByteStore
  import A = AlignedAllocator
  import S = SliceAnswers

  /** Copying in ascending order, for a destination at or below its source. */
  method CopyForwards(memory: array<Byte>, dst: nat, src: nat, n: nat)
    requires dst <= src && src + n <= memory.Length
    modifies memory
    ensures memory[..] == Copied(old(memory[..]), dst, src, n)
  {
    ghost var was := memory[..];
    var i := 0;
    while i < n
      invariant i <= n
      invariant forall k :: dst <= k < dst + i ==> memory[k] == was[src + (k - dst)]
      invariant forall k :: 0 <= k < memory.Length && !(dst <= k < dst + i) ==> memory[k] == was[k]
    {
      memory[dst + i] := memory[src + i];
      i := i + 1;
    }
  }

  /** Copying in descending order, for a destination above its source. */
  method CopyBackwards(memory: array<Byte>, dst: nat, src: nat, n: nat)
    requires src <= dst && dst + n <= memory.Length
    modifies memory
    ensures memory[..] == Copied(old(memory[..]), dst, src, n)
  {
    ghost var was := memory[..];
    var i := n;
    while i > 0
      invariant 0 <= i <= n
      invariant forall k :: dst + i <= k < dst + n ==> memory[k] == was[src + (k - dst)]
      invariant forall k :: 0 <= k < memory.Length && !(dst + i <= k < dst + n) ==> memory[k] == was[k]
    {
      i := i - 1;
      memory[dst + i] := memory[src + i];
    }
  }

  method StoreWord(memory: array<Byte>, p: nat, v: nat)
    requires p + A.WORD <= memory.Length && v <= USIZE_MAX
    modifies memory
    ensures memory[..] == A.WriteWord(old(memory[..]), p, v)
  {
    memory[p] := v % 256;
    memory[p + 1] := v / 256 % 256;
    memory[p + 2] := v / 65536 % 256;
    memory[p + 3] := v / 16777216;
  }

  method LoadWord(memory: array<Byte>, p: nat) returns (v: nat)
    requires p + A.WORD <= memory.Length
    ensures v == A.ReadWord(memory[..], p)
  {
    v := memory[p] + 256 * (memory[p + 1] as nat) + 65536 * (memory[p + 2] as nat) + 16777216 * (memory[p + 3] as nat);
  }

  /** Memory as malloc or realloc leaves it. */
  method Adopt(memory: array<Byte>, answered: seq<Byte>)
    requires |answered| == memory.Length
    modifies memory
    ensures memory[..] == answered
  {
    forall i | 0 <= i < memory.Length {
      memory[i] := answered[i];
    }
  }

  /** An answer whose block, with a header and `total` bytes, lies inside memory. */
  ghost predicate Usable(answer: Option<A.Answer>, total: nat, length: nat) {
    answer.Some? ==>
      && |answer.value.mem| == length <= USIZE_MAX
      && total <= answer.value.usable && answer.value.base + answer.value.usable <= length
  }

  method Alloc(memory: array<Byte>, len: nat, align: nat, answer: Option<A.Answer>) returns (result: Option<nat>)
    requires Usable(answer, A.Total(len, align), memory.Length)
    modifies memory
    ensures if A.Total(len, align) > USIZE_MAX || answer == None
            then result == None && memory[..] == old(memory[..])
            else var p := A.Address(answer.value.base, align);
                 result == Some(p) && memory[..] == A.WriteWord(answer.value.mem, p - A.WORD, answer.value.base)
    ensures IsPowerOfTwo(align) && result.Some? ==>
              && S.CanBeAt(answer.value.base, align, result.value)
              && forall p :: S.CanBeAt(answer.value.base, align, p) ==> result.value <= p
  {
    var a := if align > A.WORD then align else A.WORD;
    if len + a + A.WORD > USIZE_MAX || answer == None {
      return None;
    }
    Adopt(memory, answer.value.mem);
    var address := AlignUp(answer.value.base + A.WORD, a);
    StoreWord(memory, address - A.WORD, answer.value.base);
    result := Some(address);
    if IsPowerOfTwo(align) {
      S.AddressIsLeast(answer.value.base, align);
    }
  }

  /** `usable` is fx_usable_size, asked about the base the header names. */
  method Resize(memory: array<Byte>, b: A.Block, newLen: nat, usable: map<nat, nat>) returns (fits: bool)
    requires A.WORD <= b.ptr <= memory.Length && A.Base(memory[..], b) in usable
    requires A.Base(memory[..], b) <= b.ptr <= A.Base(memory[..], b) + usable[A.Base(memory[..], b)]
    ensures fits == A.ResizeFits(memory[..], usable, b, newLen)
  {
    var base := LoadWord(memory, b.ptr - A.WORD);
    fits := newLen <= usable[base] - (b.ptr - base);
  }

  /** The payload is moved in the direction that suits the overlap, and only then is the header written. */
  method Settle(memory: array<Byte>, base: nat, offset: nat, count: nat, ghost align: nat, address: nat)
    requires address == A.Address(base, align) && memory.Length <= USIZE_MAX
    requires address + count <= memory.Length && base + offset + count <= memory.Length
    modifies memory
    ensures memory[..] == A.Settled(old(memory[..]), base, offset, count, align)
  {
    hide A.WriteWord, AlignUp, Copied;
    if address <= base + offset {
      CopyForwards(memory, address, base + offset, count);
    } else {
      CopyBackwards(memory, address, base + offset, count);
    }
    StoreWord(memory, address - A.WORD, base);
  }

  method Remap(memory: array<Byte>, b: A.Block, newLen: nat, answer: Option<A.Answer>) returns (result: Option<nat>)
    requires Usable(answer, A.Total(newLen, b.align), memory.Length)
    requires A.WORD <= b.ptr <= memory.Length
    requires var base := A.Base(memory[..], b); base + A.WORD <= b.ptr < base + A.WORD + A.Effective(b.align)
    modifies memory
    ensures if A.Total(newLen, b.align) > USIZE_MAX || answer == None
            then result == None && memory[..] == old(memory[..])
            else var a := answer.value;
                 && result == Some(A.Address(a.base, b.align))
                 && memory[..] == A.Settled(a.mem, a.base, b.ptr - A.Base(old(memory[..]), b),
                                           Min(b.len, newLen), b.align)
    ensures IsPowerOfTwo(b.align) && result.Some? ==>
              && S.CanBeAt(answer.value.base, b.align, result.value)
              && forall p :: S.CanBeAt(answer.value.base, b.align, p) ==> result.value <= p
  {
    hide A.Settled, AlignUp, A.ReadWord;
    var align := if b.align > A.WORD then b.align else A.WORD;
    if newLen + align + A.WORD > USIZE_MAX {
      return None;
    }
    var offset := LoadWord(memory, b.ptr - A.WORD);
    offset := b.ptr - offset;
    if answer == None {
      return None;
    }
    Adopt(memory, answer.value.mem);
    var base := answer.value.base;
    var count := if b.len < newLen then b.len else newLen;
    var address := AlignUp(base + A.WORD, align);
    Settle(memory, base, offset, count, b.align, address);
    result := Some(address);
    if IsPowerOfTwo(b.align) {
      S.AddressIsLeast(base, b.align);
    }
  }

  /** The base handed to free. */
  method Free(memory: array<Byte>, b: A.Block) returns (base: nat)
    requires A.WORD <= b.ptr <= memory.Length
    ensures base == A.Base(memory[..], b)
  {
    base := LoadWord(memory, b.ptr - A.WORD);
  }
}
