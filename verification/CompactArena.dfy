/** The compact arena on its linked list of nodes (guest/compact-arena.zig). */
module CompactArena {
  import opened Bytes
  import opened Alignment
  import M = ArenaModel
  import R = ByteStore

  class Node {
    const addr: nat
    const totalLen: nat
    var next: Node?
    var used: nat
    var lastStart: nat
    var lastLen: nat

    constructor (addr: nat, totalLen: nat, next: Node?)
      ensures this.addr == addr && this.totalLen == totalLen && this.next == next
      ensures used == 0 && lastStart == 0 && lastLen == 0
    {
      this.addr, this.totalLen, this.next := addr, totalLen, next;
      used, lastStart, lastLen := 0, 0, 0;
    }

    function View(): M.Node
      reads this
    {
      M.Node(addr, totalLen, used, lastStart, lastLen)
    }

    /** Bump allocation inside this node. */
    method AllocateFrom(len: nat, align: nat) returns (result: Option<nat>)
      requires align > 0
      modifies this`used, this`lastStart, this`lastLen
      ensures match M.AllocateFrom(old(View()), len, align)
              case None => result == None && View() == old(View())
              case Some((n, ptr)) => result == Some(ptr) && View() == n
    {
      var data := addr + M.NODE_BYTES;
      var size := if totalLen >= M.NODE_BYTES then totalLen - M.NODE_BYTES else 0;
      var aligned := AlignUp(data + used, align) - data;
      if aligned > size || len > size - aligned {
        return None;
      }
      used := aligned + len;
      lastStart := aligned;
      lastLen := len;
      result := Some(data + aligned);
    }
  }

  ghost function Views(chain: seq<Node>): (v: seq<M.Node>)
    reads chain
    ensures |v| == |chain|
  {
    if chain == [] then [] else [chain[0].View()] + Views(chain[1..])
  }

  class Arena {
    var head: Node?
    ghost var chain: seq<Node>

    /** `chain` is the linked list from `head`, without repetition. */
    ghost predicate Valid()
      reads this, chain`next
    {
      && (forall i, j :: 0 <= i < j < |chain| ==> chain[i] != chain[j])
      && head == Follow(0)
      && (forall i :: 0 <= i < |chain| ==> chain[i].next == Follow(i + 1))
    }

    ghost function Follow(i: nat): Node?
      reads this
    {
      if i < |chain| then chain[i] else null
    }

    ghost function View(): (v: seq<M.Node>)
      reads this, chain
      ensures |v| == |chain|
      ensures chain != [] ==> v == [chain[0].View()] + Views(chain[1..])
    {
      Views(chain)
    }

    constructor ()
      ensures Valid() && chain == [] && View() == []
    {
      head, chain := null, [];
    }

    /** Allocation in the head node, if there is one. */
    method AllocInHead(len: nat, align: nat) returns (result: Option<nat>)
      requires Valid() && align > 0
      modifies chain`used, chain`lastStart, chain`lastLen
      ensures Valid()
      ensures M.HeadFits(old(View()), len, align) ==> (View(), result) == M.Alloc(old(View()), len, align, None)
      ensures !M.HeadFits(old(View()), len, align) ==> result == None && View() == old(View())
    {
      result := None;
      if head != null {
        assert head !in chain[1..];
        result := head.AllocateFrom(len, align);
        assert Views(chain[1..]) == old(Views(chain[1..]));
      }
    }

    method Alloc(len: nat, align: nat, offer: Option<nat>) returns (result: Option<nat>)
      requires Valid() && align > 0
      modifies this, chain`used, chain`lastStart, chain`lastLen
      ensures Valid() && (forall n :: n in chain ==> n in old(chain) || fresh(n))
      ensures (View(), result) == M.Alloc(old(View()), len, align, offer)
    {
      hide M.AllocateFrom;
      result := AllocInHead(len, align);
      if result.Some? {
        return result;
      }
      var required := M.NODE_BYTES + (align - 1) + len;
      if required > USIZE_MAX {
        return None;
      }
      var totalLen := if required > M.NODE_BYTES + M.CHUNK_BYTES then required else M.NODE_BYTES + M.CHUNK_BYTES;
      if offer == None {
        return None;
      }
      result := AllocInNewNode(len, align, offer.value, totalLen);
    }

    /** A node from the child allocator becomes the head and serves the request. */
    method AllocInNewNode(len: nat, align: nat, addr: nat, totalLen: nat) returns (result: Option<nat>)
      requires Valid() && align > 0 && totalLen == M.TotalLen(len, align)
      modifies this
      ensures Valid() && (forall n :: n in chain ==> n in old(chain) || fresh(n))
      ensures var n := M.FreshNode(addr, len, align);
              && M.AllocateFrom(n, len, align).Some?
              && View() == [M.AllocateFrom(n, len, align).value.0] + old(View())
              && result == Some(M.AllocateFrom(n, len, align).value.1)
    {
      hide M.AllocateFrom;
      var node := new Node(addr, totalLen, head);
      ghost var rest := View();
      Push(node);
      M.FreshNodeServes(addr, len, align);
      assert chain[1..] == old(chain);
      result := node.AllocateFrom(len, align);
      assert Views(old(chain)) == rest;
    }

    /** self.head = node */
    method Push(node: Node)
      requires Valid() && node !in chain && node.next == head
      modifies this
      ensures Valid() && chain == [node] + old(chain)
      ensures View() == [node.View()] + old(View())
    {
      ghost var old_chain := chain;
      head := node;
      chain := [node] + chain;
      assert chain[1..] == old_chain;
      assert forall i :: 0 < i < |chain| ==> chain[i] == old_chain[i - 1];
    }

    /** node.used = node.last_start + new_len; node.last_len = new_len */
    method SetLast(newLen: nat)
      requires Valid() && head != null
      modifies chain`used, chain`lastLen
      ensures Valid()
      ensures View() == M.SetLast(old(View()), newLen)
    {
      assert head !in chain[1..];
      head.used := head.lastStart + newLen;
      head.lastLen := newLen;
      assert Views(chain[1..]) == old(Views(chain[1..]));
    }

    method Resize(ptr: nat, len: nat, newLen: nat) returns (done: bool)
      requires Valid()
      modifies chain`used, chain`lastLen
      ensures Valid()
      ensures (View(), done) == M.Resize(old(View()), ptr, len, newLen)
    {
      if newLen <= len {
        if head == null {
          return true;
        }
        if ptr == head.addr + M.NODE_BYTES + head.lastStart && len == head.lastLen {
          SetLast(newLen);
        }
        return true;
      }
      if head == null || ptr != head.addr + M.NODE_BYTES + head.lastStart || len != head.lastLen {
        return false;
      }
      var size := if head.totalLen >= M.NODE_BYTES then head.totalLen - M.NODE_BYTES else 0;
      if head.lastStart > size || newLen > size - head.lastStart {
        return false;
      }
      SetLast(newLen);
      done := true;
    }

    /** The block is resized where it lies, or moved: the answer and the list are those of resize, then of alloc. */
    method Remap(memory: array<Byte>, b: M.Block, newLen: nat, offer: Option<nat>) returns (result: Option<nat>)
      requires Valid() && b.align > 0 && b.ptr + b.len <= memory.Length
      requires var (now, r) := M.Alloc(View(), newLen, b.align, offer); r.Some? ==> r.value + newLen <= memory.Length
      modifies this, chain`used, chain`lastStart, chain`lastLen, memory
      ensures Valid()
      ensures var (resized, done) := M.Resize(old(View()), b.ptr, b.len, newLen);
              var (now, r) := M.Alloc(old(View()), newLen, b.align, offer);
              if done then View() == resized && result == Some(b.ptr) && memory[..] == old(memory[..])
              else && View() == now && result == r
                   && memory[..] == (if r == None then old(memory[..])
                                     else R.Copied(old(memory[..]), r.value, b.ptr, Min(b.len, newLen)))
    {
      ghost var was := View();
      ghost var (resized, grown) := M.Resize(was, b.ptr, b.len, newLen);
      assert !grown ==> resized == was;
      var done := Resize(b.ptr, b.len, newLen);
      if done {
        return Some(b.ptr);
      }
      result := Alloc(newLen, b.align, offer);
      if result == None {
        return None;
      }
      var copyLen := if b.len < newLen then b.len else newLen;
      MoveBytes(memory, result.value, b.ptr, copyLen);
    }

    method Free(ptr: nat, len: nat)
      requires Valid()
      modifies chain`used, chain`lastLen
      ensures Valid()
      ensures View() == M.Free(old(View()), ptr, len)
    {
      if head == null {
        return;
      }
      if ptr != head.addr + M.NODE_BYTES + head.lastStart || len != head.lastLen {
        return;
      }
      SetLast(0);
    }

    method ReservedBytes() returns (total: nat)
      requires Valid()
      ensures total == M.Reserved(View())
    {
      total := 0;
      var current := head;
      ghost var k := 0;
      assert chain[0..] == chain;
      while current != null
        invariant k <= |chain| && current == Follow(k)
        invariant total + M.Reserved(Views(chain[k..])) == M.Reserved(View())
        decreases |chain| - k
      {
        assert chain[k..][0] == current && chain[k..][1..] == chain[k + 1..];
        assert Views(chain[k..])[1..] == Views(chain[k + 1..]);
        total := total + current.totalLen;
        current := current.next;
        k := k + 1;
      }
    }

    /** The blocks handed back to the child allocator: every node once, with its own address and length, head first. */
    method Deinit() returns (returned: seq<(nat, nat)>)
      requires Valid()
      ensures |returned| == |View()|
      ensures forall i :: 0 <= i < |returned| ==> returned[i] == (View()[i].addr, View()[i].total)
    {
      returned := [];
      var current := head;
      while current != null
        invariant |returned| <= |chain|
        invariant current == Follow(|returned|)
        invariant forall i :: 0 <= i < |returned| ==> returned[i] == (View()[i].addr, View()[i].total)
        decreases |chain| - |returned|
      {
        var next := current.next;
        ViewAt(chain, |returned|);
        returned := returned + [(current.addr, current.totalLen)];
        current := next;
      }
    }

    static lemma {:induction false} ViewAt(chain: seq<Node>, i: nat)
      requires i < |chain|
      ensures Views(chain)[i] == chain[i].View()
    {
      if i > 0 {
        ViewAt(chain[1..], i - 1);
      }
    }
  }

  /** memcpy between places that do not overlap. */
  method MoveBytes(memory: array<Byte>, dst: nat, src: nat, n: nat)
    requires dst + n <= memory.Length && src + n <= memory.Length
    modifies memory
    ensures memory[..] == R.Copied(old(memory[..]), dst, src, n)
  {
    forall i | 0 <= i < n {
      memory[dst + i] := memory[src + i];
    }
  }
}
