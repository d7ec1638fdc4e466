/** Opcode replacements kept beside immutable code (guest/wamr-readonly.patch, lines 39-59, 80-97 and 216-230). */
module BytecodeOverlay {
  import opened Bytes

  datatype Patch = Patch(addr: nat, opcode: Byte)

  /** The replacement in force at an address: the first one in the list, which is the last one added. */
  function Resolve(patches: seq<Patch>, addr: nat, opcode: Byte): Byte {
    if patches == [] then opcode
    else if patches[0].addr == addr then patches[0].opcode
    else Resolve(patches[1..], addr, opcode)
  }

  /** Adding patches in order puts each in front of the list. */
  function AddAll(patches: seq<Patch>, added: seq<Patch>): seq<Patch>
    decreases |added|
  {
    if added == [] then patches else AddAll([added[0]] + patches, added[1..])
  }

  /** The same replacements written into the code, in order. */
  function WriteAll(code: seq<Byte>, added: seq<Patch>): (r: seq<Byte>)
    requires forall i :: 0 <= i < |added| ==> added[i].addr < |code|
    ensures |r| == |code|
    decreases |added|
  {
    if added == [] then code
    else
      var first: seq<Byte> := code[added[0].addr := added[0].opcode];
      WriteAll(first, added[1..])
  }

  /** At every address, looking a byte up through the list gives what writing in place would have put there. */
  lemma {:induction false} OverlayReadsAsWritten(code: seq<Byte>, added: seq<Patch>, addr: nat)
    requires (forall i :: 0 <= i < |added| ==> added[i].addr < |code|) && addr < |code|
    ensures Resolve(AddAll([], added), addr, code[addr]) == WriteAll(code, added)[addr]
  {
    OverlayFrom(code, code, [], added, addr);
  }

  lemma {:induction false} OverlayFrom(code: seq<Byte>, now: seq<Byte>,
    patches: seq<Patch>, added: seq<Patch>, addr: nat)
    requires (forall i :: 0 <= i < |added| ==> added[i].addr < |now|) && addr < |code| == |now|
    requires Resolve(patches, addr, code[addr]) == now[addr]
    ensures Resolve(AddAll(patches, added), addr, code[addr]) == WriteAll(now, added)[addr]
    decreases |added|
  {
    if added != [] {
      var front := [added[0]] + patches;
      assert front[1..] == patches;
      OverlayFrom(code, now[added[0].addr := added[0].opcode], front, added[1..], addr);
    }
  }

  // ---- the linked list ----

  class PatchNode {
    const addr: nat
    const opcode: Byte
    const next: PatchNode?
    ghost const list: seq<Patch>  // this patch and all behind it

    ghost predicate Valid()
      decreases |list|
    {
      && list != [] && list[0] == Patch(addr, opcode)
      && (if next == null then |list| == 1 else next.list == list[1..] && next.Valid())
    }

    constructor (addr: nat, opcode: Byte, next: PatchNode?)
      requires next != null ==> next.Valid()
      ensures Valid() && list == [Patch(addr, opcode)] + (if next == null then [] else next.list)
    {
      this.addr, this.opcode, this.next := addr, opcode, next;
      this.list := [Patch(addr, opcode)] + (if next == null then [] else next.list);
    }
  }

  class WasmFunction {
    var bytecodePatches: PatchNode?

    ghost predicate Valid()
      reads this
    {
      bytecodePatches != null ==> bytecodePatches.Valid()
    }

    ghost function Patches(): seq<Patch>
      reads this
    {
      if bytecodePatches == null then [] else bytecodePatches.list
    }

    constructor ()
      ensures Valid() && Patches() == []
    {
      bytecodePatches := null;
    }

    /** `room` is whether the loader's allocator has a node to give. */
    method AddBytecodePatch(addr: nat, opcode: Byte, room: bool) returns (ok: bool)
      requires Valid()
      modifies this
      ensures Valid() && ok == room
      ensures Patches() == if ok then [Patch(addr, opcode)] + old(Patches()) else old(Patches())
    {
      if !room {
        return false;
      }
      bytecodePatches := new PatchNode(addr, opcode, bytecodePatches);
      ok := true;
    }

    method ResolveBytecodeOpcode(addr: nat, opcode: Byte) returns (resolved: Byte)
      requires Valid()
      ensures resolved == Resolve(Patches(), addr, opcode)
    {
      var patch := bytecodePatches;
      while patch != null
        invariant patch != null ==> patch.Valid()
        invariant Resolve(if patch == null then [] else patch.list, addr, opcode) == Resolve(Patches(), addr, opcode)
        decreases if patch == null then 0 else |patch.list|
      {
        if patch.addr == addr {
          return patch.opcode;
        }
        assert patch.next == null ==> patch.list[1..] == [];
        patch := patch.next;
      }
      resolved := opcode;
    }

    /** Unloading gives back one node after another, each the head of a shorter tail, so none twice and none left. */
    method FreePatches() returns (freed: seq<PatchNode>)
      requires Valid()
      ensures |freed| == |Patches()|
      ensures forall i :: 0 <= i < |freed| ==> freed[i].list == Patches()[i..]
    {
      freed := [];
      var patch := bytecodePatches;
      while patch != null
        invariant patch != null ==> patch.Valid()
        invariant |freed| <= |Patches()|
        invariant Patches()[|freed|..] == if patch == null then [] else patch.list
        invariant forall i :: 0 <= i < |freed| ==> freed[i].list == Patches()[i..]
        decreases if patch == null then 0 else |patch.list|
      {
        var next := patch.next;
        assert patch.next == null ==> patch.list[1..] == [];
        assert Patches()[|freed| + 1..] == Patches()[|freed|..][1..];
        freed := freed + [patch];
        patch := next;
      }
    }
  }

  /** PATCH_OPCODE: beside the code when it is read-only, into the code otherwise. */
  method PatchOpcode(readonly: bool, func: WasmFunction, code: array<Byte>, addr: nat, opcode: Byte, room: bool)
    returns (ok: bool)
    requires func.Valid() && addr < code.Length
    modifies if readonly then {func as object} else {code as object}
    ensures func.Valid()
    ensures readonly ==> code[..] == old(code[..]) && ok == room
                         && func.Patches() == (if ok then AddAll(old(func.Patches()), [Patch(addr, opcode)])
                                              else old(func.Patches()))
    ensures !readonly ==> ok && func.Patches() == old(func.Patches())
                          && code[..] == WriteAll(old(code[..]), [Patch(addr, opcode)])
  {
    assert [Patch(addr, opcode)][1..] == [];
    if readonly {
      ok := func.AddBytecodePatch(addr, opcode, room);
    } else {
      code[addr] := opcode;
      ok := true;
    }
  }
}
