/**
 * Executing from immutable code with the overlay is executing from rewritten code
 * (guest/wamr-readonly.patch, interpreter and loader hunks). What an opcode does is left abstract.
 */
module OverlayMachine {
  import opened Bytes
  import opened Leb128
  import opened TableLoader
  import opened BytecodeOverlay

  /** Where an instruction leaves the machine: behind itself, at an address, or stopped. */
  datatype Next<+D> = Fall(d: D) | Goto(d: D, target: nat) | Halt(d: D)

  /**
   * The parts of the interpreter the patch does not change, over an arbitrary machine state `D`: how many
   * immediate bytes an opcode takes, what it does with them at its address, popping the index of a br_table, and
   * branching to a depth from an address. `cacheOp` is the opcode of br_tables whose depths are cached.
   */
  datatype Machine<!D> = Machine(
    cacheOp: Byte,
    width: (Byte, seq<Byte>) -> nat,
    exec: (nat, Byte, seq<Byte>, D) -> Next<D>,
    pop: D -> (nat, D),
    branch: (nat, nat, D) -> Next<D>)

  datatype State<+D> = Running(ip: nat, d: D) | Stopped(d: D) | Stuck

  function After<D>(n: Next<D>, behind: nat): State<D> {
    match n
    case Fall(d) => Running(behind, d)
    case Goto(d, target) => Running(target, d)
    case Halt(d) => Stopped(d)
  }

  function CacheAt(caches: seq<BrTableCache>, addr: nat): Option<seq<nat>> {
    if caches == [] then None
    else if caches[0].opAddr == addr then Some(caches[0].depths)
    else CacheAt(caches[1..], addr)
  }

  /** An ordinary instruction: its opcode as resolved, its immediates from the code bytes behind it. */
  function Plain<D>(m: Machine<D>, code: seq<Byte>, ip: nat, op: Byte, d: D): State<D>
    requires ip < |code|
  {
    var n := m.width(op, code[ip + 1..]);
    if ip + 1 + n > |code| then Stuck else After(m.exec(ip, op, code[ip + 1..ip + 1 + n], d), ip + 1 + n)
  }

  /** One step from immutable code: opcodes through the patch list, br_table depths decoded on the spot. */
  function ReadonlyStep<D>(m: Machine<D>, code: seq<Byte>, patches: seq<Patch>, s: State<D>): State<D> {
    if !s.Running? then s
    else if s.ip >= |code| then Stuck
    else
      var op := Resolve(patches, s.ip, code[s.ip]);
      if op == WASM_OP_BR_TABLE then
        match ReadLeb(code, s.ip + 1)
        case None => Stuck
        case Some((count, p)) =>
          var (index, d) := m.pop(s.d);
          (match DecodeNth(code, p, if index > count then count else index)
           case None => Stuck
           case Some(depth) => After(m.branch(s.ip, depth, d), s.ip))
      else if op == m.cacheOp then Stuck
      else Plain(m, code, s.ip, op, s.d)
  }

  /** One step from rewritten code: opcodes as they stand, depths as bytes or from the cache. */
  function RewrittenStep<D>(m: Machine<D>, code: seq<Byte>, caches: seq<BrTableCache>, s: State<D>): State<D> {
    if !s.Running? then s
    else if s.ip >= |code| then Stuck
    else
      var op := code[s.ip];
      if op == WASM_OP_BR_TABLE then
        match ReadLeb(code, s.ip + 1)
        case None => Stuck
        case Some((count, p)) =>
          var (index, d) := m.pop(s.d);
          var at := p + if index > count then count else index;
          if at >= |code| then Stuck else After(m.branch(s.ip, code[at], d), s.ip)
      else if op == m.cacheOp then
        match CacheAt(caches, s.ip)
        case None => Stuck
        case Some(depths) =>
          var (index, d) := m.pop(s.d);
          if depths == [] then Stuck
          else After(m.branch(s.ip, depths[if index > |depths| - 1 then |depths| - 1 else index], d), s.ip)
      else Plain(m, code, s.ip, op, s.d)
  }

  // ---- a validated function, as loaded either way ----

  /** An instruction, with the replacements the loader makes for its opcode, in order. */
  datatype Instr =
    | Op(op: Byte, imm: seq<Byte>, patches: seq<Byte>)
    | BrTable(table: Table)

  function Show(i: Instr): (s: seq<Byte>)
    ensures s != []
  {
    match i
    case Op(op, imm, _) => [op] + imm
    case BrTable(t) => [WASM_OP_BR_TABLE] + (t.count + Join(t.depths))
  }

  function LastOf(op: Byte, ops: seq<Byte>): Byte {
    if ops == [] then op else ops[|ops| - 1]
  }

  function FinalOp(i: Instr): Byte
    requires i.Op?
  {
    LastOf(i.op, i.patches)
  }

  /** The bytes of an instruction after the loader rewrote it in place. */
  function Rewritten<D>(m: Machine<D>, i: Instr): (s: seq<Byte>)
    requires i.BrTable? ==> TableOk(i.table)
    ensures |s| == |Show(i)|
  {
    match i
    case Op(_, imm, _) => [FinalOp(i)] + imm
    case BrTable(t) => [PreparedOpcode(t, m.cacheOp)] + (t.count + CompactBytes(t))
  }

  predicate Reserved<D>(m: Machine<D>, op: Byte) { op == WASM_OP_BR_TABLE || op == m.cacheOp }

  /**
   * An instruction the loader accepts besides well-formed tables: it and its replacements are neither kind of
   * br_table, and take the immediates that are there, whatever bytes come after.
   */
  ghost predicate InstrOk<D(!new)>(m: Machine<D>, i: Instr)
    requires i.Op?
  {
    && !Reserved(m, i.op) && (forall k :: 0 <= k < |i.patches| ==> !Reserved(m, i.patches[k]))
    && forall after: seq<Byte> :: m.width(FinalOp(i), i.imm + after) == |i.imm|
  }

  predicate TablesOk(program: seq<Instr>) {
    forall i :: 0 <= i < |program| && program[i].BrTable? ==> TableOk(program[i].table)
  }

  ghost predicate ProgramOk<D(!new)>(m: Machine<D>, program: seq<Instr>) {
    && m.cacheOp != WASM_OP_BR_TABLE && TablesOk(program)
    && forall i :: 0 <= i < |program| && program[i].Op? ==> InstrOk(m, program[i])
  }

  function Code(program: seq<Instr>): seq<Byte> {
    if program == [] then [] else Show(program[0]) + Code(program[1..])
  }

  /** The opcode addresses: where each instruction starts when the first one starts at `base`. */
  function Boundary(program: seq<Instr>, base: nat, i: nat): nat
    requires i <= |program|
  {
    if i == 0 then base else Boundary(program[1..], base + |Show(program[0])|, i - 1)
  }

  function RewrittenCode<D>(m: Machine<D>, program: seq<Instr>): (s: seq<Byte>)
    requires TablesOk(program)
    ensures |s| == |Code(program)|
  {
    if program == [] then [] else Rewritten(m, program[0]) + RewrittenCode(m, program[1..])
  }

  function PatchesAt(base: nat, ops: seq<Byte>): seq<Patch> {
    if ops == [] then [] else [Patch(base, ops[0])] + PatchesAt(base, ops[1..])
  }

  function InstrPatches(i: Instr, addr: nat): seq<Patch> {
    if i.Op? then PatchesAt(addr, i.patches) else []
  }

  function InstrCaches(i: Instr, addr: nat): seq<BrTableCache>
    requires i.BrTable? ==> TableOk(i.table)
  {
    if i.BrTable? && !Small(i.table) then [BrTableCache(addr, Depths(i.table))] else []
  }

  /** All replacements, in the order the loader makes them. */
  function AllPatches(program: seq<Instr>, base: nat): seq<Patch> {
    if program == [] then []
    else InstrPatches(program[0], base) + AllPatches(program[1..], base + |Show(program[0])|)
  }

  function AllCaches(program: seq<Instr>, base: nat): seq<BrTableCache>
    requires TablesOk(program)
  {
    if program == [] then []
    else InstrCaches(program[0], base) + AllCaches(program[1..], base + |Show(program[0])|)
  }

  // ---- looking things up by address ----

  lemma {:induction false} BoundaryFrom(program: seq<Instr>, base: nat, i: nat)
    requires i <= |program|
    ensures base <= Boundary(program, base, i)
    ensures i > 0 ==> base < Boundary(program, base, i)
    decreases i
  {
    if i > 0 {
      BoundaryFrom(program[1..], base + |Show(program[0])|, i - 1);
    }
  }

  lemma CodeUnfolds<D>(m: Machine<D>, program: seq<Instr>)
    requires TablesOk(program) && program != []
    ensures TablesOk(program[1..])
    ensures Code(program) == Show(program[0]) + Code(program[1..])
    ensures RewrittenCode(m, program) == Rewritten(m, program[0]) + RewrittenCode(m, program[1..])
    ensures |Rewritten(m, program[0])| == |Show(program[0])|
    ensures Holds(Code(program), 0, Show(program[0]))
    ensures Holds(RewrittenCode(m, program), 0, Rewritten(m, program[0]))
  {
    hide Show, Rewritten, TableOk, Holds;
    TablesOkTail(program);
    HoldsThree([], Show(program[0]), Code(program[1..]));
    HoldsThree([], Rewritten(m, program[0]), RewrittenCode(m, program[1..]));
    assert [] + Show(program[0]) + Code(program[1..]) == Code(program);
    assert [] + Rewritten(m, program[0]) + RewrittenCode(m, program[1..]) == RewrittenCode(m, program);
  }

  lemma BoundaryUnfolds(program: seq<Instr>, base: nat, i: nat)
    requires i <= |program|
    ensures i == 0 ==> Boundary(program, base, i) == base
    ensures i > 0 ==> Boundary(program, base, i) == Boundary(program[1..], base + |Show(program[0])|, i - 1)
    ensures i > 0 && i < |program| ==> program[i] == program[1..][i - 1]
  {
  }

  /** The instruction at a boundary: its own bytes, in the code as it is and in the code as rewritten. */
  lemma {:induction false} InstrAt<D>(m: Machine<D>, program: seq<Instr>, base: nat, i: nat)
    requires TablesOk(program) && i < |program|
    ensures base <= Boundary(program, base, i)
    ensures Holds(Code(program), Boundary(program, base, i) - base, Show(program[i]))
    ensures Holds(RewrittenCode(m, program), Boundary(program, base, i) - base, Rewritten(m, program[i]))
    decreases i
  {
    hide *;
    TableAt(program, 0);
    TableAt(program, i);
    CodeUnfolds(m, program);
    BoundaryUnfolds(program, base, i);
    if i > 0 {
      var head, head' := Show(program[0]), Rewritten(m, program[0]);
      InstrAt(m, program[1..], base + |head|, i - 1);
      var k := Boundary(program, base, i) - base - |head|;
      HoldsBehind(head, Code(program[1..]), k, Show(program[i]));
      HoldsBehind(head', RewrittenCode(m, program[1..]), k, Rewritten(m, program[i]));
    }
  }

  lemma TableAt(program: seq<Instr>, i: nat)
    requires TablesOk(program) && i < |program|
    ensures program[i].BrTable? ==> TableOk(program[i].table)
  {
    hide TableOk;
  }

  lemma TablesOkTail(program: seq<Instr>)
    requires TablesOk(program) && program != []
    ensures TablesOk(program[1..])
  {
    hide TableOk;
  }

  lemma HoldsBehind(head: seq<Byte>, rest: seq<Byte>, k: nat, part: seq<Byte>)
    requires Holds(rest, k, part)
    ensures Holds(head + rest, |head| + k, part)
  {
    assert (head + rest)[|head| + k..|head| + k + |part|] == rest[k..k + |part|];
  }

  // ---- the loader, both ways ----

  lemma {:induction false} AddAllAppend(patches: seq<Patch>, a: seq<Patch>, b: seq<Patch>)
    ensures AddAll(patches, a + b) == AddAll(AddAll(patches, a), b)
    decreases |a|
  {
    if a == [] {
      assert a + b == b;
    } else {
      assert (a + b)[1..] == a[1..] + b;
      AddAllAppend([a[0]] + patches, a[1..], b);
    }
  }

  function Splice(code: seq<Byte>, p: nat, part: seq<Byte>): seq<Byte>
    requires p + |part| <= |code|
  {
    code[..p] + part + code[p + |part|..]
  }

  /** Replacing an opcode over and over leaves the last replacement, and only that byte changed. */
  lemma {:induction false} WritesAtOpcode(code: seq<Byte>, base: nat, ops: seq<Byte>)
    requires base < |code|
    ensures forall k :: 0 <= k < |PatchesAt(base, ops)| ==> PatchesAt(base, ops)[k].addr == base
    ensures WriteAll(code, PatchesAt(base, ops)) == code[base := LastOf(code[base], ops)]
    decreases |ops|
  {
    if ops != [] {
      var now: seq<Byte> := code[base := ops[0]];
      WritesAtOpcode(now, base, ops[1..]);
      assert PatchesAt(base, ops)[1..] == PatchesAt(base, ops[1..]);
    }
  }

  lemma SplicedBy(code: seq<Byte>, was: seq<Byte>, p: nat, first: Byte, mid: seq<Byte>, last: seq<Byte>)
    requires |code| == |was| && Holds(was, p + 1, mid) && Holds(code, p + 1 + |mid|, last) && code[p] == first
    requires forall k :: 0 <= k < |code| && (k < p + 1 + |mid| || p + 1 + |mid| + |last| <= k) && k != p
                         ==> code[k] == was[k]
    ensures code == Splice(was, p, [first] + (mid + last))
  {
    hide Holds;
    var begin := p + 1 + |mid|;
    HoldsIndex(was, p + 1, mid);
    HoldsIndex(code, begin, last);
    var part := [first] + (mid + last);
    var now := Splice(was, p, part);
    assert |now| == |code|;
    forall k | 0 <= k < |code| ensures code[k] == now[k] {
      assert now[k] == if p <= k < p + |part| then part[k - p] else was[k];
      if p < k < begin {
        assert was[(p + 1) + (k - p - 1)] == mid[k - p - 1] == part[k - p];
      } else if begin <= k < begin + |last| {
        assert code[begin + (k - begin)] == last[k - begin] == part[k - p];
      }
    }
  }

  /** Prepared code is the code with the table's bytes exchanged. */
  lemma PreparedIsSpliced<D>(m: Machine<D>, code: seq<Byte>, was: seq<Byte>, p: nat, t: Table)
    requires TableOk(t) && Holds(was, p, Show(BrTable(t)))
    requires PreparedCode(code, was, p, p + 1 + |t.count|, t, m.cacheOp)
    ensures p + |Show(BrTable(t))| <= |was|
    ensures code == Splice(was, p, Rewritten(m, BrTable(t)))
  {
    hide Join, IsLeb, LebValue, CompactBytes, Holds, Splice;
    TableParts(was, p, t);
    SplicedBy(code, was, p, PreparedOpcode(t, m.cacheOp), t.count, CompactBytes(t));
  }

  lemma TableParts(code: seq<Byte>, p: nat, t: Table)
    requires Holds(code, p, Show(BrTable(t)))
    ensures p + |Show(BrTable(t))| <= |code| && code[p] == WASM_OP_BR_TABLE
    ensures Holds(code, p + 1, t.count) && Holds(code, p + 1 + |t.count|, Join(t.depths))
  {
    hide Join;
    HoldsIndex(code, p, Show(BrTable(t)));
    assert code[p + 0] == Show(BrTable(t))[0];
    HoldsSplit(code, p, [WASM_OP_BR_TABLE], t.count + Join(t.depths));
    HoldsSplit(code, p + 1, t.count, Join(t.depths));
  }

  lemma OpParts(code: seq<Byte>, p: nat, op: Byte, imm: seq<Byte>)
    requires Holds(code, p, [op] + imm)
    ensures p + 1 + |imm| <= |code| && code[p] == op && code[p + 1..p + 1 + |imm|] == imm
  {
    HoldsIndex(code, p, [op] + imm);
    assert code[p + 0] == op;
    HoldsSplit(code, p, [op], imm);
  }

  lemma OpcodeTurn(code: seq<Byte>, patches: seq<Patch>, addr: nat, ops: seq<Byte>, k: nat)
    requires k < |ops| && addr < |code|
    ensures AddAll(patches, PatchesAt(addr, ops[k..]))
         == AddAll(AddAll(patches, [Patch(addr, ops[k])]), PatchesAt(addr, ops[k + 1..]))
    ensures WriteAll(code, [Patch(addr, ops[k])]) == code[addr := ops[k]]
  {
    assert ops[k..][1..] == ops[k + 1..];
    assert PatchesAt(addr, ops[k..])[1..] == PatchesAt(addr, ops[k + 1..]);
    assert [Patch(addr, ops[k])][1..] == [];
  }

  /** Replacing one opcode, either way, as often as the loader does. */
  method LoadOpcode(readonly: bool, ops: seq<Byte>, func: WasmFunction, code: array<Byte>, addr: nat)
    requires func.Valid() && addr < code.Length
    modifies func, code
    ensures func.Valid()
    ensures readonly ==> code[..] == old(code[..])
                         && func.Patches() == AddAll(old(func.Patches()), PatchesAt(addr, ops))
    ensures !readonly ==> func.Patches() == old(func.Patches())
                          && code[..] == old(code[..])[addr := LastOf(old(code[addr]), ops)]
  {
    hide AddAll, WriteAll;
    ghost var was, before := code[..], func.Patches();
    var k := 0;
    assert ops[0..] == ops;
    while k < |ops|
      invariant k <= |ops| && func.Valid()
      invariant readonly ==> code[..] == was
                             && AddAll(func.Patches(), PatchesAt(addr, ops[k..]))
                                == AddAll(before, PatchesAt(addr, ops))
      invariant !readonly ==> func.Patches() == before
                              && code[..] == was[addr := LastOf(was[addr], ops[..k])]
    {
      OpcodeTurn(code[..], func.Patches(), addr, ops, k);
      var ok := PatchOpcode(readonly, func, code, addr, ops[k], true);
      k := k + 1;
    }
    assert ops[k..] == [] && ops[..k] == ops;
    NoPatches(func.Patches());
  }

  /** One instruction of the loader's pass. */
  method LoadInstr<D>(m: Machine<D>, readonly: bool, i: Instr, func: WasmFunction, code: array<Byte>, addr: nat)
    returns (next: nat, caches: seq<BrTableCache>)
    requires i.BrTable? ==> TableOk(i.table)
    requires func.Valid() && Holds(code[..], addr, Show(i))
    modifies func, code
    ensures func.Valid() && next == addr + |Show(i)| <= code.Length
    ensures readonly ==> code[..] == old(code[..]) && caches == []
                         && func.Patches() == AddAll(old(func.Patches()), InstrPatches(i, addr))
    ensures !readonly ==> func.Patches() == old(func.Patches()) && caches == InstrCaches(i, addr)
                          && code[..] == Splice(old(code[..]), addr, Rewritten(m, i))
  {
    hide Join, IsLeb, LebValue, ReadLeb, CompactBytes, AddAll, WriteAll, PreparedCode, Depths, Holds;
    ghost var was := code[..];
    caches := [];
    match i {
      case Op(op, imm, patches) =>
        OpParts(was, addr, op, imm);
        LoadOpcode(readonly, patches, func, code, addr);
        next := addr + 1 + |imm|;
        OpSpliced(was, addr, op, imm, FinalOp(i));
      case BrTable(t) =>
        TableParts(was, addr, t);
        NoPatches(func.Patches());
        ReadsLeb(was, addr + 1, t.count);
        var count, begin := ReadLebUint32(code[..], addr + 1);
        next := addr + 1 + |t.count| + |Join(t.depths)|;
        if !readonly {
          var end, cache := PrepareTable(code, addr, begin, t, count, m.cacheOp);
          PreparedIsSpliced(m, code[..], was, addr, t);
          if cache.Some? {
            caches := [cache.value];
          }
        }
    }
  }

  lemma NoPatches(patches: seq<Patch>)
    ensures AddAll(patches, []) == patches
  {
  }

  lemma OpSpliced(was: seq<Byte>, addr: nat, op: Byte, imm: seq<Byte>, final: Byte)
    requires addr + 1 + |imm| <= |was| && was[addr] == op && was[addr + 1..addr + 1 + |imm|] == imm
    ensures was[addr := final] == Splice(was, addr, [final] + imm)
  {
    var now := Splice(was, addr, [final] + imm);
    forall k | 0 <= k < |was| ensures was[addr := final][k] == now[k] {
      if addr < k < addr + 1 + |imm| {
        assert was[addr + 1..addr + 1 + |imm|][k - addr - 1] == was[k];
      }
    }
  }

  /**
   * The loader's pass over a validated function. From read-only code it leaves the bytes alone and collects the
   * replacements in the overlay; otherwise it rewrites the bytes and collects the cached tables.
   */
  method LoadFunction<D>(m: Machine<D>, readonly: bool, program: seq<Instr>, func: WasmFunction, code: array<Byte>)
    returns (caches: seq<BrTableCache>)
    requires TablesOk(program) && func.Valid() && func.Patches() == [] && code[..] == Code(program)
    modifies func, code
    ensures func.Valid()
    ensures readonly ==> code[..] == Code(program)
                         && func.Patches() == AddAll([], AllPatches(program, 0)) && caches == []
    ensures !readonly ==> code[..] == RewrittenCode(m, program) && func.Patches() == []
                          && caches == AllCaches(program, 0)
  {
    hide Code, RewrittenCode, AllPatches, AllCaches, AddAll, TableOk, Show, Rewritten, InstrCaches, InstrPatches, Holds;
    caches := [];
    var addr: nat := 0;
    var i := 0;
    assert program[0..] == program;
    NothingBefore(code[..], RewrittenCode(m, program), AllCaches(program, 0));
    while i < |program|
      invariant i <= |program| && addr <= code.Length && func.Valid() && TablesOk(program[i..])
      invariant code[..][addr..] == Code(program[i..])
      invariant readonly ==> && code[..] == Code(program) && caches == []
                             && AddAll(func.Patches(), AllPatches(program[i..], addr))
                                == AddAll([], AllPatches(program, 0))
      invariant !readonly ==> && func.Patches() == []
                              && code[..][..addr] + RewrittenCode(m, program[i..]) == RewrittenCode(m, program)
                              && caches + AllCaches(program[i..], addr) == AllCaches(program, 0)
    {
      ghost var was, before, had := code[..], func.Patches(), caches;
      assert program[i..][1..] == program[i + 1..] && program[i..][0] == program[i];
      LoadTurn(m, program[i..], was, addr, before, had);
      var next, more := LoadInstr(m, readonly, program[i], func, code, addr);
      caches := caches + more;
      SpliceTail(was, addr, Rewritten(m, program[i]));
      addr := next;
      i := i + 1;
    }
    assert program[i..] == [];
    NothingBehind(m, code[..], addr, func.Patches(), caches);
  }

  lemma NothingBefore(code: seq<Byte>, rewritten: seq<Byte>, caches: seq<BrTableCache>)
    ensures code[0..] == code && code[..0] + rewritten == rewritten && [] + caches == caches
  {
  }

  lemma NothingBehind<D>(m: Machine<D>, code: seq<Byte>, addr: nat, patches: seq<Patch>, caches: seq<BrTableCache>)
    requires addr <= |code| && code[addr..] == Code([])
    ensures code[..addr] + RewrittenCode(m, []) == code
    ensures AddAll(patches, AllPatches([], addr)) == patches
    ensures caches + AllCaches([], addr) == caches
  {
  }

  lemma SpliceTail(code: seq<Byte>, p: nat, part: seq<Byte>)
    requires p + |part| <= |code|
    ensures Splice(code, p, part)[p + |part|..] == code[p + |part|..]
    ensures Splice(code, p, part)[..p + |part|] == code[..p] + part
  {
  }

  /** The next instruction of the pass, and what remains behind it. */
  lemma LoadTurn<D>(m: Machine<D>, rest: seq<Instr>, code: seq<Byte>, addr: nat,
    patches: seq<Patch>, caches: seq<BrTableCache>)
    requires rest != [] && TablesOk(rest) && addr <= |code| && code[addr..] == Code(rest)
    ensures rest[0].BrTable? ==> TableOk(rest[0].table)
    ensures TablesOk(rest[1..])
    ensures Holds(code, addr, Show(rest[0])) && addr + |Show(rest[0])| <= |code|
    ensures code[addr + |Show(rest[0])|..] == Code(rest[1..])
    ensures |Rewritten(m, rest[0])| == |Show(rest[0])|
    ensures code[..addr] + Rewritten(m, rest[0]) + RewrittenCode(m, rest[1..]) == code[..addr] + RewrittenCode(m, rest)
    ensures AddAll(AddAll(patches, InstrPatches(rest[0], addr)), AllPatches(rest[1..], addr + |Show(rest[0])|))
         == AddAll(patches, AllPatches(rest, addr))
    ensures caches + InstrCaches(rest[0], addr) + AllCaches(rest[1..], addr + |Show(rest[0])|)
         == caches + AllCaches(rest, addr)
  {
    hide Show, Rewritten, TableOk, InstrPatches, InstrCaches, AddAll;
    TableAt(rest, 0);
    TablesOkTail(rest);
    var show := Show(rest[0]);
    assert code[addr..] == show + Code(rest[1..]);
    assert code == code[..addr] + show + Code(rest[1..]);
    HoldsThree(code[..addr], show, Code(rest[1..]));
    Assoc(code[..addr], Rewritten(m, rest[0]), RewrittenCode(m, rest[1..]));
    AddAllAppend(patches, InstrPatches(rest[0], addr), AllPatches(rest[1..], addr + |show|));
    Assoc(caches, InstrCaches(rest[0], addr), AllCaches(rest[1..], addr + |show|));
  }

  // ---- what the overlay and the caches hold at a boundary ----

  lemma {:induction false} WriteAllAppend(code: seq<Byte>, a: seq<Patch>, b: seq<Patch>)
    requires forall k :: 0 <= k < |a| ==> a[k].addr < |code|
    requires forall k :: 0 <= k < |b| ==> b[k].addr < |code|
    ensures forall k :: 0 <= k < |a + b| ==> (a + b)[k].addr < |code|
    ensures WriteAll(code, a + b) == WriteAll(WriteAll(code, a), b)
    decreases |a|
  {
    if a == [] {
      assert a + b == b;
    } else {
      assert (a + b)[1..] == a[1..] + b;
      WriteAllAppend(code[a[0].addr := a[0].opcode], a[1..], b);
    }
  }

  lemma {:induction false} WritesElsewhere(code: seq<Byte>, added: seq<Patch>, addr: nat)
    requires addr < |code| && forall k :: 0 <= k < |added| ==> added[k].addr < |code| && added[k].addr != addr
    ensures WriteAll(code, added)[addr] == code[addr]
    decreases |added|
  {
    if added != [] {
      WritesElsewhere(code[added[0].addr := added[0].opcode], added[1..], addr);
    }
  }

  predicate Inside(patches: seq<Patch>, from: nat, end: nat) {
    forall k :: 0 <= k < |patches| ==> from <= patches[k].addr < end
  }

  lemma {:induction false} PatchesAtInside(base: nat, ops: seq<Byte>)
    ensures Inside(PatchesAt(base, ops), base, base + 1)
    decreases |ops|
  {
    if ops != [] {
      PatchesAtInside(base, ops[1..]);
    }
  }

  lemma InstrPatchesInside(i: Instr, base: nat)
    ensures Inside(InstrPatches(i, base), base, base + 1)
  {
    if i.Op? {
      PatchesAtInside(base, i.patches);
    }
  }

  /** Every patched address is inside the code it belongs to. */
  lemma {:induction false} PatchesInside(program: seq<Instr>, base: nat)
    ensures Inside(AllPatches(program, base), base, base + |Code(program)|)
    decreases |program|
  {
    hide Show, InstrPatches;
    if program != [] {
      InstrPatchesInside(program[0], base);
      PatchesInside(program[1..], base + |Show(program[0])|);
    }
  }

  function FirstByte(i: Instr): Byte {
    match i
    case Op(_, _, _) => FinalOp(i)
    case BrTable(_) => WASM_OP_BR_TABLE
  }

  lemma InstrWrites(code: seq<Byte>, base: nat, i: Instr)
    requires base < |code| && code[base] == Show(i)[0]
    ensures Inside(InstrPatches(i, base), base, base + 1)
    ensures WriteAll(code, InstrPatches(i, base)) == code[base := FirstByte(i)]
  {
    hide Join;
    InstrPatchesInside(i, base);
    if i.Op? {
      WritesAtOpcode(code, base, i.patches);
    }
  }

  /** Replacements belong to their own instruction: at a boundary the last of its own is in force. */
  lemma {:induction false} WrittenAt(code: seq<Byte>, program: seq<Instr>, base: nat, i: nat)
    requires i < |program| && base + |Code(program)| <= |code| && Holds(code, base, Code(program))
    ensures Inside(AllPatches(program, base), base, |code|)
    ensures base <= Boundary(program, base, i) < |code|
    ensures WriteAll(code, AllPatches(program, base))[Boundary(program, base, i)] == FirstByte(program[i])
    decreases i
  {
    hide Show, Holds, InstrPatches, FirstByte, WriteAll, Boundary;
    var show := Show(program[0]);
    var mine, others := InstrPatches(program[0], base), AllPatches(program[1..], base + |show|);
    PatchesInside(program, base);
    PatchesInside(program[1..], base + |show|);
    HoldsSplit(code, base, show, Code(program[1..]));
    HoldsFirst(code, base, show);
    InstrWrites(code, base, program[0]);
    WriteAllAppend(code, mine, others);
    BoundaryUnfolds(program, base, i);
    var now: seq<Byte> := code[base := FirstByte(program[0])];
    if i == 0 {
      WritesElsewhere(now, others, base);
    } else {
      HoldsBelow(now, code, base + |show|, Code(program[1..]));
      WrittenAt(now, program[1..], base + |show|, i - 1);
    }
  }

  lemma HoldsFirst(code: seq<Byte>, p: nat, part: seq<Byte>)
    requires Holds(code, p, part) && part != []
    ensures p + |part| <= |code| && code[p] == part[0]
  {
    HoldsIndex(code, p, part);
    assert code[p + 0] == part[0];
  }

  lemma HoldsBelow(now: seq<Byte>, code: seq<Byte>, p: nat, part: seq<Byte>)
    requires |now| == |code| && Holds(code, p, part)
    requires forall k :: p <= k < |code| ==> now[k] == code[k]
    ensures Holds(now, p, part)
  {
    assert now[p..p + |part|] == code[p..p + |part|];
  }

  /** Looking the opcode of an instruction up through the overlay gives the last of its own replacements. */
  lemma ResolvesAt(program: seq<Instr>, i: nat)
    requires i < |program|
    ensures Boundary(program, 0, i) < |Code(program)|
    ensures var b := Boundary(program, 0, i);
            Resolve(AddAll([], AllPatches(program, 0)), b, Code(program)[b]) == FirstByte(program[i])
  {
    hide Code, AllPatches, Boundary, FirstByte, WriteAll, AddAll, Resolve;
    WrittenAt(Code(program), program, 0, i);
    OverlayReadsAsWritten(Code(program), AllPatches(program, 0), Boundary(program, 0, i));
  }

  lemma CacheBehind(first: seq<BrTableCache>, rest: seq<BrTableCache>, addr: nat)
    requires |first| <= 1 && (first != [] ==> first[0].opAddr != addr)
    ensures CacheAt(first + rest, addr) == CacheAt(rest, addr)
  {
    if first == [] {
      assert first + rest == rest;
    } else {
      assert (first + rest)[1..] == rest;
    }
  }

  /** The cache of a table is found by the address of its opcode. */
  lemma {:induction false} CacheFor(program: seq<Instr>, base: nat, i: nat)
    requires TablesOk(program) && i < |program| && program[i].BrTable? && !Small(program[i].table)
    ensures CacheAt(AllCaches(program, base), Boundary(program, base, i)) == Some(Depths(program[i].table))
    decreases i
  {
    hide Show, TableOk, Small, Depths, Boundary, CacheAt;
    TableAt(program, 0);
    TablesOkTail(program);
    BoundaryUnfolds(program, base, i);
    BoundaryFrom(program, base, i);
    var first, rest := InstrCaches(program[0], base), AllCaches(program[1..], base + |Show(program[0])|);
    if i == 0 {
      CacheFirst(base, Depths(program[0].table), rest);
    } else {
      CacheFor(program[1..], base + |Show(program[0])|, i - 1);
      CacheBehind(first, rest, Boundary(program, base, i));
    }
  }

  lemma CacheFirst(addr: nat, depths: seq<nat>, rest: seq<BrTableCache>)
    ensures CacheAt([BrTableCache(addr, depths)] + rest, addr) == Some(depths)
  {
  }

  // ---- one step ----

  /** An ordinary instruction sees its own immediates and nothing else of the code. */
  lemma PlainAt<D(!new)>(m: Machine<D>, code: seq<Byte>, b: nat, first: Byte, imm: seq<Byte>, op: Byte, d: D)
    requires Holds(code, b, [first] + imm) && forall after: seq<Byte> :: m.width(op, imm + after) == |imm|
    ensures b < |code| && code[b] == first && Plain(m, code, b, op, d) == After(m.exec(b, op, imm, d), b + 1 + |imm|)
  {
    hide After, Holds;
    OpParts(code, b, first, imm);
    var after := code[b + 1 + |imm|..];
    assert code[b + 1..] == imm + after;
  }

  /** The read-only path through a br_table: one LEB after another up to the selected depth. */
  lemma DecodedBranch<D>(m: Machine<D>, code: seq<Byte>, patches: seq<Patch>, b: nat, t: Table, d: D)
    requires TableOk(t) && Holds(code, b, Show(BrTable(t)))
    requires b < |code| ==> Resolve(patches, b, code[b]) == WASM_OP_BR_TABLE
    ensures ReadonlyStep(m, code, patches, Running(b, d))
         == After(m.branch(b, Selected(t, m.pop(d).0), m.pop(d).1), b)
  {
    hide After, Holds, Join, ReadLeb, DecodeNth, Show, Resolve, IsLeb, LebValue;
    TableParts(code, b, t);
    HoldsFirst(code, b, Show(BrTable(t)));
    ReadsLeb(code, b + 1, t.count);
    var (index, d') := m.pop(d);
    var n := if index > LebValue(t.count) then LebValue(t.count) else index;
    DecodesNth(code, b + 1 + |t.count|, t.depths, n);
  }

  /** A br_table in rewritten code takes a depth byte behind its count. */
  lemma StepAtTable<D>(m: Machine<D>, code: seq<Byte>, caches: seq<BrTableCache>, b: nat, d: D, count: nat, p: nat)
    requires b < |code| && code[b] == WASM_OP_BR_TABLE && ReadLeb(code, b + 1) == Some((count, p))
    ensures var (index, d') := m.pop(d); var at := p + if index > count then count else index;
            RewrittenStep(m, code, caches, Running(b, d))
            == if at >= |code| then Stuck else After(m.branch(b, code[at], d'), b)
  {
    hide After, ReadLeb, CacheAt, Plain;
  }

  /** The opcode that stands for large tables takes a depth of the cache under its address. */
  lemma StepAtCache<D>(m: Machine<D>, code: seq<Byte>, caches: seq<BrTableCache>, b: nat, d: D, depths: seq<nat>)
    requires b < |code| && code[b] == m.cacheOp != WASM_OP_BR_TABLE
    requires CacheAt(caches, b) == Some(depths) && depths != []
    ensures var (index, d') := m.pop(d); var n := if index > |depths| - 1 then |depths| - 1 else index;
            RewrittenStep(m, code, caches, Running(b, d)) == After(m.branch(b, depths[n], d'), b)
  {
    hide After, ReadLeb, CacheAt, Plain;
  }

  /** The rewritten path: a depth byte, or a cached depth once some depth needs more than a byte. */
  lemma PreparedBranch<D>(m: Machine<D>, code: seq<Byte>, caches: seq<BrTableCache>, b: nat, t: Table, d: D)
    requires TableOk(t) && m.cacheOp != WASM_OP_BR_TABLE && Holds(code, b, Rewritten(m, BrTable(t)))
    requires !Small(t) ==> CacheAt(caches, b) == Some(Depths(t))
    ensures RewrittenStep(m, code, caches, Running(b, d))
         == After(m.branch(b, Selected(t, m.pop(d).0), m.pop(d).1), b)
  {
    hide *;
    var n := SelectedDepth(t, m.pop(d).0);
    PreparedParts(m, code, b, t);
    if Small(t) {
      DepthByte(code, b + 1 + |t.count|, t, n);
      StepAtTable(m, code, caches, b, d, LebValue(t.count), b + 1 + |t.count|);
    } else {
      StepAtCache(m, code, caches, b, d, Depths(t));
    }
  }

  lemma SelectedDepth(t: Table, index: nat) returns (n: nat)
    requires TableOk(t)
    ensures IsLeb(t.count) && t.depths != []
    ensures n == (if index > LebValue(t.count) then LebValue(t.count) else index) < |t.depths|
    ensures n == if index > |t.depths| - 1 then |t.depths| - 1 else index
    ensures Selected(t, index) == Depth(t, n) == Depths(t)[n]
  {
    hide IsLeb, LebValue;
    n := if index > LebValue(t.count) then LebValue(t.count) else index;
  }

  /** What a prepared table begins with. */
  lemma PreparedParts<D>(m: Machine<D>, code: seq<Byte>, b: nat, t: Table)
    requires TableOk(t) && Holds(code, b, Rewritten(m, BrTable(t)))
    ensures b < |code| && code[b] == if Small(t) then WASM_OP_BR_TABLE else m.cacheOp
    ensures b + 1 + |t.count| <= |code| && ReadLeb(code, b + 1) == Some((LebValue(t.count), b + 1 + |t.count|))
    ensures Holds(code, b + 1 + |t.count|, CompactBytes(t))
  {
    hide Holds, ReadLeb, IsLeb, LebValue, CompactBytes, Small;
    var first := PreparedOpcode(t, m.cacheOp);
    HoldsFirst(code, b, [first] + (t.count + CompactBytes(t)));
    HoldsSplit(code, b, [first], t.count + CompactBytes(t));
    HoldsSplit(code, b + 1, t.count, CompactBytes(t));
    ReadsLeb(code, b + 1, t.count);
  }

  lemma DepthByte(code: seq<Byte>, p: nat, t: Table, n: nat)
    requires TableOk(t) && Small(t) && n < |t.depths| && Holds(code, p, CompactBytes(t))
    ensures p + n < |code| && code[p + n] == Depth(t, n)
  {
    hide IsLeb, LebValue, Join;
    JoinLength(t.depths);
    HoldsIndex(code, p, CompactBytes(t));
  }

  /** Both paths through a br_table take the branch the index selects. */
  lemma BranchesAgree<D>(m: Machine<D>, program: seq<Instr>, i: nat, d: D)
    requires TablesOk(program) && m.cacheOp != WASM_OP_BR_TABLE && i < |program| && program[i].BrTable?
    ensures var b, t := Boundary(program, 0, i), program[i].table;
            var taken := After(m.branch(b, Selected(t, m.pop(d).0), m.pop(d).1), b);
            && ReadonlyStep(m, Code(program), AddAll([], AllPatches(program, 0)), Running(b, d)) == taken
            && RewrittenStep(m, RewrittenCode(m, program), AllCaches(program, 0), Running(b, d)) == taken
  {
    hide *;
    var b, t := Boundary(program, 0, i), program[i].table;
    TableAt(program, i);
    TableRead(program[i]);
    InstrAt(m, program, 0, i);
    ResolvesAt(program, i);
    DecodedBranch(m, Code(program), AddAll([], AllPatches(program, 0)), b, t, d);
    if !Small(t) {
      CacheFor(program, 0, i);
    }
    PreparedBranch(m, RewrittenCode(m, program), AllCaches(program, 0), b, t, d);
  }

  lemma TableRead(i: Instr)
    ensures i.BrTable? ==> FirstByte(i) == WASM_OP_BR_TABLE && i == BrTable(i.table)
    ensures i.Op? ==> FirstByte(i) == FinalOp(i) && i == Op(i.op, i.imm, i.patches)
  {
  }

  /** Every other instruction runs as its last replacement, on its own immediates. */
  lemma OpcodesAgree<D(!new)>(m: Machine<D>, program: seq<Instr>, i: nat, d: D)
    requires TablesOk(program) && i < |program| && program[i].Op? && InstrOk(m, program[i])
    ensures var b, op, imm := Boundary(program, 0, i), FinalOp(program[i]), program[i].imm;
            var ran := After(m.exec(b, op, imm, d), b + 1 + |imm|);
            && ReadonlyStep(m, Code(program), AddAll([], AllPatches(program, 0)), Running(b, d)) == ran
            && RewrittenStep(m, RewrittenCode(m, program), AllCaches(program, 0), Running(b, d)) == ran
  {
    hide Boundary, Code, RewrittenCode, AllPatches, AllCaches, AddAll, Resolve, Holds, After, Plain, CacheAt, ReadLeb,
         DecodeNth, TableOk;
    var b, it := Boundary(program, 0, i), program[i];
    InstrAt(m, program, 0, i);
    ResolvesAt(program, i);
    PlainAt(m, Code(program), b, it.op, it.imm, FinalOp(it), d);
    PlainAt(m, RewrittenCode(m, program), b, FinalOp(it), it.imm, FinalOp(it), d);
  }

  // ---- whole runs ----

  /** The machine stands on an opcode, beyond the end of the code, or has stopped. */
  ghost predicate OnBoundary<D>(program: seq<Instr>, s: State<D>) {
    s.Running? ==> s.ip >= |Code(program)| || exists i :: 0 <= i < |program| && s.ip == Boundary(program, 0, i)
  }

  function ReadonlyRun<D>(m: Machine<D>, code: seq<Byte>, patches: seq<Patch>, s: State<D>, n: nat): State<D> {
    if n == 0 then s else ReadonlyStep(m, code, patches, ReadonlyRun(m, code, patches, s, n - 1))
  }

  function RewrittenRun<D>(m: Machine<D>, code: seq<Byte>, caches: seq<BrTableCache>, s: State<D>, n: nat): State<D> {
    if n == 0 then s else RewrittenStep(m, code, caches, RewrittenRun(m, code, caches, s, n - 1))
  }

  lemma SameStep<D(!new)>(m: Machine<D>, program: seq<Instr>, s: State<D>)
    requires ProgramOk(m, program) && OnBoundary(program, s)
    ensures ReadonlyStep(m, Code(program), AddAll([], AllPatches(program, 0)), s)
         == RewrittenStep(m, RewrittenCode(m, program), AllCaches(program, 0), s)
  {
    hide Boundary, Code, RewrittenCode, AllPatches, AllCaches, AddAll, Resolve, Holds, After, Plain, CacheAt, ReadLeb,
         DecodeNth, TableOk, InstrOk, FinalOp;
    if s.Running? && s.ip < |Code(program)| {
      var i :| 0 <= i < |program| && s.ip == Boundary(program, 0, i);
      match program[i]
      case Op(_, _, _) => OpcodesAgree(m, program, i, s.d);
      case BrTable(_) => BranchesAgree(m, program, i, s.d);
    }
  }

  /**
   * A run from read-only code through the overlay is the run of the rewritten code, state for state, as long as
   * it stands on opcodes.
   */
  lemma {:induction false} RunsAgree<D(!new)>(m: Machine<D>, program: seq<Instr>, s: State<D>, n: nat)
    requires ProgramOk(m, program)
    requires var patches := AddAll([], AllPatches(program, 0));
             forall k :: 0 <= k < n ==> OnBoundary(program, ReadonlyRun(m, Code(program), patches, s, k))
    ensures ReadonlyRun(m, Code(program), AddAll([], AllPatches(program, 0)), s, n)
         == RewrittenRun(m, RewrittenCode(m, program), AllCaches(program, 0), s, n)
    decreases n
  {
    hide ProgramOk, TablesOk, OnBoundary, Code, RewrittenCode, AllPatches, AllCaches, AddAll,
         ReadonlyStep, RewrittenStep;
    if n > 0 {
      RunsAgree(m, program, s, n - 1);
      var patches := AddAll([], AllPatches(program, 0));
      var last := ReadonlyRun(m, Code(program), patches, s, n - 1);
      assert OnBoundary(program, last);
      SameStep(m, program, last);
    }
  }

  lemma {:induction false} BoundaryNext(program: seq<Instr>, base: nat, i: nat)
    requires i < |program|
    ensures Boundary(program, base, i + 1) == Boundary(program, base, i) + |Show(program[i])|
    ensures i + 1 == |program| ==> Boundary(program, base, i + 1) == base + |Code(program)|
    decreases i
  {
    hide Show, Boundary;
    BoundaryUnfolds(program, base, i);
    BoundaryUnfolds(program, base, i + 1);
    if i > 0 {
      BoundaryNext(program[1..], base + |Show(program[0])|, i - 1);
    } else {
      BoundaryUnfolds(program[1..], base + |Show(program[0])|, 0);
      assert |program| == 1 ==> Code(program[1..]) == [];
    }
  }

  lemma AfterNext<D>(next: Next<D>, behind: nat)
    ensures After(next, behind)
         == match next
            case Fall(d) => Running(behind, d)
            case Goto(d, target) => Running(target, d)
            case Halt(d) => Stopped(d)
  {
  }

  /** On an opcode in a state the invariant allows, beyond the end of the code, or stopped. */
  ghost predicate InOrder<D>(program: seq<Instr>, inv: (nat, D) -> bool, s: State<D>) {
    OnBoundary(program, s) && (s.Running? && s.ip < |Code(program)| ==> inv(s.ip, s.d))
  }

  /**
   * From every state the invariant allows at an instruction of the program, that instruction leads to a state in
   * order: its jumps end on opcodes, and the invariant holds where it jumps or falls to.
   */
  ghost predicate Kept<D(!new)>(m: Machine<D>, program: seq<Instr>, inv: (nat, D) -> bool)
    requires TablesOk(program)
  {
    forall i, d :: 0 <= i < |program| && inv(Boundary(program, 0, i), d) ==>
      KeptAt(m, program, inv, Boundary(program, 0, i), program[i], d)
  }

  ghost predicate KeptAt<D(!new)>(m: Machine<D>, program: seq<Instr>, inv: (nat, D) -> bool, at: nat, i: Instr, d: D)
    requires i.BrTable? ==> TableOk(i.table)
  {
    match i
    case Op(_, imm, _) =>
      var next := m.exec(at, FinalOp(i), imm, d);
      if next.Fall? then at + 1 + |imm| < |Code(program)| ==> inv(at + 1 + |imm|, next.d)
      else next.Goto? ==> InOrder(program, inv, Running(next.target, next.d))
    case BrTable(t) =>
      var (index, d') := m.pop(d);
      var next := m.branch(at, Selected(t, index), d');
      if next.Fall? then inv(at, next.d)
      else next.Goto? ==> InOrder(program, inv, Running(next.target, next.d))
  }

  /** Falling through goes from opcode to opcode. */
  lemma FallsToOpcode<D>(program: seq<Instr>, i: nat, d: D)
    requires i < |program|
    ensures OnBoundary(program, Running(Boundary(program, 0, i) + |Show(program[i])|, d))
  {
    hide Show, Boundary, Code;
    BoundaryNext(program, 0, i);
    assert i + 1 < |program| ==> OnBoundary(program, Running(Boundary(program, 0, i + 1), d));
  }

  lemma OpKept<D(!new)>(m: Machine<D>, program: seq<Instr>, inv: (nat, D) -> bool, i: nat, d: D)
    requires ProgramOk(m, program) && i < |program| && program[i].Op?
    requires KeptAt(m, program, inv, Boundary(program, 0, i), program[i], d)
    ensures InOrder(program, inv, ReadonlyStep(m, Code(program), AddAll([], AllPatches(program, 0)),
                                               Running(Boundary(program, 0, i), d)))
  {
    hide Boundary, Code, AllPatches, AddAll, After, ReadonlyStep, RewrittenStep, RewrittenCode, AllCaches,
         InstrOk, FinalOp, OnBoundary;
    var b, imm := Boundary(program, 0, i), program[i].imm;
    OpcodesAgree(m, program, i, d);
    AfterNext(m.exec(b, FinalOp(program[i]), imm, d), b + 1 + |imm|);
    FallsToOpcode(program, i, m.exec(b, FinalOp(program[i]), imm, d).d);
    StoppedInOrder(program, inv, m.exec(b, FinalOp(program[i]), imm, d).d);
  }

  lemma StoppedInOrder<D>(program: seq<Instr>, inv: (nat, D) -> bool, d: D)
    ensures InOrder(program, inv, Stopped(d))
  {
  }

  lemma BrTableKept<D(!new)>(m: Machine<D>, program: seq<Instr>, inv: (nat, D) -> bool, i: nat, d: D)
    requires ProgramOk(m, program) && i < |program| && program[i].BrTable?
    requires KeptAt(m, program, inv, Boundary(program, 0, i), program[i], d)
    ensures InOrder(program, inv, ReadonlyStep(m, Code(program), AddAll([], AllPatches(program, 0)),
                                               Running(Boundary(program, 0, i), d)))
  {
    hide Boundary, Code, AllPatches, AddAll, After, ReadonlyStep, RewrittenStep, RewrittenCode, AllCaches,
         InstrOk, TableOk, Selected;
    var b := Boundary(program, 0, i);
    BranchesAgree(m, program, i, d);
    TableAt(program, i);
    var next := m.branch(b, Selected(program[i].table, m.pop(d).0), m.pop(d).1);
    AfterNext(next, b);
    StoppedInOrder(program, inv, next.d);
  }

  /** The invariant goes from step to step. */
  lemma StepInOrder<D(!new)>(m: Machine<D>, program: seq<Instr>, inv: (nat, D) -> bool, s: State<D>)
    requires ProgramOk(m, program) && Kept(m, program, inv) && InOrder(program, inv, s)
    ensures InOrder(program, inv, ReadonlyStep(m, Code(program), AddAll([], AllPatches(program, 0)), s))
  {
    hide Boundary, Code, AllPatches, AddAll, Plain, Resolve, ReadLeb, DecodeNth, TableOk, InstrOk, KeptAt;
    if s.Running? && s.ip < |Code(program)| {
      var i :| 0 <= i < |program| && s.ip == Boundary(program, 0, i);
      assert KeptAt(m, program, inv, Boundary(program, 0, i), program[i], s.d);
      match program[i]
      case Op(_, _, _) => OpKept(m, program, inv, i, s.d);
      case BrTable(_) => BrTableKept(m, program, inv, i, s.d);
    }
  }

  lemma {:induction false} RunInOrder<D(!new)>(m: Machine<D>, program: seq<Instr>, inv: (nat, D) -> bool,
    s: State<D>, k: nat)
    requires ProgramOk(m, program) && Kept(m, program, inv) && InOrder(program, inv, s)
    ensures InOrder(program, inv, ReadonlyRun(m, Code(program), AddAll([], AllPatches(program, 0)), s, k))
    decreases k
  {
    hide ProgramOk, InOrder, Kept, Code, AllPatches, AddAll, ReadonlyStep;
    ProgramTables(m, program);
    if k > 0 {
      RunInOrder(m, program, inv, s, k - 1);
      StepInOrder(m, program, inv, ReadonlyRun(m, Code(program), AddAll([], AllPatches(program, 0)), s, k - 1));
    }
  }

  lemma ProgramTables<D(!new)>(m: Machine<D>, program: seq<Instr>)
    requires ProgramOk(m, program)
    ensures TablesOk(program)
  {
  }

  /**
   * Under any invariant the program's own instructions keep, every run from a state in order is the same either
   * way, however long.
   */
  lemma EveryRunAgrees<D(!new)>(m: Machine<D>, program: seq<Instr>, inv: (nat, D) -> bool, s: State<D>, n: nat)
    requires ProgramOk(m, program) && Kept(m, program, inv) && InOrder(program, inv, s)
    ensures ReadonlyRun(m, Code(program), AddAll([], AllPatches(program, 0)), s, n)
         == RewrittenRun(m, RewrittenCode(m, program), AllCaches(program, 0), s, n)
  {
    hide OnBoundary, Kept, Code, RewrittenCode, AllPatches, AllCaches, AddAll, ReadonlyRun, RewrittenRun;
    forall k | 0 <= k < n
      ensures OnBoundary(program, ReadonlyRun(m, Code(program), AddAll([], AllPatches(program, 0)), s, k))
    {
      RunInOrder(m, program, inv, s, k);
    }
    RunsAgree(m, program, s, n);
  }
}
