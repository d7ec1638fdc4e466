/**
 * A machine with WebAssembly's structured control: blocks, loops and ifs push labels, and branches take their target
 * from the label stack, backwards to a loop or forwards behind an end. Every program of it runs the same from read-only
 * and from rewritten code (guest/wamr-readonly.patch, interpreter hunks).
 */
module LabelStack {
  import opened Bytes
  import opened Leb128
  import opened BytecodeOverlay
  import opened OverlayMachine

  /** What an opcode does to control; which byte stands for which, replaced ones included, is a parameter. */
  datatype Kind = Block | Loop | If | Else | End | Br | BrIf | Other

  /** The targets of the constructs entered, innermost first, and the operands. */
  datatype Frame = Frame(labels: seq<nat>, operands: seq<nat>)

  // ---- where constructs end ----

  function KindOf(kind: Byte -> Kind, i: Instr): Kind {
    if i.Op? then kind(FinalOp(i)) else Other
  }

  /** The index behind the end that closes the construct `j` is in, or behind its else if that is asked for. */
  function Behind(kind: Byte -> Kind, program: seq<Instr>, j: nat, depth: nat, atElse: bool): (k: nat)
    requires j <= |program|
    ensures k <= |program|
    decreases |program| - j
  {
    if j == |program| then j
    else
      match KindOf(kind, program[j])
      case Block => Behind(kind, program, j + 1, depth + 1, atElse)
      case Loop => Behind(kind, program, j + 1, depth + 1, atElse)
      case If => Behind(kind, program, j + 1, depth + 1, atElse)
      case Else => if depth == 0 && atElse then j + 1 else Behind(kind, program, j + 1, depth, atElse)
      case End => if depth == 0 then j + 1 else Behind(kind, program, j + 1, depth - 1, atElse)
      case _ => Behind(kind, program, j + 1, depth, atElse)
  }

  function IndexAt(program: seq<Instr>, base: nat, a: nat): (i: Option<nat>)
    ensures i.Some? ==> i.value < |program|
  {
    if program == [] then None
    else if a == base then Some(0)
    else
      match IndexAt(program[1..], base + |Show(program[0])|, a)
      case None => None
      case Some(i) => Some(i + 1)
  }

  /** The address behind the construct an address opens, or behind its else. */
  function Exit(kind: Byte -> Kind, program: seq<Instr>, a: nat, atElse: bool): nat {
    match IndexAt(program, 0, a)
    case None => |Code(program)|
    case Some(i) => Boundary(program, 0, Behind(kind, program, i + 1, 0, atElse))
  }

  /** How deep a stretch of a program leaves one that enters it at a depth, if it closes nothing around it. */
  function Level(kind: Byte -> Kind, part: seq<Instr>, depth: nat): Option<nat> {
    if part == [] then Some(depth)
    else
      match KindOf(kind, part[0])
      case Block => Level(kind, part[1..], depth + 1)
      case Loop => Level(kind, part[1..], depth + 1)
      case If => Level(kind, part[1..], depth + 1)
      case End => if depth == 0 then None else Level(kind, part[1..], depth - 1)
      case _ => Level(kind, part[1..], depth)
  }

  lemma {:induction false} BehindSkips(kind: Byte -> Kind, program: seq<Instr>, j: nat, part: seq<Instr>, depth: nat)
    requires j + |part| <= |program| && program[j..j + |part|] == part && Level(kind, part, depth).Some?
    ensures Behind(kind, program, j, depth, false)
         == Behind(kind, program, j + |part|, Level(kind, part, depth).value, false)
    decreases |part|
  {
    if part != [] {
      assert program[j] == part[0] && program[j + 1..j + |part|] == part[1..];
      var depth' := match KindOf(kind, part[0])
                    case Block => depth + 1
                    case Loop => depth + 1
                    case If => depth + 1
                    case End => depth - 1
                    case _ => depth;
      BehindSkips(kind, program, j + 1, part[1..], depth');
    }
  }

  lemma {:induction false} IndexOfBoundary(program: seq<Instr>, base: nat, i: nat)
    requires i < |program|
    ensures IndexAt(program, base, Boundary(program, base, i)) == Some(i)
  {
    hide Show;
    if i > 0 {
      IndexOfBoundary(program[1..], base + |Show(program[0])|, i - 1);
      BoundaryFrom(program, base, i);
    }
  }

  /** The label of a construct is behind the end that closes it, whatever constructs are inside it. */
  lemma ExitIsBehindItsEnd(kind: Byte -> Kind, program: seq<Instr>, i: nat, body: seq<Instr>)
    requires i + 1 + |body| < |program| && program[i + 1..i + 1 + |body|] == body
    requires Level(kind, body, 0) == Some(0) && KindOf(kind, program[i + 1 + |body|]) == End
    ensures Exit(kind, program, Boundary(program, 0, i), false) == Boundary(program, 0, i + 2 + |body|)
  {
    IndexOfBoundary(program, 0, i);
    BehindSkips(kind, program, i + 1, body, 0);
  }

  // ---- the machine ----

  function Push(d: Frame, target: nat): Frame { d.(labels := [target] + d.labels) }

  function Pop(d: Frame): (nat, Frame) {
    if d.operands == [] then (0, d) else (d.operands[0], d.(operands := d.operands[1..]))
  }

  /** Leaving the inner constructs for the label at a depth. */
  function Branch(depth: nat, d: Frame): Next<Frame> {
    if depth < |d.labels| then Goto(d.(labels := d.labels[depth + 1..]), d.labels[depth]) else Halt(d)
  }

  function BranchTo(imm: seq<Byte>, d: Frame): Next<Frame> {
    match ReadLeb(imm, 0)
    case None => Halt(d)
    case Some((depth, _)) => Branch(depth, d)
  }

  /** An if whose condition fails goes behind its else, or, having none, behind its end. */
  function Skipped(d: Frame, otherwise: nat, end: nat): Next<Frame> {
    if otherwise == end then Goto(d, end) else Goto(Push(d, end), otherwise)
  }

  function Control(kind: Kind, at: nat, end: nat, otherwise: nat, imm: seq<Byte>, d: Frame): Next<Frame> {
    match kind
    case Block => Fall(Push(d, end))
    case Loop => Fall(Push(d, at))
    case If =>
      var (condition, d') := Pop(d);
      if condition != 0 then Fall(Push(d', end)) else Skipped(d', otherwise, end)
    case Else => Branch(0, d)
    case End => if d.labels == [] then Halt(d) else Fall(d.(labels := d.labels[1..]))
    case Br => BranchTo(imm, d)
    case BrIf =>
      var (condition, d') := Pop(d);
      if condition != 0 then BranchTo(imm, d') else Fall(d')
    case Other => Fall(d)
  }

  function ControlMachine(cacheOp: Byte, width: (Byte, seq<Byte>) -> nat, kind: Byte -> Kind, program: seq<Instr>):
    Machine<Frame>
  {
    Machine(cacheOp, width,
            (at, op, imm, d) =>
              Control(kind(op), at, Exit(kind, program, at, false), Exit(kind, program, at, true), imm, d),
            Pop,
            (at, depth, d) => Branch(depth, d))
  }

  // ---- labels stay on opcodes ----

  /** The address of an instruction, or beyond the code. */
  ghost predicate IsPlace(program: seq<Instr>, a: nat) {
    a >= |Code(program)| || exists i :: 0 <= i < |program| && a == Boundary(program, 0, i)
  }

  ghost predicate LabelsOk(program: seq<Instr>, d: Frame) {
    forall k :: 0 <= k < |d.labels| ==> IsPlace(program, d.labels[k])
  }

  ghost function Inv(program: seq<Instr>): (nat, Frame) -> bool {
    (at, d) => LabelsOk(program, d)
  }

  lemma BoundaryIsPlace(program: seq<Instr>, i: nat)
    requires i <= |program|
    ensures IsPlace(program, Boundary(program, 0, i))
  {
    hide Boundary, Show, Code;
    if i == |program| {
      if i > 0 {
        BoundaryNext(program, 0, i - 1);
      } else {
        NoCode(program);
      }
    }
  }

  lemma NoCode(program: seq<Instr>)
    requires program == []
    ensures |Code(program)| == 0
  {
  }

  lemma ExitIsPlace(kind: Byte -> Kind, program: seq<Instr>, a: nat, atElse: bool)
    ensures IsPlace(program, Exit(kind, program, a, atElse))
  {
    hide IsPlace, Boundary, Behind, IndexAt, Code;
    match IndexAt(program, 0, a)
    case None => EndIsPlace(program);
    case Some(i) => BoundaryIsPlace(program, Behind(kind, program, i + 1, 0, atElse));
  }

  lemma EndIsPlace(program: seq<Instr>)
    ensures IsPlace(program, |Code(program)|)
  {
  }

  lemma PushKeeps(program: seq<Instr>, d: Frame, target: nat)
    requires LabelsOk(program, d) && IsPlace(program, target)
    ensures LabelsOk(program, Push(d, target))
  {
    hide IsPlace;
  }

  lemma PopKeeps(program: seq<Instr>, d: Frame)
    requires LabelsOk(program, d)
    ensures LabelsOk(program, Pop(d).1)
  {
    hide IsPlace;
  }

  /** Where a step of the machine leads is fine: a place to jump to, and labels that are places. */
  ghost predicate NextOk(program: seq<Instr>, next: Next<Frame>) {
    LabelsOk(program, next.d) && (next.Goto? ==> IsPlace(program, next.target))
  }

  lemma BranchKeeps(program: seq<Instr>, depth: nat, d: Frame)
    requires LabelsOk(program, d)
    ensures NextOk(program, Branch(depth, d)) && !Branch(depth, d).Fall?
  {
    hide IsPlace;
  }

  lemma BranchToKeeps(program: seq<Instr>, imm: seq<Byte>, d: Frame)
    requires LabelsOk(program, d)
    ensures NextOk(program, BranchTo(imm, d))
  {
    hide IsPlace, LabelsOk, ReadLeb, Branch;
    if ReadLeb(imm, 0).Some? {
      BranchKeeps(program, ReadLeb(imm, 0).value.0, d);
    }
  }

  lemma ControlKeeps(program: seq<Instr>, kind: Kind, at: nat, end: nat, otherwise: nat, imm: seq<Byte>, d: Frame)
    requires LabelsOk(program, d) && IsPlace(program, at) && IsPlace(program, end) && IsPlace(program, otherwise)
    ensures NextOk(program, Control(kind, at, end, otherwise, imm, d))
  {
    hide IsPlace, LabelsOk, Branch, BranchTo, Pop, Push;
    var d' := Pop(d).1;
    PopKeeps(program, d);
    PushKeeps(program, d, end);
    PushKeeps(program, d, at);
    PushKeeps(program, d', end);
    BranchKeeps(program, 0, d);
    BranchToKeeps(program, imm, d);
    BranchToKeeps(program, imm, d');
    if kind.End? && d.labels != [] {
      EndKeeps(program, d);
    }
  }

  lemma EndKeeps(program: seq<Instr>, d: Frame)
    requires LabelsOk(program, d) && d.labels != []
    ensures LabelsOk(program, d.(labels := d.labels[1..]))
  {
    hide IsPlace;
  }

  lemma PlaceInOrder(program: seq<Instr>, next: Next<Frame>)
    requires NextOk(program, next) && next.Goto?
    ensures InOrder(program, Inv(program), Running(next.target, next.d))
  {
    hide Boundary, Code;
  }

  lemma InstrKeepsLabels(m: Machine<Frame>, kind: Byte -> Kind, program: seq<Instr>, i: nat, d: Frame)
    requires TablesOk(program) && m == ControlMachine(m.cacheOp, m.width, kind, program)
    requires i < |program| && LabelsOk(program, d)
    ensures KeptAt(m, program, Inv(program), Boundary(program, 0, i), program[i], d)
  {
    hide Boundary, Code, TableOk, Selected, LabelsOk, IsPlace, Control, InOrder, FinalOp, Branch, Exit, Pop;
    var at := Boundary(program, 0, i);
    BoundaryIsPlace(program, i);
    TableAt(program, i);
    match program[i]
    case Op(_, imm, _) =>
      var op, end, otherwise := FinalOp(program[i]), Exit(kind, program, at, false), Exit(kind, program, at, true);
      ExitIsPlace(kind, program, at, false);
      ExitIsPlace(kind, program, at, true);
      ControlKeeps(program, kind(op), at, end, otherwise, imm, d);
      var next := m.exec(at, op, imm, d);
      assert next == Control(kind(op), at, end, otherwise, imm, d);
      if next.Goto? {
        PlaceInOrder(program, next);
      }
    case BrTable(t) =>
      var (index, d') := Pop(d);
      PopKeeps(program, d);
      BranchKeeps(program, Selected(t, index), d');
      var next := m.branch(at, Selected(t, index), d');
      assert next == Branch(Selected(t, index), d');
      if next.Goto? {
        PlaceInOrder(program, next);
      }
  }

  /** Whatever the program, its instructions keep all labels on opcodes. */
  lemma LabelsStay(m: Machine<Frame>, kind: Byte -> Kind, program: seq<Instr>)
    requires TablesOk(program) && m == ControlMachine(m.cacheOp, m.width, kind, program)
    ensures Kept(m, program, Inv(program))
  {
    hide Boundary, TableOk, LabelsOk, KeptAt;
    forall i, d | 0 <= i < |program| && Inv(program)(Boundary(program, 0, i), d)
      ensures KeptAt(m, program, Inv(program), Boundary(program, 0, i), program[i], d)
    {
      InstrKeepsLabels(m, kind, program, i, d);
    }
  }

  /** Every run from the first instruction, inside no construct yet, is the same either way. */
  lemma ControlRunsAgree(m: Machine<Frame>, kind: Byte -> Kind, program: seq<Instr>, operands: seq<nat>, n: nat)
    requires ProgramOk(m, program) && m == ControlMachine(m.cacheOp, m.width, kind, program)
    ensures ReadonlyRun(m, Code(program), AddAll([], AllPatches(program, 0)), Running(0, Frame([], operands)), n)
         == RewrittenRun(m, RewrittenCode(m, program), AllCaches(program, 0), Running(0, Frame([], operands)), n)
  {
    hide ProgramOk, Kept, ReadonlyRun, RewrittenRun, RewrittenCode, AllPatches, AllCaches, AddAll, TableOk, Show,
         ControlMachine;
    ProgramTables(m, program);
    LabelsStay(m, kind, program);
    var start := Running(0, Frame([], operands));
    assert program != [] ==> 0 == Boundary(program, 0, 0);
    assert InOrder(program, Inv(program), start);
    EveryRunAgrees(m, program, Inv(program), start, n);
  }
}
