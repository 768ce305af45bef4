/** The version discipline of lifted blocks. */
module Versioning {
  import opened Wrappers
  import opened Ir
  import opened Operands
  import opened Frontend
  import Text
  import opened Lifter

  /** The variable that an opcode defines. */
  function Defines(op: Opcode): Option<VarId> {
    match op
    case Mov(d, _) => Some(d)
    case Load(d, _) => Some(d)
    case Alu(_, d, _, _) => Some(d)
    case Not(d, _) => Some(d)
    case Neg(d, _) => Some(d)
    case Lea(d, _) => Some(d)
    case Cmovcc(_, d, _) => Some(d)
    case Setcc(_, d) => Some(d)
    case Pop(d) => Some(d)
    case _ => None
  }

  function IdsOf(op: Operand): set<VarId> {
    match op
    case Var(v) => {v}
    case Imm(_) => {}
    case Mem(base, index, _, _) =>
      (if base.Some? then {base.value} else {}) + (if index.Some? then {index.value} else {})
  }

  /** The variables that an opcode reads. */
  function Uses(op: Opcode): set<VarId> {
    match op
    case Mov(_, s) => IdsOf(s)
    case Load(_, a) => IdsOf(a)
    case Store(a, s) => IdsOf(a) + IdsOf(s)
    case Alu(_, _, l, r) => IdsOf(l) + IdsOf(r)
    case Not(_, s) => IdsOf(s)
    case Neg(_, s) => IdsOf(s)
    case Lea(_, a) => IdsOf(a)
    case Cmp(l, r) => IdsOf(l) + IdsOf(r)
    case Test(l, r) => IdsOf(l) + IdsOf(r)
    case Cmovcc(_, _, s) => IdsOf(s)
    case Call(Indirect(t), _) => IdsOf(t)
    case Push(s) => IdsOf(s)
    case AtomicRMW(_, a, s) => IdsOf(a) + IdsOf(s)
    case _ => {}
  }

  /** Moves, loads and address computations are parsed after their destination got its new version. */
  predicate ReadsLate(op: Opcode) {
    op.Mov? || op.Load? || op.Lea?
  }

  predicate AllCurrent(ids: set<VarId>, versions: Versions) {
    forall v :: v in ids ==> v == CurrentVar(versions, v.base)
  }

  function After(op: Opcode, versions: Versions): Versions {
    if Defines(op).Some? then Bump(versions, Defines(op).value.base) else versions
  }

  /** The opcode defines the next version of its destination, and reads the current versions. */
  predicate Fits(op: Opcode, versions: Versions) {
    && (Defines(op).Some? ==> Defines(op).value == Fresh(versions, Defines(op).value.base))
    && AllCurrent(Uses(op), if ReadsLate(op) then After(op, versions) else versions)
  }

  /** The opcodes take the version map from `before` to `after`, fitting all the way. */
  predicate Threads(ops: seq<Opcode>, before: Versions, after: Versions) {
    if ops == [] then before == after
    else Fits(ops[0], before) && Threads(ops[1..], After(ops[0], before), after)
  }

  lemma {:induction false} ThreadsAppend(a: seq<Opcode>, b: seq<Opcode>, before: Versions, mid: Versions, after: Versions)
    requires Threads(a, before, mid) && Threads(b, mid, after)
    ensures Threads(a + b, before, after)
  {
    hide Fits, After;
    if a == [] {
      assert a + b == b;
    } else {
      assert (a + b)[0] == a[0] && (a + b)[1..] == a[1..] + b;
      ThreadsAppend(a[1..], b, After(a[0], before), mid, after);
    }
  }

  // Parsed operands carry current versions.

  predicate PartsCurrent(parts: MemParts, versions: Versions) {
    AllCurrent(IdsOf(parts.ToOperand()), versions)
  }

  lemma TermCurrent(term: string, versions: Versions, parts: MemParts)
    requires PartsCurrent(parts, versions)
    ensures PartsCurrent(AddTerm(term, versions, parts), versions)
  {
    hide ParseRegister, ParseImmediate, HasChar, TrimStartChar, Text.SplitOn, Text.Trim;
  }

  lemma {:induction false} TermsCurrent(terms: seq<string>, versions: Versions, parts: MemParts)
    requires PartsCurrent(parts, versions)
    ensures PartsCurrent(AddTerms(terms, versions, parts), versions)
  {
    hide AddTerm, PartsCurrent;
    if terms != [] {
      TermCurrent(terms[0], versions, parts);
      TermsCurrent(terms[1..], versions, AddTerm(terms[0], versions, parts));
    }
  }

  lemma MemoryCurrent(text: string, versions: Versions)
    ensures AllCurrent(IdsOf(ParseMemoryOperandSpec(text, versions)), versions)
  {
    hide AddTerms, MemoryTerms;
    TermsCurrent(MemoryTerms(text), versions, NO_PARTS);
  }

  lemma OperandCurrent(text: string, versions: Versions)
    ensures AllCurrent(IdsOf(ParseSingleOperand(text, versions)), versions)
  {
    hide ParseMemoryOperandSpec, ParseRegister, ParseImmediate, IsMemoryOperand, Text.Trim;
    MemoryCurrent(Text.Trim(text), versions);
  }

  lemma AllOperandsCurrent(operands: seq<string>, versions: Versions)
    ensures forall k :: 0 <= k < |operands| ==> AllCurrent(IdsOf(ParseSingleOperand(operands[k], versions)), versions)
    ensures forall k :: 0 <= k < |operands| ==> AllCurrent(IdsOf(ParseMemoryOperandSpec(operands[k], versions)), versions)
  {
    hide ParseSingleOperand, ParseMemoryOperandSpec, IdsOf, AllCurrent;
    forall k | 0 <= k < |operands| ensures AllCurrent(IdsOf(ParseSingleOperand(operands[k], versions)), versions) {
      OperandCurrent(operands[k], versions);
    }
    forall k | 0 <= k < |operands| ensures AllCurrent(IdsOf(ParseMemoryOperandSpec(operands[k], versions)), versions) {
      MemoryCurrent(operands[k], versions);
    }
  }

  // The arms.

  /** The opcodes of an arm thread the version map from the one given to the one left behind. */
  predicate Threaded(r: Lifted, versions: Versions) {
    Threads(r.ops, versions, r.versions)
  }

  lemma OneThreads(op: Opcode, before: Versions)
    requires Fits(op, before)
    ensures Threads([op], before, After(op, before))
  {
    assert [op][1..] == [];
  }

  lemma UnliftedThreads(mn: string, addr: nat, versions: Versions)
    ensures Threaded(Unlifted(mn, addr, versions), versions)
  {
    OneThreads(Unknown(mn, addr), versions);
  }

  lemma MovThreads(operands: seq<string>, mn: string, addr: nat, versions: Versions)
    ensures Threaded(LiftMov(operands, mn, addr, versions), versions)
  {
    hide ParseSingleOperand, ParseMemoryOperandSpec, IsMemoryOperand, DstBase, IdsOf, Threads, Unlifted;
    UnliftedThreads(mn, addr, versions);
    if |operands| >= 2 {
      var after := Bump(versions, DstBase(operands[0]));
      AllOperandsCurrent(operands, versions);
      AllOperandsCurrent(operands, after);
      OneThreads(LiftMov(operands, mn, addr, versions).ops[0], versions);
    }
  }

  lemma LeaThreads(operands: seq<string>, mn: string, addr: nat, versions: Versions)
    ensures Threaded(LiftLea(operands, mn, addr, versions), versions)
  {
    hide ParseMemoryOperandSpec, DstBase, IdsOf, Threads, Unlifted;
    UnliftedThreads(mn, addr, versions);
    if |operands| >= 2 {
      AllOperandsCurrent(operands, Bump(versions, DstBase(operands[0])));
      OneThreads(LiftLea(operands, mn, addr, versions).ops[0], versions);
    }
  }

  lemma AluThreads(op: AluOp, operands: seq<string>, mn: string, addr: nat, versions: Versions)
    ensures Threaded(LiftBinaryAlu(op, operands, mn, addr, versions), versions)
  {
    hide ParseSingleOperand, DstBase, IdsOf, Threads, Unlifted;
    UnliftedThreads(mn, addr, versions);
    if |operands| >= 2 {
      AllOperandsCurrent(operands, versions);
      OneThreads(LiftBinaryAlu(op, operands, mn, addr, versions).ops[0], versions);
    }
  }

  lemma CurrentIsCurrent(base: VarBase, versions: Versions)
    ensures AllCurrent(IdsOf(Var(CurrentVar(versions, base))), versions)
    ensures forall n :: AllCurrent(IdsOf(Imm(n)), versions)
  {
  }

  lemma MulThreads(operands: seq<string>, addr: nat, versions: Versions)
    ensures Threaded(LiftMul(operands, addr, versions), versions)
  {
    hide ParseSingleOperand, DstBase, IdsOf, Threads, LiftBinaryAlu;
    if |operands| == 1 {
      AllOperandsCurrent(operands, versions);
      CurrentIsCurrent(RAX, versions);
      OneThreads(LiftMul(operands, addr, versions).ops[0], versions);
    } else {
      AluThreads(MulOp, operands, "imul", addr, versions);
    }
  }

  lemma UnaryThreads(isNot: bool, operands: seq<string>, addr: nat, versions: Versions)
    ensures Threaded(LiftUnaryReg(isNot, operands, addr, versions), versions)
  {
    hide DstBase, IsMemoryOperand, IdsOf, Threads, Unlifted;
    UnliftedThreads(if isNot then "not" else "neg", addr, versions);
    if operands != [] && !IsMemoryOperand(operands[0]) {
      CurrentIsCurrent(DstBase(operands[0]), versions);
      OneThreads(LiftUnaryReg(isNot, operands, addr, versions).ops[0], versions);
    }
  }

  lemma StepThreads(op: AluOp, operands: seq<string>, mn: string, addr: nat, versions: Versions)
    ensures Threaded(LiftStepByOne(op, operands, mn, addr, versions), versions)
  {
    hide DstBase, IdsOf, Threads, Unlifted;
    UnliftedThreads(mn, addr, versions);
    if operands != [] {
      CurrentIsCurrent(DstBase(operands[0]), versions);
      OneThreads(LiftStepByOne(op, operands, mn, addr, versions).ops[0], versions);
    }
  }

  lemma LeaveThreads(versions: Versions)
    ensures Threaded(LiftLeave(versions), versions)
  {
    var r := LiftLeave(versions);
    assert Fits(r.ops[0], versions) && Fits(r.ops[1], Bump(versions, RSP));
    OneThreads(r.ops[1], Bump(versions, RSP));
    assert r.ops[1..] == [r.ops[1]];
  }

  lemma CallThreads(text: string, versions: Versions, next: nat)
    ensures Fits(LiftCall(text, versions, next), versions) && Defines(LiftCall(text, versions, next)).None?
    ensures Fits(LiftJmp(text, versions), versions) && Defines(LiftJmp(text, versions)).None?
  {
    hide ParseMemoryOperandSpec, ParseRegister, ParseImmediate, IsMemoryOperand, Text.Trim;
    MemoryCurrent(Text.Trim(text), versions);
  }

  /** One opcode without a destination whose operands are current. */
  lemma ReaderFits(op: Opcode, versions: Versions)
    requires Defines(op).None? && AllCurrent(Uses(op), versions)
    ensures Threads([op], versions, versions)
  {
    hide Uses, Defines;
    OneThreads(op, versions);
  }

  lemma CompareFits(l: Operand, r: Operand, mn: string, versions: Versions)
    requires AllCurrent(IdsOf(l), versions) && AllCurrent(IdsOf(r), versions)
    ensures Threads([Cmp(l, r)], versions, versions) && Threads([Test(l, r)], versions, versions)
    ensures Threads([AtomicRMW(mn, l, r)], versions, versions)
  {
    hide IdsOf, Threads, Fits;
    ReaderFits(Cmp(l, r), versions);
    ReaderFits(Test(l, r), versions);
    ReaderFits(AtomicRMW(mn, l, r), versions);
  }

  lemma CompareLifted(form: Form, mn: string, operands: seq<string>, addr: nat, next: nat, versions: Versions)
    requires form.FCmp? || form.FTest? || form.FAtomic?
    ensures var r := LiftForm(form, mn, operands, addr, next, versions);
      if |operands| < 2 then r == Unlifted(mn, addr, versions)
      else
        var a, b := ParseSingleOperand(operands[0], versions), ParseSingleOperand(operands[1], versions);
        r == Lifted([match form case FCmp => Cmp(a, b) case FTest => Test(a, b) case _ => AtomicRMW(mn, a, b)], versions)
  {
    hide ParseSingleOperand, Unlifted;
  }

  lemma CompareThreads(form: Form, mn: string, operands: seq<string>, addr: nat, next: nat, versions: Versions)
    requires form.FCmp? || form.FTest? || form.FAtomic?
    ensures Threaded(LiftForm(form, mn, operands, addr, next, versions), versions)
  {
    hide LiftForm, ParseSingleOperand, IdsOf, Threads, Unlifted, AllCurrent;
    CompareLifted(form, mn, operands, addr, next, versions);
    UnliftedThreads(mn, addr, versions);
    if |operands| >= 2 {
      OperandCurrent(operands[0], versions);
      OperandCurrent(operands[1], versions);
      CompareFits(ParseSingleOperand(operands[0], versions), ParseSingleOperand(operands[1], versions), mn, versions);
    }
  }

  lemma CmovThreads(form: Form, mn: string, operands: seq<string>, addr: nat, next: nat, versions: Versions)
    requires form.FCmov?
    ensures Threaded(LiftForm(form, mn, operands, addr, next, versions), versions)
  {
    hide ParseSingleOperand, DstBase, IdsOf, Threads, Unlifted;
    UnliftedThreads(mn, addr, versions);
    if |operands| >= 2 {
      AllOperandsCurrent(operands, versions);
      OneThreads(LiftForm(form, mn, operands, addr, next, versions).ops[0], versions);
    }
  }

  lemma DefinerThreads(form: Form, mn: string, operands: seq<string>, addr: nat, next: nat, versions: Versions)
    requires form.FPop? || form.FSet?
    ensures Threaded(LiftForm(form, mn, operands, addr, next, versions), versions)
  {
    hide DstBase, Threads, Unlifted;
    UnliftedThreads(mn, addr, versions);
    if operands != [] {
      OneThreads(LiftForm(form, mn, operands, addr, next, versions).ops[0], versions);
    }
  }

  lemma PushFits(src: Operand, versions: Versions)
    requires AllCurrent(IdsOf(src), versions)
    ensures Threads([Push(src)], versions, versions)
  {
    hide IdsOf, Threads, Fits;
    ReaderFits(Push(src), versions);
  }

  lemma PushThreads(form: Form, mn: string, operands: seq<string>, addr: nat, next: nat, versions: Versions)
    requires form.FPush?
    ensures Threaded(LiftForm(form, mn, operands, addr, next, versions), versions)
  {
    hide ParseSingleOperand, IdsOf, Threads, Unlifted, Fits, AllCurrent;
    UnliftedThreads(mn, addr, versions);
    if operands != [] {
      AllOperandsCurrent(operands, versions);
      PushFits(ParseSingleOperand(operands[0], versions), versions);
    }
  }

  lemma PlainFormThreads(form: Form, mn: string, operands: seq<string>, addr: nat, next: nat, versions: Versions)
    requires form.FNop? || form.FRet? || form.FJcc? || form.FSyscall? || form.FUnknown?
    ensures Threaded(LiftForm(form, mn, operands, addr, next, versions), versions)
  {
    hide Threads, BranchTarget, Fits;
    ReaderFits(LiftForm(form, mn, operands, addr, next, versions).ops[0], versions);
  }

  lemma FormThreads(form: Form, mn: string, operands: seq<string>, addr: nat, next: nat, versions: Versions)
    ensures Threaded(LiftForm(form, mn, operands, addr, next, versions), versions)
  {
    hide Threads, LiftMov, LiftLea, LiftBinaryAlu, LiftMul, LiftUnaryReg;
    hide LiftStepByOne, LiftLeave, LiftCall, LiftJmp, Fits, Defines;
    match form
    case FMov => MovThreads(operands, mn, addr, versions);
    case FLea => LeaThreads(operands, mn, addr, versions);
    case FAlu(op) => AluThreads(op, operands, mn, addr, versions);
    case FMul => MulThreads(operands, addr, versions);
    case FNot => UnaryThreads(true, operands, addr, versions);
    case FNeg => UnaryThreads(false, operands, addr, versions);
    case FInc => StepThreads(AddOp, operands, mn, addr, versions);
    case FDec => StepThreads(SubOp, operands, mn, addr, versions);
    case FLeave => LeaveThreads(versions);
    case FCall =>
      UnliftedThreads(mn, addr, versions);
      if operands != [] {
        CallThreads(operands[0], versions, next);
        OneThreads(LiftCall(operands[0], versions, next), versions);
      }
    case FJmp =>
      UnliftedThreads(mn, addr, versions);
      if operands != [] {
        CallThreads(operands[0], versions, next);
        OneThreads(LiftJmp(operands[0], versions), versions);
      }
    case FCmp => CompareThreads(form, mn, operands, addr, next, versions);
    case FTest => CompareThreads(form, mn, operands, addr, next, versions);
    case FAtomic => CompareThreads(form, mn, operands, addr, next, versions);
    case FCmov(_) => CmovThreads(form, mn, operands, addr, next, versions);
    case FPush => PushThreads(form, mn, operands, addr, next, versions);
    case FPop => DefinerThreads(form, mn, operands, addr, next, versions);
    case FSet(_) => DefinerThreads(form, mn, operands, addr, next, versions);
    case _ => PlainFormThreads(form, mn, operands, addr, next, versions);
  }

  // Blocks.

  function Opcodes(code: seq<IRInstruction>): seq<Opcode> {
    seq(|code|, i requires 0 <= i < |code| => code[i].opcode)
  }

  lemma LocatedOpcodes(code: seq<IRInstruction>, addr: nat, ops: seq<Opcode>)
    ensures Opcodes(code + Located(addr, ops)) == Opcodes(code) + ops
  {
  }

  /** Whatever the text of its instructions, a block threads its versions from the empty map. */
  lemma {:induction false} BlockThreads(insns: seq<DisassembledInsn>)
    ensures Threads(Opcodes(LiftInsns(insns).code), map[], LiftInsns(insns).versions)
  {
    hide LiftForm, FormOf, Mnemonic, ParseOperandsSpec, Located, Opcodes, Threads;
    if insns == [] {
      EmptyThreads(map[]);
    } else {
      var before, insn := LiftInsns(insns[..|insns| - 1]), insns[|insns| - 1];
      BlockThreads(insns[..|insns| - 1]);
      var m := Mnemonic(insn);
      FormThreads(FormOf(m, "lock " <= Text.ToLower(insn.mnemonic)), m, ParseOperandsSpec(insn.opStr),
                  insn.address, insn.address + insn.size, before.versions);
      var here := LiftInsn(insn, before.versions);
      ThreadsAppend(Opcodes(before.code), here.ops, map[], before.versions, here.versions);
      LocatedOpcodes(before.code, insn.address, here.ops);
    }
  }

  lemma EmptyThreads(versions: Versions)
    ensures Threads(Opcodes([]), versions, versions)
  {
  }

  // What threading means, counted over the code.

  /** How many of the opcodes define a version of the base. */
  function Writes(ops: seq<Opcode>, base: VarBase): nat {
    if ops == [] then 0
    else
      (if Defines(ops[0]).Some? && Defines(ops[0]).value.base == base then 1 else 0) + Writes(ops[1..], base)
  }

  /** Opcode i defines the version counted by the writes before it; it reads the versions so counted,
      except that a move, load or address computation reads its own new version of its destination. */
  predicate Disciplined(ops: seq<Opcode>, i: nat, start: Versions)
    requires i < |ops|
  {
    var op := ops[i];
    var d := Defines(op);
    && (d.Some? ==> d.value.version == CurrentVar(start, d.value.base).version + Writes(ops[..i], d.value.base) + 1)
    && forall v :: v in Uses(op) ==>
         v.version == CurrentVar(start, v.base).version + Writes(ops[..i], v.base)
                      + if ReadsLate(op) && d.Some? && d.value.base == v.base then 1 else 0
  }

  lemma {:induction false} ThreadedDisciplined(ops: seq<Opcode>, i: nat, before: Versions, after: Versions)
    requires Threads(ops, before, after) && i < |ops|
    ensures Disciplined(ops, i, before)
    decreases i
  {
    hide Defines, Uses;
    if i > 0 {
      var rest, mid := ops[1..], After(ops[0], before);
      ThreadedDisciplined(rest, i - 1, mid, after);
      assert ops[..i][0] == ops[0] && ops[..i][1..] == rest[..i - 1];
      assert forall b :: CurrentVar(mid, b).version + Writes(rest[..i - 1], b)
                         == CurrentVar(before, b).version + Writes(ops[..i], b);
    }
  }

  /** In every lifted block the k-th write to a base has version k, and each operand read carries the
      number of earlier writes to its base, save that moves, loads and address computations which
      mention their own destination read the version being defined. */
  lemma VersionsAreExact(insns: seq<DisassembledInsn>, i: nat)
    requires i < |LiftInsns(insns).code|
    ensures Disciplined(Opcodes(LiftInsns(insns).code), i, map[])
  {
    hide LiftInsns, Disciplined, Threads;
    BlockThreads(insns);
    ThreadedDisciplined(Opcodes(LiftInsns(insns).code), i, map[], LiftInsns(insns).versions);
  }

  lemma {:induction false} WritesGrow(ops: seq<Opcode>, i: nat, j: nat, base: VarBase)
    requires i < j <= |ops| && Defines(ops[i]).Some? && Defines(ops[i]).value.base == base
    ensures Writes(ops[..i], base) < Writes(ops[..j], base)
    decreases i
  {
    hide Defines;
    assert ops[..j][0] == ops[0] && ops[..j][1..] == ops[1..][..j - 1];
    if i > 0 {
      assert ops[..i][0] == ops[0] && ops[..i][1..] == ops[1..][..i - 1];
      WritesGrow(ops[1..], i - 1, j - 1, base);
    }
  }

  /** Single assignment: no variable is defined twice in a block. */
  lemma SingleAssignment(insns: seq<DisassembledInsn>, i: nat, j: nat)
    requires i < j < |LiftInsns(insns).code|
    ensures var a, b := Defines(LiftInsns(insns).code[i].opcode), Defines(LiftInsns(insns).code[j].opcode);
      a.Some? && b.Some? ==> a.value != b.value
  {
    hide LiftInsns, Defines;
    var ops := Opcodes(LiftInsns(insns).code);
    VersionsAreExact(insns, i);
    VersionsAreExact(insns, j);
    if Defines(ops[i]).Some? {
      WritesGrow(ops, i, j, Defines(ops[i]).value.base);
    }
  }
}
