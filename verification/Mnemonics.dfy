/** Mnemonics outside the subset: what their text is lifted to and what the printed lines do, with exact
    conditions where the processor does something else. */
module Mnemonics {
  import opened Wrappers
  import opened Words
  import opened Text
  import opened Ir
  import opened Operands
  import opened Frontend
  import Cfg
  import opened Lifter
  import opened CLang
  import opened Backend
  import opened X86
  import opened Capstone
  import opened OperandProofs
  import LiftProofs
  import opened OperandMeaning
  import opened Flags
  import opened Instructions
  import Calls
  import opened Execution
  import opened Gotos
  import opened FlatMachine
  import opened Spellings
  import opened Widths

  // Hints.

  const HINTS: seq<string> := ["nop", "endbr64", "endbr32", "fnop", "pause"]

  lemma HintForm(mn: string)
    requires mn in HINTS
    ensures FormOf(mn, false) == FNop && NoUpper(mn) && !("lock " <= mn)
  {
    assert mn != "" && mn[0] != 'l';
  }

  /** Hints do nothing, whatever operands they are printed with. */
  lemma HintsDoNothing(insn: DisassembledInsn, versions: Versions, names: Names, s: CState, callee: Callee)
    requires insn.mnemonic in HINTS
    ensures LiftInsn(insn, versions) == Lifted([Nop], versions)
    ensures ExecLines(InsnLines(insn, names), s, callee) == Defined(s, Onward)
  {
    hide FormOf, HINTS, ParseOperandsSpec, ExecLines, LinesOf;
    HintForm(insn.mnemonic);
    ToLowerFixed(insn.mnemonic);
    NopForm(insn.mnemonic, ParseOperandsSpec(insn.opStr), insn.address, insn.address + insn.size, versions);
    NopForm(insn.mnemonic, ParseOperandsSpec(insn.opStr), insn.address, insn.address + insn.size, map[]);
    LinesOfOne(Nop, names);
    OneStatement(CComment, s, callee);
  }

  lemma NopForm(mn: string, operands: seq<string>, addr: nat, next: nat, versions: Versions)
    ensures LiftForm(FNop, mn, operands, addr, next, versions) == Lifted([Nop], versions)
  {
  }

  // Lock prefixes.

  lemma AluFormLocked(m: string)
    requires FormOf(m, false).FAlu?
    ensures FormOf(m, true) == FormOf(m, false)
  {
    hide ParseConditionSuffix;
  }

  lemma LockStripped(m: string)
    requires NoUpper(m) && !("lock " <= m)
    ensures StripLock(ToLower("lock " + m)) == m && "lock " <= ToLower("lock " + m)
    ensures StripLock(ToLower(m)) == m && !("lock " <= ToLower(m))
  {
    var s := "lock " + m;
    ToLowerFixed(s);
    ToLowerFixed(m);
    assert s[..5] == "lock " && s[5..] == m;
    assert StripLock(m) == m;
  }

  /** A locked ALU operation is lifted as the plain one: the prefix is lost. */
  lemma LockIsLost(insn: DisassembledInsn, m: string, versions: Versions)
    requires insn.mnemonic == "lock " + m && NoUpper(m) && !("lock " <= m) && FormOf(m, false).FAlu?
    ensures LiftInsn(insn, versions) == LiftInsn(insn.(mnemonic := m), versions)
  {
    hide FormOf, ParseOperandsSpec, LiftForm, StripLock, ToLower;
    LockStripped(m);
    AluFormLocked(m);
  }

  /** The atomic operations that could be printed are the five ALU operations of the same names. */
  lemma AtomicOpsExactly(kind: string, op: AluOp)
    ensures AtomicOp(kind) == Some(op)
            <==> op in {AddOp, SubOp, AndOp, OrOp, XorOp} && kind == MnemonicText(XAlu(op, XReg(RAX), XReg(RAX)))
  {
  }

  // System calls.

  lemma SyscallForm()
    ensures FormOf("syscall", false) == FSyscall && !("lock " <= "syscall") && NoUpper("syscall")
  {
    assert "syscall"[0] == 's' && "syscall"[1] == 'y';
  }

  /** syscall is a call of an external function of that name. */
  lemma SyscallLifted(insn: DisassembledInsn, versions: Versions)
    requires insn.mnemonic == "syscall"
    ensures LiftInsn(insn, versions) == Lifted([Call(External("syscall"), insn.address + insn.size)], versions)
  {
    hide FormOf, ParseOperandsSpec;
    SyscallForm();
    ToLowerFixed("syscall");
    SyscallArm("syscall", ParseOperandsSpec(insn.opStr), insn.address, insn.address + insn.size, versions);
  }

  lemma SyscallArm(mn: string, operands: seq<string>, addr: nat, next: nat, versions: Versions)
    ensures LiftForm(FSyscall, mn, operands, addr, next, versions) == Lifted([Call(External("syscall"), next)], versions)
  {
  }

  // Indirect calls.

  lemma CallForm()
    ensures FormOf("call", false) == FCall && !("lock " <= "call") && NoUpper("call")
  {
    assert "call"[0] == 'c' && "call"[1] == 'a';
  }

  lemma CallArm(a: string, mn: string, addr: nat, next: nat, versions: Versions)
    ensures LiftForm(FCall, mn, [a], addr, next, versions).ops == [LiftCall(a, versions, next)]
  {
    hide LiftCall;
  }

  lemma CallOperand(op: XOp, next: nat, versions: Versions)
    requires op.Valid() && !op.XImm?
    ensures LiftCall(OpText(op), versions, next)
            == Call(Indirect(OperandOf(op, versions)), if op.XReg? then 0 else next)
  {
    hide ParseImmediate, ParseMemoryOperandSpec, MemText, RegName, Trim, ParseRegister, IsMemoryOperand;
    match op
    case XReg(r) =>
      RegNameTrimmed(r);
      LiftProofs.RegOperand(r, versions);
      RegNameParsed(r);
    case XMemory(m) =>
      MemTextShape(m);
      MemoryOperandRead(m, OpText(op), versions);
  }

  /** A call through a register or memory is lifted to an indirect call of that operand, which remembers the
      next address only through memory. */
  lemma IndirectCallLifted(insn: DisassembledInsn, op: XOp, versions: Versions)
    requires insn.mnemonic == "call" && op.Valid() && !op.XImm? && insn.opStr == OpText(op)
    ensures LiftInsn(insn, versions).ops
            == [Call(Indirect(OperandOf(op, versions)), if op.XReg? then 0 else insn.address + insn.size)]
  {
    hide FormOf, LiftInsn, LiftForm, LiftCall, OpText, WellFormedOperand, OperandOf, NoUpper;
    CallForm();
    LiftProofs.OpTextWellFormed(op);
    OneOperandLifted(insn, "call", FCall, OpText(op), versions);
    CallArm(OpText(op), "call", insn.address, insn.address + insn.size, versions);
    CallOperand(op, insn.address + insn.size, versions);
  }

  /** sal is shl. */
  lemma SalForm()
    ensures FormOf("sal", false) == FormOf("shl", false) == FAlu(ShlOp)
  {
  }

  // Multiplication into rdx:rax.

  lemma MulForm()
    ensures FormOf("mul", false) == FMul && !("lock " <= "mul") && NoUpper("mul")
  {
  }

  lemma MulArm(a: string, mn: string, addr: nat, next: nat, versions: Versions)
    ensures LiftForm(FMul, mn, [a], addr, next, versions).ops
            == [Alu(MulOp, Fresh(versions, RAX), Var(CurrentVar(versions, RAX)), ParseSingleOperand(a, versions))]
  {
    hide ParseSingleOperand;
  }

  /** The arm and the operand of an instruction whose text is one operand. */
  lemma OneOperandLifted(insn: DisassembledInsn, m: string, form: Form, a: string, versions: Versions)
    requires insn.mnemonic == m && NoUpper(m) && !("lock " <= m) && FormOf(m, false) == form
    requires insn.opStr == a && WellFormedOperand(a)
    ensures LiftInsn(insn, versions) == LiftForm(form, m, [a], insn.address, insn.address + insn.size, versions)
  {
    hide FormOf, ParseOperandsSpec, LiftForm, WellFormedOperand;
    ToLowerFixed(m);
    OneOperand(a);
  }

  lemma SourceOperand(src: Narrow, versions: Versions)
    requires src.Valid()
    ensures Canonical(src).Valid() && ParseSingleOperand(src.Text(), versions) == OperandOf(Canonical(src), versions)
  {
    hide ParseSingleOperand, ParseMemoryOperandSpec, OperandOf, MemOperandOf, Narrow.Valid, Narrow.Text, IsMemoryOperand, DstBase;
    SourceReads(src, versions);
  }

  lemma MulLifted(insn: DisassembledInsn, src: Narrow)
    requires insn.mnemonic == "mul" && src.Valid() && insn.opStr == src.Text()
    ensures Canonical(src).Valid()
    ensures LiftInsn(insn, map[]).ops
            == [Alu(MulOp, Fresh(map[], RAX), Var(CurrentVar(map[], RAX)), OperandOf(Canonical(src), map[]))]
  {
    hide FormOf, LiftForm, LiftInsn, Narrow.Valid, Narrow.Text, WellFormedOperand, ParseSingleOperand, OperandOf, NoUpper;
    hide Canonical, XOp.Valid;
    MulForm();
    SourceWellFormed(src);
    OneOperandLifted(insn, "mul", FMul, src.Text(), map[]);
    SourceOperand(src, map[]);
    MulArm(src.Text(), "mul", insn.address, insn.address + insn.size, map[]);
  }

  lemma MulLines(insn: DisassembledInsn, src: Narrow, names: Names)
    requires insn.mnemonic == "mul" && src.Valid() && insn.opStr == src.Text()
    ensures Canonical(src).Valid()
    ensures InsnLines(insn, names) == [[CAssign(RAX, CBin(CMul, CReg(RAX), EmitOperand(OperandOf(Canonical(src), map[]))))]]
  {
    hide LiftInsn, LinesOf, Narrow.Valid, Narrow.Text, EmitOperand, OperandOf, Canonical, XOp.Valid;
    MulLifted(insn, src);
    RegisterLine(Fresh(map[], RAX), CurrentVar(map[], RAX), OperandOf(Canonical(src), map[]), names);
  }

  lemma RegisterLine(dst: VarId, lhs: VarId, rhs: Operand, names: Names)
    ensures LinesOf([Alu(MulOp, dst, Var(lhs), rhs)], names)
            == [[CAssign(dst.base, CBin(CMul, CReg(lhs.base), EmitOperand(rhs)))]]
  {
    LinesOfOne(Alu(MulOp, dst, Var(lhs), rhs), names);
  }

  /** The high and the low 64 bits of a product. */
  function HighHalf(a: word, b: word): nat {
    a * b / 0x1_0000_0000_0000_0000
  }

  function LowHalf(a: word, b: word): word {
    ToWord(a * b)
  }

  lemma MulRuns(insn: DisassembledInsn, src: Narrow, names: Names, x: XState, c: CState, callee: Callee)
    requires insn.mnemonic == "mul" && src.Valid() && insn.opStr == src.Text() && Agree(x, c)
    ensures ExecLines(InsnLines(insn, names), c, callee)
            == Defined(SetReg(c, RAX, LowHalf(x.regs(RAX), src.Whole(x))), Onward)
  {
    hide InsnLines, ExecLines, ExecLine, Word, Eval, EmitOperand, OperandOf, Narrow.Valid, Narrow.Text, Narrow.Whole, XOp.Value, Apply;
    hide ToWord, SetReg;
    var op := Canonical(src);
    var a, b := x.regs(RAX), op.Value(x);
    MulLines(insn, src, names);
    CanonicalValue(src, x);
    OperandEmitted(op, map[], x, c);
    RegisterIs(RAX, c);
    AluEmitted(MulOp, CReg(RAX), EmitOperand(OperandOf(op, map[])), c, a, b);
    var e := CBin(CMul, CReg(RAX), EmitOperand(OperandOf(op, map[])));
    OneStatement(CAssign(RAX, e), c, callee);
    AssignStmt(RAX, e, c, LowHalf(a, b), callee);
  }

  /** One-operand mul leaves the low half of the product in rax and rdx as it was, which is right exactly when
      rdx already holds the high half. */
  lemma MulExactly(insn: DisassembledInsn, src: Narrow, names: Names, x: XState, c: CState, callee: Callee)
    requires insn.mnemonic == "mul" && src.Valid() && insn.opStr == src.Text() && Agree(x, c)
    ensures var r, a, b := ExecLines(InsnLines(insn, names), c, callee), x.regs(RAX), src.Whole(x);
      && r.Defined? && r.next.Onward? && r.state == SetReg(c, RAX, LowHalf(a, b))
      && (r.state.regs(RAX) == LowHalf(a, b) && r.state.regs(RDX) == HighHalf(a, b) <==> c.regs(RDX) == HighHalf(a, b))
  {
    hide InsnLines, ExecLines, Narrow.Valid, Narrow.Text, Narrow.Whole, LowHalf, HighHalf;
    MulRuns(insn, src, names, x, c, callee);
  }

  lemma RegisterIs(r: VarBase, c: CState)
    ensures Eval(CReg(r), c) == Some(U(c.regs(r)))
  {
  }

  // Setting a byte.

  lemma SetForm(k: Condition)
    ensures FormOf("set" + ConditionText(k), false) == FSet(k)
  {
    hide ConditionNamed;
    var m, t := "set" + ConditionText(k), ConditionText(k);
    assert m[0] == 's' && m[1] == 'e' && m[2] == 't' && m[3..] == t;
    LiftProofs.ConditionRead(k);
    SetMnemonic(m);
    assert t[0] != 'j';
  }

  lemma SetMnemonic(m: string)
    requires |m| >= 3 && m[0] == 's' && m[1] == 'e' && m[2] == 't'
    ensures FormOf(m, false) == FSet(ParseConditionSuffix(m[3..]))
  {
    hide ParseConditionSuffix;
    assert "set" <= m;
  }

  lemma SetPlain(k: Condition)
    ensures NoUpper("set" + ConditionText(k)) && !("lock " <= "set" + ConditionText(k))
  {
    LiftProofs.ConditionPlain(k);
    assert ("set" + ConditionText(k))[0] == 's';
  }

  lemma SetArm(k: Condition, a: string, mn: string, addr: nat, next: nat, versions: Versions)
    ensures LiftForm(FSet(k), mn, [a], addr, next, versions).ops == [Setcc(k, Fresh(versions, DstBase(a)))]
  {
    hide DstBase;
  }

  lemma SetLine(k: Condition, dst: VarId, names: Names)
    ensures LinesOf([Setcc(k, dst)], names) == [[CAssign(dst.base, CCond(EmitCondition(k), CInt(1), CInt(0)))]]
  {
    hide EmitCondition;
    LinesOfOne(Setcc(k, dst), names);
  }

  lemma SetLifted(insn: DisassembledInsn, k: Condition, d: Gpr)
    requires insn.mnemonic == "set" + ConditionText(k) && Spells(insn.opStr, d)
    ensures LiftInsn(insn, map[]).ops == [Setcc(k, Fresh(map[], d))]
  {
    hide FormOf, LiftForm, LiftInsn, Spells, WellFormedOperand, ConditionText, NoUpper, DstBase, ParseSingleOperand, Fresh;
    SetForm(k);
    SetPlain(k);
    SpellingWellFormed(insn.opStr, d);
    OneOperandLifted(insn, insn.mnemonic, FSet(k), insn.opStr, map[]);
    SpellingRead(insn.opStr, d, map[]);
    SetArm(k, insn.opStr, insn.mnemonic, insn.address, insn.address + insn.size, map[]);
  }

  lemma SetLines(insn: DisassembledInsn, k: Condition, d: Gpr, names: Names)
    requires insn.mnemonic == "set" + ConditionText(k) && Spells(insn.opStr, d)
    ensures InsnLines(insn, names) == [[CAssign(d, CCond(EmitCondition(k), CInt(1), CInt(0)))]]
  {
    hide LiftInsn, LinesOf, Spells, EmitCondition, ConditionText;
    SetLifted(insn, k, d);
    SetLine(k, Fresh(map[], d), names);
  }

  /** setcc writes the whole register, which leaves what the processor leaves exactly when the bytes above the
      lowest were zero. */
  lemma SetExactly(insn: DisassembledInsn, k: Condition, d: Gpr, names: Names, c: CState, callee: Callee)
    requires insn.mnemonic == "set" + ConditionText(k) && Spells(insn.opStr, d)
    ensures var r, v := ExecLines(InsnLines(insn, names), c, callee), c.regs(d) as int;
      var bit := if Taken(k, c.regs(RFlags)) then 1 else 0;
      && r.Defined? && r.next.Onward? && r.state == SetReg(c, d, bit)
      && (r.state.regs(d) == v - v % 256 + bit <==> v < 256)
  {
    hide InsnLines, ExecLines, ExecLine, Word, Eval, EmitCondition, Taken, Spells, ConditionText;
    SetLines(insn, k, d, names);
    ConditionEmitted(k, c);
    BitsRead(c);
    var taken := Taken(k, c.regs(RFlags));
    var e := CCond(EmitCondition(k), CInt(1), CInt(0));
    ChoiceEmitted(EmitCondition(k), CInt(1), CInt(0), c, taken, 1, 0);
    OneStatement(CAssign(d, e), c, callee);
    AssignStmt(d, e, c, if taken then 1 else 0, callee);
    LowByte(c.regs(d), if taken then 1 else 0);
  }

  lemma BitsRead(c: CState)
    ensures Word(CInt(1), c) == Some(1) && Word(CInt(0), c) == Some(0)
  {
  }

  lemma LowByte(v: word, bit: nat)
    requires bit <= 1
    ensures bit == v - v % 256 + bit <==> v < 256
  {
  }

  // Indirect jumps.

  lemma NotNumeral(s: string, radix: nat, i: nat)
    requires i < |s| && DigitOf(s[i]) == 99 && radix < 99
    ensures DigitsValue(s, radix) == None
  {
    if DigitsValue(s, radix).Some? {
      NumeralLacks(s, radix, s[i]);
    }
  }

  /** A text that begins with a letter beyond f is no number. */
  lemma WordIsNoNumber(s: string)
    requires Trim(s) == s && s != "" && 'g' <= s[0] <= 'z'
    ensures ParseImmediate(s) == None && ParseHexTarget(s) == None
  {
    hide Trim;
    NotNumeral(s, 16, 0);
    NotNumeral(s, 10, 0);
  }

  lemma RegNameIsNoNumber(r: Gpr)
    ensures ParseImmediate(RegName(r)) == None && ParseHexTarget(RegName(r)) == None
  {
    hide Trim, ParseImmediate, ParseHexTarget;
    RegNameTrimmed(r);
    StartsWithR(r);
    WordIsNoNumber(RegName(r));
  }

  lemma StartsWithR(r: Gpr)
    ensures RegName(r)[0] == 'r'
  {
  }

  lemma MemTextIsNoNumber(m: XMem)
    ensures var s := "qword ptr " + MemText(m); ParseImmediate(s) == None && ParseHexTarget(s) == None
  {
    hide MemInner, Trim, ParseImmediate, ParseHexTarget;
    MemTextShape(m);
    WordIsNoNumber("qword ptr " + MemText(m));
  }

  lemma IndirectJump(op: XOp, versions: Versions)
    requires op.Valid() && !op.XImm?
    ensures LiftJmp(OpText(op), versions) == Call(Indirect(OperandOf(op, versions)), 0)
    ensures ParseHexTarget(OpText(op)) == None
  {
    hide ParseImmediate, ParseHexTarget, ParseMemoryOperandSpec, MemText, RegName, Trim;
    match op
    case XReg(r) =>
      RegNameIsNoNumber(r);
      RegNameTrimmed(r);
      LiftProofs.RegOperand(r, versions);
      RegNameParsed(r);
    case XMemory(m) =>
      MemTextIsNoNumber(m);
      MemTextShape(m);
      MemoryOperandRead(m, OpText(op), versions);
  }

  lemma RegNameTrimmed(r: Gpr)
    ensures Trim(RegName(r)) == RegName(r)
  {
    RegNamePlain(r);
    PlainFacts(RegName(r));
  }

  lemma IndirectJumpLifted(insn: DisassembledInsn, op: XOp)
    requires insn.mnemonic == "jmp" && op.Valid() && !op.XImm? && insn.opStr == OpText(op)
    ensures LiftInsn(insn, map[]).ops == [Call(Indirect(OperandOf(op, map[])), 0)]
  {
    hide FormOf, LiftInsn, LiftForm, LiftJmp, OpText, WellFormedOperand, OperandOf, NoUpper;
    JmpForm();
    LeavingPlain("jmp");
    LiftProofs.OpTextWellFormed(op);
    OneOperandLifted(insn, "jmp", FJmp, OpText(op), map[]);
    JmpLifted("jmp", OpText(op), insn.address, insn.address + insn.size, map[]);
    IndirectJump(op, map[]);
  }

  lemma CallGoesOn(op: Opcode, names: Names, s: CState, callee: Callee)
    requires op.Call?
    ensures var r := ExecLines(LinesOf([op], names), s, callee); r.Defined? && r.next.Onward?
  {
    hide EmitOpcode, ExecLine, ExecLines;
    LinesOfOne(op, names);
    OneLine(EmitOpcode(op, names), s, callee);
    var t := Calls.CallEnters(op, names, callee, s);
  }

  // Operands that are not understood.

  /** A name outside the modelled machine: no register, no number, no memory. */
  predicate Foreign(s: string) {
    Clean(s) && 'g' <= s[0] <= 'z' && !IsMemoryOperand(s) && ParseRegister(s) == None
  }

  lemma ForeignIsNoNumber(s: string)
    requires Foreign(s)
    ensures Trim(s) == s && ParseImmediate(s) == None
  {
    hide ParseRegister, ParseImmediate, ParseHexTarget, IsMemoryOperand, Trim;
    TrimPadded(s);
    WordIsNoNumber(s);
  }

  /** A foreign source is read as zero, and a jump to a foreign name as a jump to address zero. */
  lemma ForeignIsZero(s: string, versions: Versions)
    requires Foreign(s)
    ensures ParseSingleOperand(s, versions) == Imm(0)
    ensures LiftJmp(s, versions) == Jmp(0) && BranchTarget([s]) == 0
  {
    hide ParseRegister, ParseImmediate, IsMemoryOperand, Trim;
    ForeignIsNoNumber(s);
  }

  /** A call of a foreign name is a call of the external function of that name. */
  lemma ForeignIsCalled(s: string, versions: Versions, next: nat)
    requires Foreign(s)
    ensures LiftCall(s, versions, next) == Call(External(s), next)
  {
    hide ParseRegister, ParseImmediate, IsMemoryOperand, Trim;
    ForeignIsNoNumber(s);
  }

  /** Vector registers are foreign. */
  lemma VectorIsForeign(s: string)
    requires Plain(s) && 'x' <= s[0] <= 'z'
    ensures Foreign(s)
  {
    hide RegisterNamed;
    PlainFacts(s);
    NoRegisterBeyondS(s);
  }

  lemma NoRegisterBeyondS(s: string)
    requires s != "" && 't' <= s[0] <= 'z'
    ensures RegisterNamed(s) == None
  {
  }

  // Case.

  /** The lifter ignores the case of a mnemonic. */
  lemma CaseIgnored(insn: DisassembledInsn, versions: Versions)
    requires NoUpper(insn.mnemonic)
    ensures LiftInsn(insn.(mnemonic := ToUpper(insn.mnemonic)), versions) == LiftInsn(insn, versions)
  {
    hide FormOf, LiftForm, ParseOperandsSpec, ToUpper, ToLower, StripLock;
    LowerUndoesUpper(insn.mnemonic);
    ToLowerFixed(insn.mnemonic);
  }

  /** An indirect jump is lifted to a call that remembers zero, and the printed line goes on to the next
      instruction, although the CFG lets control pass nowhere. */
  lemma IndirectJumpGoesOn(insn: DisassembledInsn, op: XOp, names: Names, s: CState, callee: Callee)
    requires insn.mnemonic == "jmp" && op.Valid() && !op.XImm? && insn.opStr == OpText(op)
    ensures Cfg.FlowOf(insn) == Cfg.Flow(None, false)
    ensures LiftInsn(insn, map[]).ops == [Call(Indirect(OperandOf(op, map[])), 0)]
    ensures var r := ExecLines(InsnLines(insn, names), s, callee); r.Defined? && r.next.Onward?
  {
    hide LiftInsn, ParseHexTarget, OpText, OperandOf, ExecLines, LinesOf;
    IndirectJumpLifted(insn, op);
    IndirectJump(op, map[]);
    CallGoesOn(Call(Indirect(OperandOf(op, map[])), 0), names, s, callee);
  }
}
