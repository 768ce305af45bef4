/** The instruction list run on its own, for any text: one instruction after the other, without blocks,
    labels or layout. */
module FlatMachine {
  import opened Wrappers
  import opened Text
  import opened Ir
  import opened Operands
  import opened Frontend
  import Cfg
  import CfgWalk
  import opened Lifter
  import opened CLang
  import opened Backend
  import opened Flags
  import opened Instructions
  import opened Execution
  import opened Gotos

  /** Direct jumps whose targets are instructions of the function. */
  predicate JumpsStayInside(insns: seq<DisassembledInsn>) {
    && DirectJumps(insns)
    && forall k :: 0 <= k < |insns| ==> TargetInside(insns, insns[k])
  }

  predicate TargetInside(insns: seq<DisassembledInsn>, insn: DisassembledInsn) {
    Cfg.JumpTarget(insn).Some? ==> IsAddress(insns, Cfg.JumpTarget(insn).value)
  }

  /** The index of the instruction at an address; the length when there is none. */
  function IndexOf(insns: seq<DisassembledInsn>, a: nat): (k: nat)
    ensures k <= |insns|
    ensures k < |insns| ==> insns[k].address == a
    ensures k == |insns| ==> !IsAddress(insns, a)
  {
    if insns == [] || insns[0].address == a then 0 else 1 + IndexOf(insns[1..], a)
  }

  /** Before instruction k (past the last one when k is the length), after a return, or undefined. */
  datatype FlatConfig = At(k: nat, state: CState) | Over(state: CState) | Broken

  function TargetOfInsn(insn: DisassembledInsn): nat {
    ParseHexTarget(insn.opStr).GetOr(0)
  }

  /** What the lines of the instruction do to the state. */
  ghost function Effect(insn: DisassembledInsn, names: Names, s: CState, callee: Callee): COutcome {
    ExecLines(InsnLines(insn, names), s, callee)
  }

  /** jmp goes to its target, a conditional jump goes there exactly when its condition is taken, the forms
      lifted to returns end the run, and everything else goes on to the next instruction. */
  ghost function Advance(insns: seq<DisassembledInsn>, names: Names, callee: Callee, c: FlatConfig): FlatConfig {
    if !c.At? then c
    else if c.k >= |insns| then Over(c.state)
    else
      var insn := insns[c.k];
      match FormOfInsn(insn)
      case FJmp => At(IndexOf(insns, TargetOfInsn(insn)), c.state)
      case FJcc(cond) =>
        At(if Taken(cond, c.state.regs(RFlags)) then IndexOf(insns, TargetOfInsn(insn)) else c.k + 1, c.state)
      case FRet => Over(c.state)
      case _ =>
        var r := Effect(insn, names, c.state, callee);
        if r.Defined? then At(c.k + 1, r.state) else Broken
  }

  ghost function Execute(insns: seq<DisassembledInsn>, names: Names, callee: Callee, s: CState, n: nat): FlatConfig {
    if n == 0 then At(0, s) else Advance(insns, names, callee, Execute(insns, names, callee, s, n - 1))
  }

  function Visiting(insns: seq<DisassembledInsn>, c: FlatConfig): seq<nat> {
    if c.At? && c.k < |insns| then [c.k] else []
  }

  /** The instructions visited in the first n steps, in order. */
  ghost function Visited(insns: seq<DisassembledInsn>, names: Names, callee: Callee, s: CState, n: nat): seq<nat> {
    if n == 0 then Visiting(insns, At(0, s))
    else
      Visited(insns, names, callee, s, n - 1)
      + if Execute(insns, names, callee, s, n - 1).At? then Visiting(insns, Execute(insns, names, callee, s, n)) else []
  }

  // The outcome of an instruction's lines, form by form.

  lemma LinesOfOne(op: Opcode, names: Names)
    ensures LinesOf([op], names) == [EmitOpcode(op, names)]
  {
    hide EmitOpcode;
  }

  lemma JmpLifted(mn: string, text: string, addr: nat, next: nat, versions: Versions)
    ensures LiftForm(FJmp, mn, [text], addr, next, versions).ops == [LiftJmp(text, versions)]
  {
    hide LiftJmp;
  }

  lemma JccLifted(c: Condition, mn: string, operands: seq<string>, addr: nat, next: nat, versions: Versions)
    ensures LiftForm(FJcc(c), mn, operands, addr, next, versions).ops == [Jcc(c, BranchTarget(operands), next)]
  {
    hide BranchTarget;
  }

  lemma RetLifted(mn: string, operands: seq<string>, addr: nat, next: nat, versions: Versions)
    ensures LiftForm(FRet, mn, operands, addr, next, versions).ops == [Ret]
  {
  }

  lemma JmpLines(insn: DisassembledInsn, names: Names)
    requires FormOfInsn(insn) == FJmp && HexForm(insn.opStr)
    ensures InsnLines(insn, names) == [[CGoto(TargetOfInsn(insn))]]
  {
    hide LiftForm, FormOf, Mnemonic, ParseOperandsSpec, HexForm, ParseHexTarget, LinesOf;
    TargetsAgree(insn.opStr);
    LiftedTarget(insn.opStr, map[]);
    JmpLifted(Mnemonic(insn), Trim(insn.opStr), insn.address, insn.address + insn.size, map[]);
    TargetKnown(insn.opStr);
    LinesOfOne(Jmp(ParseHexTarget(insn.opStr).value), names);
  }

  lemma TargetKnown(text: string)
    requires HexForm(text)
    ensures ParseHexTarget(text).Some?
  {
  }

  lemma JccLines(insn: DisassembledInsn, c: Condition, names: Names)
    requires FormOfInsn(insn) == FJcc(c) && HexForm(insn.opStr)
    ensures InsnLines(insn, names) == [[CIfGoto(EmitCondition(c), TargetOfInsn(insn))]]
  {
    hide LiftForm, FormOf, Mnemonic, ParseOperandsSpec, HexForm, ParseHexTarget, LinesOf, EmitCondition, BranchTarget;
    var next := insn.address + insn.size;
    TargetsAgree(insn.opStr);
    LiftedTarget(insn.opStr, map[]);
    JccLifted(c, Mnemonic(insn), [Trim(insn.opStr)], insn.address, next, map[]);
    TargetKnown(insn.opStr);
    LinesOfOne(Jcc(c, ParseHexTarget(insn.opStr).value, next), names);
  }

  lemma RetLines(insn: DisassembledInsn, names: Names)
    requires FormOfInsn(insn) == FRet
    ensures InsnLines(insn, names) == [[CReturnRax]]
  {
    hide LiftForm, FormOf, Mnemonic, ParseOperandsSpec, LinesOf;
    RetLifted(Mnemonic(insn), ParseOperandsSpec(insn.opStr), insn.address, insn.address + insn.size, map[]);
    LinesOfOne(Ret, names);
  }

  predicate StaysStmt(st: CStmt) {
    !st.CGoto? && !st.CIfGoto? && !st.CReturnRax?
  }

  predicate StaysLine(line: CLine) {
    forall i :: 0 <= i < |line| ==> StaysStmt(line[i])
  }

  lemma {:induction false} LineStays(line: CLine, s: CState, callee: Callee)
    requires StaysLine(line)
    ensures ExecLine(line, s, callee).Defined? ==> ExecLine(line, s, callee).next.Onward?
    decreases |line|
  {
    hide Word, Eval;
    if line != [] {
      assert StaysStmt(line[0]);
      var r := ExecStmt(line[0], s, callee);
      if r.Defined? {
        LineStays(line[1..], r.state, callee);
      }
    }
  }

  lemma {:induction false} LinesStay(lines: seq<CLine>, s: CState, callee: Callee)
    requires forall i :: 0 <= i < |lines| ==> StaysLine(lines[i])
    ensures ExecLines(lines, s, callee).Defined? ==> ExecLines(lines, s, callee).next.Onward?
    decreases |lines|
  {
    hide ExecLine, StaysLine;
    if lines != [] {
      LineStays(lines[0], s, callee);
      var r := ExecLine(lines[0], s, callee);
      if r.Defined? {
        LinesStay(lines[1..], r.state, callee);
      }
    }
  }

  predicate PassesControl(op: Opcode) {
    op.Jmp? || op.Jcc? || op.Ret?
  }

  lemma OpcodeStays(op: Opcode, names: Names)
    requires !PassesControl(op)
    ensures StaysLine(EmitOpcode(op, names))
  {
    hide EmitOperand, EmitAddr, EmitCondition, PackedCompare, AtomicOp, ResolveCallName, SanitiseIdent;
  }

  /** Only the two jump arms and the return arm pass control. */
  lemma PlainFormsStay(form: Form, mn: string, operands: seq<string>, addr: nat, next: nat, versions: Versions)
    requires !form.FJmp? && !form.FJcc? && !form.FRet?
    ensures forall op :: op in LiftForm(form, mn, operands, addr, next, versions).ops ==> !PassesControl(op)
  {
    hide ParseSingleOperand, ParseMemoryOperandSpec, DstBase, IsMemoryOperand, ParseRegister, ParseImmediate, Bump, Fresh;
  }

  lemma PlainEffect(insn: DisassembledInsn, names: Names, s: CState, callee: Callee)
    requires var form := FormOfInsn(insn); !form.FJmp? && !form.FJcc? && !form.FRet?
    ensures Effect(insn, names, s, callee).Defined? ==> Effect(insn, names, s, callee).next.Onward?
  {
    hide LiftForm, FormOf, Mnemonic, ParseOperandsSpec, EmitOpcode, PassesControl, StaysLine, ExecLines;
    var ops := LiftInsn(insn, map[]).ops;
    PlainFormsStay(FormOfInsn(insn), Mnemonic(insn), ParseOperandsSpec(insn.opStr), insn.address, insn.address + insn.size, map[]);
    var lines := InsnLines(insn, names);
    forall i | 0 <= i < |lines| ensures StaysLine(lines[i]) {
      assert ops[i] in ops;
      OpcodeStays(ops[i], names);
    }
    LinesStay(lines, s, callee);
  }

  lemma JccEffect(c: Condition, t: nat, s: CState, callee: Callee)
    ensures ExecLines([[CIfGoto(EmitCondition(c), t)]], s, callee)
            == Defined(s, if Taken(c, s.regs(RFlags)) then ToLabel(t) else Onward)
  {
    hide EmitCondition, Taken, ExecLines, Word;
    OneStatement(CIfGoto(EmitCondition(c), t), s, callee);
    ConditionEmitted(c, s);
  }

  /** For any text with direct jumps, what the lines of an instruction do, form by form. */
  lemma EffectExactly(insn: DisassembledInsn, names: Names, s: CState, callee: Callee)
    requires DirectJump(insn)
    ensures var r, t := Effect(insn, names, s, callee), TargetOfInsn(insn);
      match FormOfInsn(insn)
      case FJmp => r == Defined(s, ToLabel(t))
      case FJcc(c) => r == Defined(s, if Taken(c, s.regs(RFlags)) then ToLabel(t) else Onward)
      case FRet => r == Defined(s, Leaves)
      case _ => r.Defined? ==> r.next.Onward?
  {
    hide FormOf, Mnemonic, HexForm, ParseHexTarget, InsnLines, ExecLines, Taken, Cfg.IsJump;
    match FormOfInsn(insn)
    case FJmp =>
      JmpLines(insn, names);
      OneStatement(CGoto(TargetOfInsn(insn)), s, callee);
    case FJcc(c) =>
      JccLines(insn, c, names);
      JccEffect(c, TargetOfInsn(insn), s, callee);
    case FRet =>
      RetLines(insn, names);
      OneStatement(CReturnRax, s, callee);
    case _ => PlainEffect(insn, names, s, callee);
  }

  // Steps of the list and steps of the graph.

  /** The CFG sees the target of a lifted jump, and it is inside. */
  lemma TargetFound(insns: seq<DisassembledInsn>, k: nat)
    requires JumpsStayInside(insns) && k < |insns|
    requires FormOfInsn(insns[k]).FJmp? || FormOfInsn(insns[k]).FJcc?
    ensures var l := IndexOf(insns, TargetOfInsn(insns[k]));
      && l < |insns| && insns[l].address == TargetOfInsn(insns[k])
      && Cfg.JumpsTo(insns[k], insns[l].address) && Cfg.JumpTarget(insns[k]) == Some(insns[l].address)
  {
    hide FormOf, Mnemonic, ParseHexTarget, Cfg.IsJump;
    assert DirectJump(insns[k]) && TargetInside(insns, insns[k]);
    TargetKnown(insns[k].opStr);
  }

  lemma JmpForm()
    ensures FormOf("jmp", false) == FJmp
  {
    assert "jmp"[0] == 'j' && "jmp"[1] == 'm';
  }

  lemma RetForm(mn: string)
    requires mn == "ret" || mn == "retn"
    ensures FormOf(mn, false) == FRet
  {
    assert mn[0] == 'r' && mn[1] == 'e';
  }

  lemma HltForm()
    ensures FormOf("hlt", false) == FRet
  {
    assert "hlt"[0] == 'h' && "hlt"[1] == 'l';
  }

  lemma TrapForm()
    ensures FormOf("int3", false) == FRet
  {
    assert "int3"[0] == 'i' && "int3"[2] == 't';
  }

  lemma UndefinedForm()
    ensures FormOf("ud2", false) == FRet
  {
    assert "ud2"[0] == 'u' && "ud2"[1] == 'd';
  }

  lemma LeavingPlain(mn: string)
    requires mn in ["jmp", "ret", "retn", "hlt", "int3", "ud2"]
    ensures NoUpper(mn) && !("lock " <= mn)
  {
    assert mn != "" && mn[0] != 'l';
  }

  /** What does not fall through is lifted to a jump or a return. */
  lemma LeavingForm(insn: DisassembledInsn)
    requires !Cfg.FallsThrough(insn.mnemonic)
    ensures FormOfInsn(insn) == if insn.mnemonic == "jmp" then FJmp else FRet
  {
    hide FormOf;
    var mn := insn.mnemonic;
    LeavingPlain(mn);
    ToLowerFixed(mn);
    JmpForm();
    HltForm();
    TrapForm();
    UndefinedForm();
    if Cfg.IsReturn(mn) {
      RetForm(mn);
    }
  }

  /** A mnemonic that the CFG takes for a jump falls through exactly when it is not jmp. */
  lemma ConditionalFalls(mn: string)
    requires Cfg.IsJump(mn)
    ensures Cfg.FallsThrough(mn) <==> mn != "jmp"
  {
    hide Cfg.IsCondJump, Cfg.IsHalt;
    CfgWalk.MnemonicsDisjoint(mn);
  }

  lemma JccFalls(insn: DisassembledInsn)
    requires FormOfInsn(insn).FJcc? && DirectJump(insn)
    ensures Cfg.FallsThrough(insn.mnemonic)
  {
    hide FormOf, HexForm, Cfg.IsJump, Cfg.FallsThrough;
    ConditionalFalls(insn.mnemonic);
    if insn.mnemonic == "jmp" {
      LeavingForm(insn);
    }
  }

  lemma JmpNeverFalls(insn: DisassembledInsn)
    requires FormOfInsn(insn) == FJmp && DirectJump(insn)
    ensures !Cfg.FallsThrough(insn.mnemonic)
  {
    hide FormOf, HexForm, Cfg.IsJump, Cfg.FallsThrough;
    ConditionalFalls(insn.mnemonic);
    if insn.mnemonic != "jmp" {
      ConditionalForm(insn);
    }
  }

  lemma ConditionalForm(insn: DisassembledInsn)
    requires Cfg.IsJump(insn.mnemonic) && insn.mnemonic != "jmp"
    ensures FormOfInsn(insn).FJcc?
  {
    hide FormOf, Cfg.IsJump;
    var mn := insn.mnemonic;
    JumpIsPlain(mn);
    ToLowerFixed(mn);
    ConditionalMnemonic(mn);
  }

  lemma ConditionalMnemonic(mn: string)
    requires |mn| >= 2 && mn[0] == 'j' && mn[1] != 'm'
    ensures FormOf(mn, false).FJcc? && !("lock " <= mn)
  {
    hide ParseConditionSuffix;
  }

  /** A step of the list that stays in it is a step that the CFG allows. */
  lemma AdvanceIsFlatStep(insns: seq<DisassembledInsn>, names: Names, callee: Callee, k: nat, s: CState)
    requires Contiguous(insns) && JumpsStayInside(insns) && k < |insns|
    ensures var c := Advance(insns, names, callee, At(k, s));
      c.At? ==> c.k <= |insns| && (c.k < |insns| ==> CfgWalk.FlatStep(insns, k, c.k))
  {
    hide FormOf, Mnemonic, Effect, Taken, JumpsStayInside, Cfg.JumpsTo, Cfg.FallsThrough, ParseHexTarget, IndexOf;
    var form := FormOfInsn(insns[k]);
    if form.FJmp? || form.FJcc? {
      TargetFound(insns, k);
    }
    if form.FJcc? {
      InsideIsDirect(insns, k);
      JccFalls(insns[k]);
    }
    if !form.FJmp? && !form.FRet? && !Cfg.FallsThrough(insns[k].mnemonic) {
      LeavingForm(insns[k]);
    }
    if k + 1 < |insns| {
      assert insns[k + 1].address == insns[k].address + insns[k].size;
    }
  }

  lemma InsideIsDirect(insns: seq<DisassembledInsn>, k: nat)
    requires JumpsStayInside(insns) && k < |insns|
    ensures DirectJump(insns[k])
  {
  }
}
