/** An invariant of whole C runs: what cpu.rflags can hold. */
module FlagRuns {
  import opened Wrappers
  import opened Ir
  import opened Operands
  import opened Frontend
  import Text
  import Cfg
  import opened Lifter
  import opened CLang
  import opened Backend
  import opened Flags
  import opened Layout
  import opened Versioning

  ghost predicate Packs(c: CState) {
    c.regs(RFlags) in PACKED
  }

  ghost predicate CalleeKeepsPacked(callee: Callee) {
    forall st: CStmt, s: CState :: Packs(s) ==> Packs(callee(st, s))
  }

  ghost predicate StmtKeeps(st: CStmt, callee: Callee) {
    forall s :: Packs(s) ==> var r := ExecStmt(st, s, callee); r.Defined? ==> Packs(r.state)
  }

  ghost predicate LineKeeps(line: CLine, callee: Callee) {
    forall i :: 0 <= i < |line| ==> StmtKeeps(line[i], callee)
  }

  lemma {:induction false} LineKept(line: CLine, s: CState, callee: Callee)
    requires LineKeeps(line, callee) && Packs(s)
    ensures ExecLine(line, s, callee).Defined? ==> Packs(ExecLine(line, s, callee).state)
    decreases |line|
  {
    hide ExecStmt, Packs;
    if line != [] {
      assert StmtKeeps(line[0], callee);
      var r := ExecStmt(line[0], s, callee);
      if r.Defined? && r.next.Onward? {
        LineKept(line[1..], r.state, callee);
      }
    }
  }

  // Statements.

  lemma OtherAssignKeeps(d: VarBase, e: CExpr, callee: Callee)
    requires d != RFlags
    ensures StmtKeeps(CAssign(d, e), callee)
  {
  }

  lemma PlainStmtKeeps(st: CStmt, callee: Callee)
    requires !st.CAssign? && CalleeKeepsPacked(callee)
    ensures StmtKeeps(st, callee)
  {
    hide Eval;
  }

  /** A statement that assigns rflags only values that are packed. */
  lemma FlagAssignKeeps(e: CExpr, callee: Callee)
    requires forall s :: Word(e, s).Some? ==> Word(e, s).value in PACKED
    ensures StmtKeeps(CAssign(RFlags, e), callee)
  {
    hide Eval, Word;
  }

  lemma Unevaluated(l: CExpr, r: CExpr, s: CState)
    ensures Word(l, s).None? || Word(r, s).None? ==> Word(PackedCompare(l, r), s).None?
  {
    assert Word(l, s).None? ==> Eval(CToUnsigned(l), s).None?;
    assert Word(r, s).None? ==> Eval(CToUnsigned(r), s).None?;
    var eq := CBin(CEq, CToUnsigned(l), CToUnsigned(r));
    if Eval(eq, s).None? {
      PackedNeedsFirst(eq, CBin(CLt, CToUnsigned(l), CToUnsigned(r)), CBin(CLt, CToSigned(l), CToSigned(r)), s);
    }
  }

  lemma PackedNeedsFirst(eq: CExpr, lt: CExpr, sl: CExpr, s: CState)
    requires Eval(eq, s).None?
    ensures Word(Packed(eq, lt, sl), s).None?
  {
    assert Eval(CBin(COr, eq, CBin(CShl, lt, CInt(1))), s).None?;
  }

  lemma CmpValue(l: CExpr, r: CExpr, s: CState)
    ensures Word(PackedCompare(l, r), s).Some? ==> Word(PackedCompare(l, r), s).value in PACKED
  {
    hide Word, PackedCompare, PackCmp;
    Unevaluated(l, r, s);
    if Word(l, s).Some? && Word(r, s).Some? {
      CompareEmitted(l, r, s, Word(l, s).value, Word(r, s).value);
      CmpIsPacked(Word(l, s).value, Word(r, s).value);
    }
  }

  lemma TestValue(cond: CExpr, s: CState)
    ensures var w := Word(CCond(cond, CInt(1), CInt(0)), s); w.Some? ==> w.value in PACKED
  {
    assert Word(CInt(1), s) == Some(1) && Word(CInt(0), s) == Some(0);
    assert Word(CCond(cond, CInt(1), CInt(0)), s).Some? ==> Word(CCond(cond, CInt(1), CInt(0)), s).value in {0, 1};
  }

  // Opcodes.

  /** The opcode's destination is not rflags. */
  predicate SparesFlags(op: Opcode) {
    Defines(op).Some? ==> Defines(op).value.base != RFlags
  }

  lemma OneStmtKeeps(st: CStmt, callee: Callee)
    requires CalleeKeepsPacked(callee) && (st.CAssign? ==> st.dst != RFlags)
    ensures StmtKeeps(st, callee)
  {
    hide StmtKeeps, CalleeKeepsPacked;
    if st.CAssign? {
      OtherAssignKeeps(st.dst, st.e, callee);
    } else {
      PlainStmtKeeps(st, callee);
    }
  }

  lemma OpcodeKeeps(op: Opcode, names: Names, callee: Callee)
    requires SparesFlags(op) && CalleeKeepsPacked(callee)
    ensures LineKeeps(EmitOpcode(op, names), callee)
  {
    hide StmtKeeps, CalleeKeepsPacked, EmitOperand, EmitAddr, EmitCondition, PackedCompare, Word;
    var line := EmitOpcode(op, names);
    forall i | 0 <= i < |line| ensures StmtKeeps(line[i], callee) {
      match op
      case Cmp(l, r) =>
        var e := PackedCompare(EmitOperand(l), EmitOperand(r));
        forall s | Word(e, s).Some? ensures Word(e, s).value in PACKED {
          CmpValue(EmitOperand(l), EmitOperand(r), s);
        }
        FlagAssignKeeps(e, callee);
      case Test(l, r) =>
        var cond := CBin(CEq, CBin(CAnd, EmitOperand(l), EmitOperand(r)), CInt(0));
        var e := CCond(cond, CInt(1), CInt(0));
        forall s | Word(e, s).Some? ensures Word(e, s).value in PACKED {
          TestValue(cond, s);
        }
        FlagAssignKeeps(e, callee);
      case _ => OneStmtKeeps(line[i], callee);
    }
  }

  // Instructions.

  /** The first operand names the flags register. */
  predicate NamesFlags(insn: DisassembledInsn) {
    var operands := ParseOperandsSpec(insn.opStr);
    operands != [] && DstRegister(operands[0]) == Some(RFlags)
  }

  lemma FormSpares(form: Form, mn: string, operands: seq<string>, addr: nat, next: nat, versions: Versions)
    requires operands != [] ==> DstRegister(operands[0]) != Some(RFlags)
    ensures forall op :: op in LiftForm(form, mn, operands, addr, next, versions).ops ==> SparesFlags(op)
  {
    hide ParseSingleOperand, ParseMemoryOperandSpec, IsMemoryOperand, DstRegister, ParseRegister, ParseImmediate, BranchTarget;
  }

  lemma InsnSpares(insn: DisassembledInsn, versions: Versions)
    requires !NamesFlags(insn)
    ensures forall op :: op in LiftInsn(insn, versions).ops ==> SparesFlags(op)
  {
    hide LiftForm, FormOf, Mnemonic, ParseOperandsSpec, DstRegister, SparesFlags;
    var m := Mnemonic(insn);
    FormSpares(FormOf(m, "lock " <= Text.ToLower(insn.mnemonic)), m, ParseOperandsSpec(insn.opStr),
               insn.address, insn.address + insn.size, versions);
  }

  ghost predicate ItemsKeep(items: seq<CItem>, callee: Callee) {
    forall i :: 0 <= i < |items| && items[i].CCode? ==> LineKeeps(items[i].line, callee)
  }

  lemma InsnKeeps(insn: DisassembledInsn, names: Names, callee: Callee)
    requires !NamesFlags(insn) && CalleeKeepsPacked(callee)
    ensures ItemsKeep(InsnItems(insn, names), callee)
  {
    hide LiftInsn, EmitOpcode, NamesFlags, SparesFlags, CalleeKeepsPacked, LineKeeps;
    InsnSpares(insn, map[]);
    var ops, items := LiftInsn(insn, map[]).ops, InsnItems(insn, names);
    forall i | 0 <= i < |items| ensures LineKeeps(items[i].line, callee) {
      assert ops[i] in ops;
      OpcodeKeeps(ops[i], names, callee);
    }
  }

  lemma {:induction false} FlatKeeps(insns: seq<DisassembledInsn>, lead: nat -> bool, names: Names, n: nat, callee: Callee)
    requires n <= |insns| && CalleeKeepsPacked(callee)
    requires forall k :: 0 <= k < |insns| ==> !NamesFlags(insns[k])
    ensures ItemsKeep(FlatItems(insns, lead, names, n), callee)
    decreases n
  {
    hide InsnItems, NamesFlags, CalleeKeepsPacked, LineKeeps;
    if n > 0 {
      FlatKeeps(insns, lead, names, n - 1, callee);
      InsnKeeps(insns[n - 1], names, callee);
    }
  }

  lemma ProgramKeeps(func: DisassembledFunction, names: Names, callee: Callee)
    requires AscendingAddresses(func.instructions) && CalleeKeepsPacked(callee)
    requires forall k :: 0 <= k < |func.instructions| ==> !NamesFlags(func.instructions[k])
    ensures ItemsKeep(Decompile(func, names), callee)
  {
    hide EmitFunction, LiftFunction, Cfg.CfgOf, Cfg.Lead, FlatItems, NamesFlags, CalleeKeepsPacked, StmtKeeps;
    var insns := func.instructions;
    EmissionIsFlat(func, names);
    FlatKeeps(insns, Cfg.Lead(insns), names, |insns|, callee);
    ReturnKeeps(callee);
  }

  lemma ReturnKeeps(callee: Callee)
    ensures LineKeeps([CReturnRax], callee)
  {
  }

  // Runs.

  ghost predicate ConfigPacks(c: CConfig) {
    c.Running? || c.Returned? ==> Packs(c.state)
  }

  lemma StepKeeps(items: seq<CItem>, callee: Callee, c: CConfig)
    requires ItemsKeep(items, callee) && ConfigPacks(c)
    ensures ConfigPacks(CStep(items, callee, c))
  {
    hide LineKeeps, ExecLine, Packs;
    if c.Running? && c.pos < |items| && items[c.pos].CCode? {
      LineKept(items[c.pos].line, c.state, callee);
    }
  }

  lemma {:induction false} RunKeeps(items: seq<CItem>, callee: Callee, c: CConfig, n: nat)
    requires ItemsKeep(items, callee) && ConfigPacks(c)
    ensures ConfigPacks(CRun(items, callee, c, n))
  {
    hide ItemsKeep, ConfigPacks, CStep;
    if n > 0 {
      RunKeeps(items, callee, c, n - 1);
      StepKeeps(items, callee, CRun(items, callee, c, n - 1));
    }
  }

  /** For every function, whatever its instructions, that does not name the flags register as a
      destination: from a packed rflags (zero, at the start) every reachable state has a packed rflags,
      so exactly one of less, equal and greater holds, and exactly one of below, equal and above. */
  lemma FlagsStayPacked(func: DisassembledFunction, names: Names, callee: Callee, s: CState, n: nat)
    requires AscendingAddresses(func.instructions) && CalleeKeepsPacked(callee) && Packs(s)
    requires forall k :: 0 <= k < |func.instructions| ==> !NamesFlags(func.instructions[k])
    ensures var c := CRun(Decompile(func, names), callee, Running(0, s), n);
      c.Running? || c.Returned? ==>
        c.state.regs(RFlags) in PACKED && Trichotomous(c.state.regs(RFlags))
  {
    hide Decompile, ItemsKeep, Trichotomous, CalleeKeepsPacked, NamesFlags;
    ProgramKeeps(func, names, callee);
    RunKeeps(Decompile(func, names), callee, Running(0, s), n);
    var c := CRun(Decompile(func, names), callee, Running(0, s), n);
    if c.Running? || c.Returned? {
      Trichotomy(Less, c.state.regs(RFlags));
    }
  }
}
