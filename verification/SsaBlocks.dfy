/** Erasure of versions for whole blocks: with their final jump or return, and for the subset's own text. */
module SsaBlocks {
  import opened Wrappers
  import opened Words
  import opened Ir
  import opened Operands
  import opened Frontend
  import LiftProofs
  import opened Lifter
  import opened CLang
  import opened Backend
  import opened X86
  import opened Capstone
  import opened OperandProofs
  import opened Flags
  import opened Instructions
  import opened Versioning
  import opened SsaErasure
  import opened FlatMachine

  // Blocks with a control terminator.

  /** Where a jump or a return goes, given the packed flags. */
  ghost function ControlOf(op: Opcode, flags: word): CNext
    requires PassesControl(op)
  {
    match op
    case Jmp(t) => ToLabel(t)
    case Jcc(c, t, _) => if Taken(c, flags) then ToLabel(t) else Onward
    case Ret => Leaves
  }

  /** Both run into the undefined, or the latest versions are in the registers and control goes where the
      last opcode says on the versioned machine's flags. */
  ghost predicate BlockAgrees(t: Option<SsaState>, last: Opcode, after: Versions, r: COutcome)
    requires PassesControl(last)
  {
    if t.None? then r == Undefined
    else r.Defined? && Latest(t.value, after, r.state) && r.next == ControlOf(last, t.value.flags)
  }

  lemma {:induction false} ThreadsSplit(a: seq<Opcode>, b: seq<Opcode>, before: Versions, after: Versions)
    returns (mid: Versions)
    requires Threads(a + b, before, after)
    ensures Threads(a, before, mid) && Threads(b, mid, after)
    decreases |a|
  {
    hide Fits, After;
    if a == [] {
      assert a + b == b;
      mid := before;
    } else {
      assert (a + b)[0] == a[0] && (a + b)[1..] == a[1..] + b;
      mid := ThreadsSplit(a[1..], b, After(a[0], before), after);
    }
  }

  lemma ControlKeepsVersions(op: Opcode, before: Versions, after: Versions)
    requires PassesControl(op) && Threads([op], before, after)
    ensures before == after
  {
    assert [op][1..] == [];
  }

  lemma ControlLine(op: Opcode, s: CState, names: Names, callee: Callee)
    requires PassesControl(op)
    ensures ExecLines(LinesOf([op], names), s, callee) == Defined(s, ControlOf(op, s.regs(RFlags)))
  {
    hide EmitCondition, Taken, ExecLines, Word;
    OneOp(op, names);
    match op
    case Jmp(t) => OneStatement(CGoto(t), s, callee);
    case Jcc(c, t, _) => JccEffect(c, t, s, callee);
    case Ret => OneStatement(CReturnRax, s, callee);
  }

  lemma LinesAppend(a: seq<Opcode>, b: seq<Opcode>, names: Names)
    ensures LinesOf(a + b, names) == LinesOf(a, names) + LinesOf(b, names)
  {
    hide EmitOpcode;
  }

  lemma CodeThenControl(front: seq<Opcode>, last: Opcode, s: SsaState, versions: Versions, after: Versions, c: CState,
                        names: Names, callee: Callee)
    requires Threads(front + [last], versions, after) && Erasable(front) && PassesControl(last) && Latest(s, versions, c)
    ensures BlockAgrees(SsaRun(front, s), last, after, ExecLines(LinesOf(front + [last], names), c, callee))
  {
    hide Erasable, Threads, LinesOf, ExecLines, SsaRun, ControlOf;
    var mid := ThreadsSplit(front, [last], versions, after);
    ControlKeepsVersions(last, mid, after);
    CodeErased(front, s, versions, mid, c, names, callee);
    LinesAppend(front, [last], names);
    LinesThen(LinesOf(front, names), LinesOf([last], names), c, callee);
    var r := ExecLines(LinesOf(front, names), c, callee);
    if r.Defined? {
      ControlLine(last, r.state, names, callee);
    }
  }

  /** For every block, given as text, that ends in a jump or a return after straight code that does not read
      itself: the versioned IR and the printed lines agree on the latest version of every register, on
      memory and flags, on where control goes, and on being undefined. */
  lemma BlockErasureIsSound(insns: seq<DisassembledInsn>, s: SsaState, c: CState, names: Names, callee: Callee)
    requires var ops := Opcodes(LiftInsns(insns).code);
      ops != [] && PassesControl(ops[|ops| - 1]) && Erasable(ops[..|ops| - 1])
    requires Latest(s, map[], c)
    ensures var ops := Opcodes(LiftInsns(insns).code);
      BlockAgrees(SsaRun(ops[..|ops| - 1], s), ops[|ops| - 1], LiftInsns(insns).versions,
                  ExecLines(LinesOf(ops, names), c, callee))
  {
    hide LiftInsns, Opcodes, Threads, Latest, Erasable, BlockAgrees, LinesOf;
    var ops := Opcodes(LiftInsns(insns).code);
    BlockThreads(insns);
    assert ops == ops[..|ops| - 1] + [ops[|ops| - 1]];
    CodeThenControl(ops[..|ops| - 1], ops[|ops| - 1], s, map[], LiftInsns(insns).versions, c, names, callee);
  }

  // The subset.

  predicate StraightInsn(i: XInsn) {
    !(i.XJmp? || i.XJcc? || i.XPush? || i.XPop? || i.XLeave? || i.XRet?)
  }

  /** A move to a register or an address computation whose source mentions its destination. */
  predicate MentionsItself(i: XInsn) {
    match i
    case XMov(XReg(r), s) => s.Uses(r)
    case XLea(to, m) => m.Uses(to)
    case _ => false
  }

  lemma OperandTyped(op: XOp, versions: Versions)
    requires op.Valid()
    ensures NoFlags(IdsOf(OperandOf(op, versions))) && Scaled(OperandOf(op, versions))
    ensures OperandOf(op, versions).Imm? <==> op.XImm?
    ensures op.XMemory? ==> OperandOf(op, versions) == MemOperandOf(op.mem, versions)
  {
  }

  lemma AddressTyped(m: XMem, versions: Versions)
    requires m.Valid()
    ensures NoFlags(IdsOf(MemOperandOf(m, versions))) && Scaled(MemOperandOf(m, versions))
  {
  }

  /** The new version of r is among the variables of an operand exactly when the operand uses r. */
  lemma UsesNewVersion(op: XOp, r: Gpr, versions: Versions)
    requires op.Valid()
    ensures Fresh(versions, r) in IdsOf(OperandOf(op, Bump(versions, r))) <==> op.Uses(r)
  {
  }

  lemma ConstantTyped(n: nat, versions: Versions)
    requires n < 256
    ensures OperandOf(XImm(n), versions) == Imm(n)
  {
  }

  lemma MovTyped(i: XInsn, mn: string, addr: nat, next: nat, versions: Versions)
    requires (i.XMov? || i.XLea?) && i.Encodable()
    ensures var op := LiftProofs.Lowered(i, mn, addr, next, versions)[0];
      Straight(op) && Typed(op) && (ReadsItself(op) <==> MentionsItself(i))
  {
    hide OperandOf, MemOperandOf, Scaled, NoFlags, XMem.Uses, XMem.Valid, Bump;
    if i.XMov? {
      OperandTyped(i.src, versions);
      if i.dst.XReg? {
        OperandTyped(i.src, Bump(versions, i.dst.reg));
        UsesNewVersion(i.src, i.dst.reg, versions);
      } else {
        AddressTyped(i.dst.mem, versions);
      }
      TwoSets(if i.dst.XMemory? then IdsOf(MemOperandOf(i.dst.mem, versions)) else {}, IdsOf(OperandOf(i.src, versions)));
    } else {
      AddressTyped(i.mem, Bump(versions, i.to));
      UsesNewVersion(XMemory(i.mem), i.to, versions);
      OperandTyped(XMemory(i.mem), Bump(versions, i.to));
    }
  }

  lemma TwoSets(a: set<VarId>, b: set<VarId>)
    ensures NoFlags(a) && NoFlags(b) ==> NoFlags(a + b)
  {
  }

  lemma AluTyped(i: XInsn, mn: string, addr: nat, next: nat, versions: Versions)
    requires (i.XAlu? || i.XImul? || i.XImul3? || i.XShift?) && i.Encodable()
    ensures var op := LiftProofs.Lowered(i, mn, addr, next, versions)[0];
      Straight(op) && Typed(op) && !ReadsItself(op)
  {
    hide OperandOf, Scaled, XMem.Valid, IdsOf, NoFlags;
    match i
    case XAlu(_, d, s) => BothTyped(d, s, versions);
    case XImul(to, s) => BothTyped(XReg(to), s, versions);
    case XImul3(_, s, v) => BothTyped(s, XImm(v), versions);
    case XShift(_, d, n) => BothTyped(d, XImm(n), versions); ConstantTyped(n, versions);
  }

  lemma OtherTyped(i: XInsn, mn: string, addr: nat, next: nat, versions: Versions)
    requires StraightInsn(i) && !i.XMov? && !i.XLea? && i.Encodable()
    ensures var op := LiftProofs.Lowered(i, mn, addr, next, versions)[0];
      Straight(op) && Typed(op) && !ReadsItself(op)
  {
    hide OperandOf, Scaled, XMem.Valid, IdsOf, NoFlags;
    if i.XAlu? || i.XImul? || i.XImul3? || i.XShift? {
      AluTyped(i, mn, addr, next, versions);
    } else {
      NoneAndOne(versions);
      match i
      case XCmp(l, r) => BothTyped(l, r, versions);
      case XTest(l, r) => BothTyped(l, r, versions);
      case XCmov(_, _, s) => OperandTyped(s, versions);
      case _ =>
    }
  }

  lemma BothTyped(a: XOp, b: XOp, versions: Versions)
    requires a.Valid() && b.Valid()
    ensures var l, r := OperandOf(a, versions), OperandOf(b, versions);
      NoFlags(IdsOf(l) + IdsOf(r)) && Scaled(l) && Scaled(r) && (l.Imm? <==> a.XImm?)
  {
    hide OperandOf, IdsOf, Scaled;
    OperandTyped(a, versions);
    OperandTyped(b, versions);
    TwoSets(IdsOf(OperandOf(a, versions)), IdsOf(OperandOf(b, versions)));
  }

  lemma RegisterTyped(b: VarBase, versions: Versions)
    requires b != RFlags
    ensures var v := IdsOf(Var(CurrentVar(versions, b))); NoFlags(v) && NoFlags(v + IdsOf(Imm(1)))
  {
    TwoSets(IdsOf(Var(CurrentVar(versions, b))), IdsOf(Imm(1)));
  }

  lemma NoneAndOne(versions: Versions)
    ensures NoFlags({}) && Scaled(Imm(1)) && forall v :: Scaled(Var(v))
    ensures forall b: VarBase :: b != RFlags ==>
              NoFlags(IdsOf(Var(CurrentVar(versions, b)))) && NoFlags(IdsOf(Var(CurrentVar(versions, b))) + IdsOf(Imm(1)))
  {
    hide IdsOf, CurrentVar, NoFlags;
    EmptyTyped();
    forall b: VarBase | b != RFlags
      ensures NoFlags(IdsOf(Var(CurrentVar(versions, b)))) && NoFlags(IdsOf(Var(CurrentVar(versions, b))) + IdsOf(Imm(1)))
    {
      RegisterTyped(b, versions);
    }
  }

  lemma EmptyTyped()
    ensures NoFlags({})
  {
  }

  /** The text of every straight subset instruction is lifted to one typed, straight opcode, which reads
      itself exactly when the instruction mentions its own destination. */
  lemma SubsetTyped(line: XLine, versions: Versions)
    requires line.insn.Encodable() && StraightInsn(line.insn)
    ensures var ops := LiftInsn(Disassemble(line), versions).ops;
      |ops| == 1 && Straight(ops[0]) && Typed(ops[0]) && (ReadsItself(ops[0]) <==> MentionsItself(line.insn))
  {
    hide LiftInsn, LiftProofs.Lowered, Straight, Typed, ReadsItself, MnemonicText, Disassemble;
    var i, mn, next := line.insn, MnemonicText(line.insn), line.address + line.size;
    LiftProofs.InstructionLifted(line, versions);
    OneLowered(i, mn, line.address, next, versions);
    if i.XMov? || i.XLea? {
      MovTyped(i, mn, line.address, next, versions);
    } else {
      OtherTyped(i, mn, line.address, next, versions);
    }
  }

  lemma OneLowered(i: XInsn, mn: string, addr: nat, next: nat, versions: Versions)
    requires i.Encodable() && StraightInsn(i)
    ensures |LiftProofs.Lowered(i, mn, addr, next, versions)| == 1
  {
    hide OperandOf, MemOperandOf;
  }

  lemma ErasableSnoc(ops: seq<Opcode>, op: Opcode)
    ensures Erasable(ops + [op]) <==> Erasable(ops) && Straight(op) && Typed(op) && !ReadsItself(op)
  {
    hide Straight, Typed, ReadsItself;
    var all := ops + [op];
    assert all[|ops|] == op && forall i :: 0 <= i < |ops| ==> all[i] == ops[i];
  }

  /** A block of straight subset instructions can be erased exactly when none mentions its own destination. */
  lemma {:induction false} SubsetErasable(p: seq<XLine>)
    requires forall k :: 0 <= k < |p| ==> p[k].insn.Encodable() && StraightInsn(p[k].insn)
    ensures Erasable(Opcodes(LiftInsns(Disassembly(p)).code))
            <==> forall k :: 0 <= k < |p| ==> !MentionsItself(p[k].insn)
    decreases |p|
  {
    hide LiftInsn, Erasable, Straight, Typed, ReadsItself, MentionsItself, Disassemble, Opcodes, StraightInsn, XInsn.Encodable;
    var insns := Disassembly(p);
    if p == [] {
      NothingErasable();
    } else {
      var front, last := p[..|p| - 1], p[|p| - 1];
      assert Disassembly(front) == insns[..|insns| - 1];
      SubsetErasable(front);
      var before := LiftInsns(Disassembly(front));
      SubsetTyped(last, before.versions);
      var ops := LiftInsn(Disassemble(last), before.versions).ops;
      LocatedOpcodes(before.code, last.address, ops);
      DisassembledAddress(last);
      ErasableSnoc(Opcodes(before.code), ops[0]);
      assert ops == [ops[0]];
    }
  }

  lemma DisassembledAddress(line: XLine)
    ensures Disassemble(line).address == line.address
  {
  }

  lemma NothingErasable()
    ensures Erasable(Opcodes([]))
  {
  }
}
