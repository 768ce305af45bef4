/** Lifting the printed form of an instruction yields exactly the IR opcodes meant for it. */
module LiftProofs {
  import opened Wrappers
  import opened Words
  import opened Text
  import opened Ir
  import opened Operands
  import opened Frontend
  import opened Lifter
  import opened X86
  import opened Capstone
  import opened OperandProofs

  // Operand lists.

  lemma {:induction false} DepthWithoutBrackets(s: string, d: nat)
    requires Lacks(s, '[') && Lacks(s, ']') && (d > 0 || Lacks(s, ','))
    ensures DepthAfter(s, d) == Some(d)
  {
    if s != "" {
      DepthWithoutBrackets(s[1..], d);
    }
  }

  lemma {:induction false} DepthAppend(a: string, b: string, d: nat)
    requires DepthAfter(a, d).Some?
    ensures DepthAfter(a + b, d) == DepthAfter(b, DepthAfter(a, d).value)
  {
    if a == "" {
      assert a + b == b;
    } else {
      var s := a + b;
      assert s[0] == a[0] && s[1..] == a[1..] + b;
      DepthAppend(a[1..], b, if a[0] == '[' then d + 1 else if a[0] == ']' then d - 1 else d);
    }
  }

  lemma MemTextWellFormed(m: XMem, prefix: string)
    requires prefix == "" || prefix == "qword ptr "
    ensures WellFormedOperand(prefix + MemText(m))
  {
    var inner := MemInner(m);
    InnerShape(m);
    MemTextShape(m);
    DepthWithoutBrackets(prefix, 0);
    DepthWithoutBrackets(inner, 1);
    DepthAppend(inner, "]", 1);
    assert DepthAfter("]", 1) == Some(0);
    var tail := inner + "]";
    assert MemText(m) == "[" + tail && ("[" + tail)[1..] == tail;
    assert DepthAfter(MemText(m), 0) == Some(0);
    DepthAppend(prefix, MemText(m), 0);
    assert "" + MemText(m) == MemText(m);
  }

  lemma PlainWellFormed(s: string)
    requires Plain(s)
    ensures WellFormedOperand(s) && WellFormedOperand("-" + s)
  {
    PlainFacts(s);
    DepthWithoutBrackets(s, 0);
    DepthWithoutBrackets("-" + s, 0);
  }

  lemma RegNameWellFormed(r: Gpr)
    ensures WellFormedOperand(RegName(r))
  {
    RegNamePlain(r);
    PlainWellFormed(RegName(r));
  }

  lemma ImmTextWellFormed(v: int)
    ensures WellFormedOperand(ImmText(v))
  {
    var n := if v < 0 then -v else v;
    NatTextPlain(n);
    PlainWellFormed(NatText(n));
  }

  lemma OpTextWellFormed(op: XOp)
    ensures WellFormedOperand(OpText(op))
  {
    match op
    case XReg(r) => RegNameWellFormed(r);
    case XImm(v) => ImmTextWellFormed(v);
    case XMemory(m) => MemTextWellFormed(m, "qword ptr ");
  }

  lemma OperandTextsWellFormed(i: XInsn)
    ensures forall k :: 0 <= k < |OperandTexts(i)| ==> WellFormedOperand(OperandTexts(i)[k])
  {
    hide OpText, RegName, MemText, NatText, WellFormedOperand;
    match i
    case XMov(d, s) => OpTextWellFormed(d); OpTextWellFormed(s);
    case XLea(to, m) => RegNameWellFormed(to); MemTextWellFormed(m, ""); assert "" + MemText(m) == MemText(m);
    case XAlu(_, d, s) => OpTextWellFormed(d); OpTextWellFormed(s);
    case XImul(to, s) => RegNameWellFormed(to); OpTextWellFormed(s);
    case XImul3(to, s, v) => RegNameWellFormed(to); OpTextWellFormed(s); ImmTextWellFormed(v);
    case XShift(_, d, n) => OpTextWellFormed(d); ImmTextWellFormed(n);
    case XNot(d) => OpTextWellFormed(d);
    case XNeg(d) => OpTextWellFormed(d);
    case XInc(d) => OpTextWellFormed(d);
    case XDec(d) => OpTextWellFormed(d);
    case XCmp(l, r) => OpTextWellFormed(l); OpTextWellFormed(r);
    case XTest(l, r) => OpTextWellFormed(l); OpTextWellFormed(r);
    case XCmov(_, to, s) => RegNameWellFormed(to); OpTextWellFormed(s);
    case XJmp(t) => ImmTextWellFormed(t);
    case XJcc(_, t) => ImmTextWellFormed(t);
    case XPush(s) => OpTextWellFormed(s);
    case XPop(d) => OpTextWellFormed(d);
    case _ =>
  }

  /** The operand string of an instruction splits into its operands. */
  lemma OperandsRead(line: XLine)
    ensures ParseOperandsSpec(Disassemble(line).opStr) == OperandTexts(line.insn)
  {
    OperandTextsWellFormed(line.insn);
    SplitInvertsJoin(OperandTexts(line.insn));
  }

  // Mnemonics.

  /** The arm of the lifter that an instruction is meant for. */
  function FormFor(i: XInsn): Form {
    match i
    case XNop => FNop
    case XMov(_, _) => FMov
    case XLea(_, _) => FLea
    case XAlu(op, _, _) => FAlu(if op in {AddOp, SubOp, AndOp, OrOp} then op else XorOp)
    case XImul(_, _) => FAlu(MulOp)
    case XImul3(_, _, _) => FAlu(MulOp)
    case XShift(left, _, _) => FAlu(if left then ShlOp else ShrOp)
    case XNot(_) => FNot
    case XNeg(_) => FNeg
    case XInc(_) => FInc
    case XDec(_) => FDec
    case XCmp(_, _) => FCmp
    case XTest(_, _) => FTest
    case XCmov(c, _, _) => FCmov(c)
    case XJmp(_) => FJmp
    case XJcc(c, _) => FJcc(c)
    case XPush(_) => FPush
    case XPop(_) => FPop
    case XLeave => FLeave
    case XRet => FRet
  }

  lemma ConditionRead(c: Condition)
    ensures ConditionNamed(ConditionText(c)) == c
  {
  }

  lemma CmovForm(c: Condition)
    ensures FormOf("cmov" + ConditionText(c), false) == FCmov(c)
  {
    var m, t := "cmov" + ConditionText(c), ConditionText(c);
    assert m[0] == 'c' && m[1] == 'm' && m[2] == 'o' && m[3] == 'v' && m[4..] == t;
    ConditionRead(c);
    assert t[0] != 'j';
  }

  /** Any mnemonic in j but jmp is taken for a conditional jump. */
  lemma JumpForm(m: string)
    requires |m| >= 2 && m[0] == 'j' && m[1] != 'm'
    ensures FormOf(m, false) == FJcc(ParseConditionSuffix(m))
  {
    hide ParseConditionSuffix;
  }

  lemma JccForm(c: Condition)
    ensures FormOf("j" + ConditionText(c), false) == FJcc(c)
  {
    hide FormOf, ConditionNamed;
    var m, t := "j" + ConditionText(c), ConditionText(c);
    assert m[0] == 'j' && m[1] == t[0] && m[1..] == t && t[0] != 'm';
    JumpForm(m);
    ConditionRead(c);
  }

  lemma DataForm(i: XInsn)
    requires i.XNop? || i.XMov? || i.XLea?
    ensures FormOf(MnemonicText(i), false) == FormFor(i)
  {
  }

  lemma AluForm(i: XInsn)
    requires i.XAlu?
    ensures FormOf(MnemonicText(i), false) == FormFor(i)
  {
  }

  lemma ImulForm(i: XInsn)
    requires i.XImul? || i.XImul3?
    ensures FormOf(MnemonicText(i), false) == FormFor(i)
  {
  }

  lemma ShiftForm(i: XInsn)
    requires i.XShift?
    ensures FormOf(MnemonicText(i), false) == FormFor(i)
  {
  }

  lemma UnaryForm(i: XInsn)
    requires i.XNot? || i.XNeg?
    ensures FormOf(MnemonicText(i), false) == FormFor(i)
  {
  }

  lemma CompareForm(i: XInsn)
    requires i.XCmp? || i.XTest?
    ensures FormOf(MnemonicText(i), false) == FormFor(i)
  {
  }

  lemma PushForm(i: XInsn)
    requires i.XPush?
    ensures FormOf(MnemonicText(i), false) == FormFor(i)
  {
  }

  lemma PopForm(i: XInsn)
    requires i.XPop?
    ensures FormOf(MnemonicText(i), false) == FormFor(i)
  {
  }

  lemma RetForm(i: XInsn)
    requires i.XRet?
    ensures FormOf(MnemonicText(i), false) == FormFor(i)
  {
  }

  lemma JmpForm(i: XInsn)
    requires i.XJmp?
    ensures FormOf(MnemonicText(i), false) == FormFor(i)
  {
  }

  lemma IncForm()
    ensures FormOf("inc", false) == FInc
  {
    assert "inc"[0] == 'i' && "inc"[2] == 'c';
  }

  lemma DecForm()
    ensures FormOf("dec", false) == FDec
  {
    assert "dec"[0] == 'd';
  }

  lemma LeaveForm()
    ensures FormOf("leave", false) == FLeave
  {
    assert "leave"[0] == 'l' && "leave"[2] == 'a';
  }

  lemma FormRead(i: XInsn)
    ensures FormOf(MnemonicText(i), false) == FormFor(i)
  {
    hide FormOf;
    match i
    case XCmov(c, _, _) => CmovForm(c);
    case XJcc(c, _) => JccForm(c);
    case XInc(_) => IncForm();
    case XDec(_) => DecForm();
    case XLeave => LeaveForm();
    case XNop => DataForm(i);
    case XMov(_, _) => DataForm(i);
    case XLea(_, _) => DataForm(i);
    case XAlu(_, _, _) => AluForm(i);
    case XImul(_, _) => ImulForm(i);
    case XImul3(_, _, _) => ImulForm(i);
    case XShift(_, _, _) => ShiftForm(i);
    case XNot(_) => UnaryForm(i);
    case XNeg(_) => UnaryForm(i);
    case XCmp(_, _) => CompareForm(i);
    case XTest(_, _) => CompareForm(i);
    case XPush(_) => PushForm(i);
    case XPop(_) => PopForm(i);
    case XJmp(_) => JmpForm(i);
    case XRet => RetForm(i);
  }

  lemma MnemonicPlain(i: XInsn)
    ensures Plain(MnemonicText(i))
  {
    match i
    case XCmov(c, _, _) => ConditionPlain(c);
    case XJcc(c, _) => ConditionPlain(c);
    case _ =>
  }

  lemma ConditionPlain(c: Condition)
    ensures Plain(ConditionText(c))
  {
  }

  lemma MnemonicRead(line: XLine)
    ensures Mnemonic(Disassemble(line)) == MnemonicText(line.insn)
    ensures !("lock " <= ToLower(MnemonicText(line.insn)))
    ensures FormOf(MnemonicText(line.insn), false) == FormFor(line.insn)
  {
    var m := MnemonicText(line.insn);
    MnemonicPlain(line.insn);
    PlainFacts(m);
    assert "lock "[4] == ' ';
    assert !("lock " <= m);
    FormRead(line.insn);
  }

  // Instructions.

  /** The IR that each instruction stands for. A memory destination of an ALU operation, inc, dec
      or pop turns into rax; not and neg of memory are dropped. */
  function Lowered(i: XInsn, mn: string, addr: nat, next: nat, versions: Versions): seq<Opcode>
    requires i.Encodable()
  {
    match i
    case XNop => [Nop]
    case XMov(d, s) =>
      if d.XMemory? then [Store(MemOperandOf(d.mem, versions), OperandOf(s, versions))]
      else
        var dst, after := Fresh(versions, d.reg), Bump(versions, d.reg);
        if s.XMemory? then [Load(dst, MemOperandOf(s.mem, after))] else [Mov(dst, OperandOf(s, after))]
    case XLea(to, m) => [Lea(Fresh(versions, to), MemOperandOf(m, Bump(versions, to)))]
    case XAlu(op, d, s) =>
      [Alu(if op in {AddOp, SubOp, AndOp, OrOp} then op else XorOp,
           Fresh(versions, DestinationOf(d)), OperandOf(d, versions), OperandOf(s, versions))]
    case XImul(to, s) => [Alu(MulOp, Fresh(versions, to), OperandOf(XReg(to), versions), OperandOf(s, versions))]
    case XImul3(to, s, v) => [Alu(MulOp, Fresh(versions, to), OperandOf(s, versions), OperandOf(XImm(v), versions))]
    case XShift(left, d, n) =>
      [Alu(if left then ShlOp else ShrOp, Fresh(versions, DestinationOf(d)),
           OperandOf(d, versions), OperandOf(XImm(n), versions))]
    case XNot(d) =>
      if d.XMemory? then [Unknown(mn, addr)]
      else [Not(Fresh(versions, d.reg), Var(CurrentVar(versions, d.reg)))]
    case XNeg(d) =>
      if d.XMemory? then [Unknown(mn, addr)]
      else [Neg(Fresh(versions, d.reg), Var(CurrentVar(versions, d.reg)))]
    case XInc(d) =>
      var base := DestinationOf(d);
      [Alu(AddOp, Fresh(versions, base), Var(CurrentVar(versions, base)), Imm(1))]
    case XDec(d) =>
      var base := DestinationOf(d);
      [Alu(SubOp, Fresh(versions, base), Var(CurrentVar(versions, base)), Imm(1))]
    case XCmp(l, r) => [Cmp(OperandOf(l, versions), OperandOf(r, versions))]
    case XTest(l, r) => [Test(OperandOf(l, versions), OperandOf(r, versions))]
    case XCmov(c, to, s) => [Cmovcc(c, Fresh(versions, to), OperandOf(s, versions))]
    case XJmp(t) => [Jmp(t)]
    case XJcc(c, t) => [Jcc(c, t, next)]
    case XPush(s) => [Push(OperandOf(s, versions))]
    case XPop(d) => [Pop(Fresh(versions, DestinationOf(d)))]
    case XLeave => LiftLeave(versions).ops
    case XRet => [Ret]
  }

  lemma RegOperand(r: Gpr, versions: Versions)
    ensures ParseSingleOperand(RegName(r), versions) == Var(CurrentVar(versions, r))
    ensures !IsMemoryOperand(RegName(r)) && DstBase(RegName(r)) == r
  {
    OperandRead(XReg(r), versions);
    DestinationRead(XReg(r));
  }

  lemma IsMemoryText(op: XOp)
    ensures IsMemoryOperand(OpText(op)) <==> op.XMemory?
  {
    if op.XImm? {
      ImmTextShape(op.imm);
    } else {
      DestinationRead(op);
    }
  }

  // The arms on any operand texts; the texts stay variables so that nothing is unfolded.

  lemma MovArm(a: string, b: string, mn: string, addr: nat, next: nat, versions: Versions)
    ensures LiftForm(FMov, mn, [a, b], addr, next, versions) == LiftMov([a, b], mn, addr, versions)
    ensures IsMemoryOperand(a) && !IsMemoryOperand(b) ==>
              LiftMov([a, b], mn, addr, versions).ops
              == [Store(ParseMemoryOperandSpec(a, versions), ParseSingleOperand(b, versions))]
    ensures var after := Bump(versions, DstBase(a));
      !IsMemoryOperand(a) ==>
        LiftMov([a, b], mn, addr, versions).ops
        == [if IsMemoryOperand(b) then Load(Fresh(versions, DstBase(a)), ParseMemoryOperandSpec(b, after))
            else Mov(Fresh(versions, DstBase(a)), ParseSingleOperand(b, after))]
  {
    hide ParseSingleOperand, ParseMemoryOperandSpec, IsMemoryOperand, DstBase, Bump, Fresh;
  }

  lemma LeaArm(a: string, b: string, mn: string, addr: nat, next: nat, versions: Versions)
    ensures LiftForm(FLea, mn, [a, b], addr, next, versions).ops
            == [Lea(Fresh(versions, DstBase(a)), ParseMemoryOperandSpec(b, Bump(versions, DstBase(a))))]
  {
    hide ParseSingleOperand, ParseMemoryOperandSpec, IsMemoryOperand, DstBase, Bump, Fresh;
  }

  lemma AluArm(op: AluOp, a: string, b: string, mn: string, addr: nat, next: nat, versions: Versions)
    ensures LiftForm(FAlu(op), mn, [a, b], addr, next, versions).ops
            == [Alu(op, Fresh(versions, DstBase(a)), ParseSingleOperand(a, versions), ParseSingleOperand(b, versions))]
  {
    hide ParseSingleOperand, ParseMemoryOperandSpec, IsMemoryOperand, DstBase, Bump, Fresh;
  }

  lemma Alu3Arm(op: AluOp, a: string, b: string, c: string, mn: string, addr: nat, next: nat, versions: Versions)
    ensures LiftForm(FAlu(op), mn, [a, b, c], addr, next, versions).ops
            == [Alu(op, Fresh(versions, DstBase(a)), ParseSingleOperand(b, versions), ParseSingleOperand(c, versions))]
  {
    hide ParseSingleOperand, ParseMemoryOperandSpec, IsMemoryOperand, DstBase, Bump, Fresh;
  }

  lemma UnaryArm(isNot: bool, a: string, mn: string, addr: nat, next: nat, versions: Versions)
    ensures LiftForm(if isNot then FNot else FNeg, mn, [a], addr, next, versions)
            == LiftUnaryReg(isNot, [a], addr, versions)
    ensures IsMemoryOperand(a) ==>
              LiftUnaryReg(isNot, [a], addr, versions).ops == [Unknown(if isNot then "not" else "neg", addr)]
    ensures !IsMemoryOperand(a) ==>
              LiftUnaryReg(isNot, [a], addr, versions).ops
              == (var dst, src := Fresh(versions, DstBase(a)), Var(CurrentVar(versions, DstBase(a)));
                  [if isNot then Not(dst, src) else Neg(dst, src)])
  {
    hide ParseSingleOperand, ParseMemoryOperandSpec, IsMemoryOperand, DstBase, Bump, Fresh;
  }

  lemma StepArm(op: AluOp, a: string, mn: string, addr: nat, next: nat, versions: Versions)
    requires op == AddOp || op == SubOp
    ensures LiftForm(if op == AddOp then FInc else FDec, mn, [a], addr, next, versions).ops
            == [Alu(op, Fresh(versions, DstBase(a)), Var(CurrentVar(versions, DstBase(a))), Imm(1))]
  {
    hide ParseSingleOperand, ParseMemoryOperandSpec, IsMemoryOperand, DstBase, Bump, Fresh;
  }

  lemma CompareArm(isCmp: bool, a: string, b: string, mn: string, addr: nat, next: nat, versions: Versions)
    ensures LiftForm(if isCmp then FCmp else FTest, mn, [a, b], addr, next, versions).ops
            == (var l, r := ParseSingleOperand(a, versions), ParseSingleOperand(b, versions);
                [if isCmp then Cmp(l, r) else Test(l, r)])
  {
    hide ParseSingleOperand, ParseMemoryOperandSpec, IsMemoryOperand, DstBase, Bump, Fresh;
  }

  lemma CmovArm(c: Condition, a: string, b: string, mn: string, addr: nat, next: nat, versions: Versions)
    ensures LiftForm(FCmov(c), mn, [a, b], addr, next, versions).ops
            == [Cmovcc(c, Fresh(versions, DstBase(a)), ParseSingleOperand(b, versions))]
  {
    hide ParseSingleOperand, ParseMemoryOperandSpec, IsMemoryOperand, DstBase, Bump, Fresh;
  }

  lemma StackArms(a: string, mn: string, addr: nat, next: nat, versions: Versions)
    ensures LiftForm(FPush, mn, [a], addr, next, versions).ops == [Push(ParseSingleOperand(a, versions))]
    ensures LiftForm(FPop, mn, [a], addr, next, versions).ops == [Pop(Fresh(versions, DstBase(a)))]
  {
    hide ParseSingleOperand, ParseMemoryOperandSpec, IsMemoryOperand, DstBase, Bump, Fresh;
  }

  lemma JumpArms(c: Condition, a: string, mn: string, addr: nat, next: nat, versions: Versions)
    ensures LiftForm(FJmp, mn, [a], addr, next, versions).ops == [LiftJmp(a, versions)]
    ensures LiftForm(FJcc(c), mn, [a], addr, next, versions).ops == [Jcc(c, BranchTarget([a]), next)]
  {
    hide LiftJmp, BranchTarget;
  }

  lemma BareArms(mn: string, addr: nat, next: nat, versions: Versions)
    ensures LiftForm(FNop, mn, [], addr, next, versions).ops == [Nop]
    ensures LiftForm(FRet, mn, [], addr, next, versions).ops == [Ret]
    ensures LiftForm(FLeave, mn, [], addr, next, versions) == LiftLeave(versions)
  {
    hide LiftLeave;
  }

  // The arms on the printed operands.

  /** What is known of the text a of an operand op. */
  predicate Reads(a: string, op: XOp, versions: Versions)
    requires op.Valid()
  {
    && (op.XMemory? <==> IsMemoryOperand(a))
    && ParseSingleOperand(a, versions) == OperandOf(op, versions)
    && (op.XMemory? ==> ParseMemoryOperandSpec(a, versions) == MemOperandOf(op.mem, versions))
    && (!op.XImm? ==> DstBase(a) == DestinationOf(op))
  }

  lemma OpTextReads(op: XOp, versions: Versions)
    requires op.Valid()
    ensures Reads(OpText(op), op, versions)
  {
    IsMemoryText(op);
    OperandRead(op, versions);
    if op.XMemory? {
      MemoryOperandRead(op.mem, OpText(op), versions);
    }
    if !op.XImm? {
      DestinationRead(op);
    }
  }

  lemma MovLifted(d: XOp, s: XOp, a: string, b: string, mn: string, addr: nat, next: nat, versions: Versions)
    requires XMov(d, s).Encodable() && Reads(a, d, versions) && Reads(b, s, versions)
    requires d.XReg? ==> Reads(b, s, Bump(versions, d.reg))
    ensures LiftForm(FMov, mn, [a, b], addr, next, versions).ops == Lowered(XMov(d, s), mn, addr, next, versions)
  {
    MovArm(a, b, mn, addr, next, versions);
  }

  lemma MovInsnLifted(d: XOp, s: XOp, mn: string, addr: nat, next: nat, versions: Versions)
    requires XMov(d, s).Encodable()
    ensures LiftForm(FMov, mn, [OpText(d), OpText(s)], addr, next, versions).ops
            == Lowered(XMov(d, s), mn, addr, next, versions)
  {
    OpTextReads(d, versions);
    OpTextReads(s, versions);
    if d.XReg? {
      OpTextReads(s, Bump(versions, d.reg));
    }
    MovLifted(d, s, OpText(d), OpText(s), mn, addr, next, versions);
  }

  lemma LeaInsnLifted(to: Gpr, m: XMem, addr: nat, next: nat, versions: Versions)
    requires m.Valid()
    ensures LiftForm(FLea, "lea", [RegName(to), MemText(m)], addr, next, versions).ops
            == [Lea(Fresh(versions, to), MemOperandOf(m, Bump(versions, to)))]
  {
    LeaArm(RegName(to), MemText(m), "lea", addr, next, versions);
    RegOperand(to, versions);
    MemoryOperandRead(m, MemText(m), Bump(versions, to));
  }

  lemma AluInsnLifted(op: AluOp, d: XOp, s: XOp, mn: string, addr: nat, next: nat, versions: Versions)
    requires d.Valid() && s.Valid() && !d.XImm?
    ensures LiftForm(FAlu(op), mn, [OpText(d), OpText(s)], addr, next, versions).ops
            == [Alu(op, Fresh(versions, DestinationOf(d)), OperandOf(d, versions), OperandOf(s, versions))]
  {
    AluArm(op, OpText(d), OpText(s), mn, addr, next, versions);
    OpTextReads(d, versions);
    OpTextReads(s, versions);
  }

  lemma Imul3InsnLifted(to: Gpr, s: XOp, v: int, addr: nat, next: nat, versions: Versions)
    requires s.Valid() && XImm(v).Valid()
    ensures LiftForm(FAlu(MulOp), "imul", [RegName(to), OpText(s), ImmText(v)], addr, next, versions).ops
            == [Alu(MulOp, Fresh(versions, to), OperandOf(s, versions), OperandOf(XImm(v), versions))]
  {
    Alu3Arm(MulOp, RegName(to), OpText(s), ImmText(v), "imul", addr, next, versions);
    RegOperand(to, versions);
    OpTextReads(s, versions);
    OpTextReads(XImm(v), versions);
  }

  lemma UnaryInsnLifted(isNot: bool, d: XOp, addr: nat, next: nat, versions: Versions)
    requires d.Valid() && !d.XImm?
    ensures LiftForm(if isNot then FNot else FNeg, if isNot then "not" else "neg", [OpText(d)], addr, next, versions).ops
            == if d.XMemory? then [Unknown(if isNot then "not" else "neg", addr)]
               else (var dst, src := Fresh(versions, d.reg), Var(CurrentVar(versions, d.reg));
                     [if isNot then Not(dst, src) else Neg(dst, src)])
  {
    UnaryArm(isNot, OpText(d), if isNot then "not" else "neg", addr, next, versions);
    OpTextReads(d, versions);
  }

  lemma StepInsnLifted(op: AluOp, d: XOp, mn: string, addr: nat, next: nat, versions: Versions)
    requires d.Valid() && !d.XImm? && (op == AddOp || op == SubOp)
    ensures var base := DestinationOf(d);
      LiftForm(if op == AddOp then FInc else FDec, mn, [OpText(d)], addr, next, versions).ops
      == [Alu(op, Fresh(versions, base), Var(CurrentVar(versions, base)), Imm(1))]
  {
    StepArm(op, OpText(d), mn, addr, next, versions);
    OpTextReads(d, versions);
  }

  lemma CompareInsnLifted(isCmp: bool, l: XOp, r: XOp, mn: string, addr: nat, next: nat, versions: Versions)
    requires l.Valid() && r.Valid()
    ensures LiftForm(if isCmp then FCmp else FTest, mn, [OpText(l), OpText(r)], addr, next, versions).ops
            == (var a, b := OperandOf(l, versions), OperandOf(r, versions); [if isCmp then Cmp(a, b) else Test(a, b)])
  {
    CompareArm(isCmp, OpText(l), OpText(r), mn, addr, next, versions);
    OpTextReads(l, versions);
    OpTextReads(r, versions);
  }

  lemma CmovInsnLifted(c: Condition, to: Gpr, s: XOp, mn: string, addr: nat, next: nat, versions: Versions)
    requires s.Valid()
    ensures LiftForm(FCmov(c), mn, [RegName(to), OpText(s)], addr, next, versions).ops
            == [Cmovcc(c, Fresh(versions, to), OperandOf(s, versions))]
  {
    CmovArm(c, RegName(to), OpText(s), mn, addr, next, versions);
    RegOperand(to, versions);
    OpTextReads(s, versions);
  }

  lemma StackInsnLifted(op: XOp, mn: string, addr: nat, next: nat, versions: Versions)
    requires op.Valid()
    ensures LiftForm(FPush, mn, [OpText(op)], addr, next, versions).ops == [Push(OperandOf(op, versions))]
    ensures !op.XImm? ==>
              LiftForm(FPop, mn, [OpText(op)], addr, next, versions).ops == [Pop(Fresh(versions, DestinationOf(op)))]
  {
    StackArms(OpText(op), mn, addr, next, versions);
    OpTextReads(op, versions);
  }

  lemma JumpInsnLifted(c: Condition, t: word, mn: string, addr: nat, next: nat, versions: Versions)
    ensures LiftForm(FJmp, mn, [NatText(t)], addr, next, versions).ops == [Jmp(t)]
    ensures LiftForm(FJcc(c), mn, [NatText(t)], addr, next, versions).ops == [Jcc(c, t, next)]
  {
    JumpArms(c, NatText(t), mn, addr, next, versions);
    JumpTargetRead(t, NatText(t), versions);
  }

  lemma JumpTargetRead(t: word, a: string, versions: Versions)
    requires a == NatText(t)
    ensures LiftJmp(a, versions) == Jmp(t) && BranchTarget([a]) == t
  {
    TargetTextParsed(t);
    NatTextTrimmed(t);
  }

  /** For the arm meant for it, the printed operands lift to the IR that the instruction stands for. */
  lemma FormLifted(i: XInsn, addr: nat, next: nat, versions: Versions)
    requires i.Encodable()
    ensures LiftForm(FormFor(i), MnemonicText(i), OperandTexts(i), addr, next, versions).ops
            == Lowered(i, MnemonicText(i), addr, next, versions)
  {
    hide LiftForm, RegName, MemText, NatText, OperandOf, MemOperandOf, Fresh, Bump;
    var mn := MnemonicText(i);
    match i
    case XMov(d, s) => MovInsnLifted(d, s, mn, addr, next, versions);
    case XLea(to, m) => LeaInsnLifted(to, m, addr, next, versions);
    case XAlu(op, d, s) => AluInsnLifted(FormFor(i).op, d, s, mn, addr, next, versions);
    case XImul(to, s) => AluInsnLifted(MulOp, XReg(to), s, mn, addr, next, versions);
    case XImul3(to, s, v) => Imul3InsnLifted(to, s, v, addr, next, versions);
    case XShift(left, d, n) => AluInsnLifted(FormFor(i).op, d, XImm(n), mn, addr, next, versions);
    case XNot(d) => UnaryInsnLifted(true, d, addr, next, versions);
    case XNeg(d) => UnaryInsnLifted(false, d, addr, next, versions);
    case XInc(d) => StepInsnLifted(AddOp, d, mn, addr, next, versions);
    case XDec(d) => StepInsnLifted(SubOp, d, mn, addr, next, versions);
    case XCmp(l, r) => CompareInsnLifted(true, l, r, mn, addr, next, versions);
    case XTest(l, r) => CompareInsnLifted(false, l, r, mn, addr, next, versions);
    case XCmov(c, to, s) => CmovInsnLifted(c, to, s, mn, addr, next, versions);
    case XJmp(t) => JumpInsnLifted(Equal, t, mn, addr, next, versions);
    case XJcc(c, t) => JumpInsnLifted(c, t, mn, addr, next, versions);
    case XPush(s) => StackInsnLifted(s, mn, addr, next, versions);
    case XPop(d) => StackInsnLifted(d, mn, addr, next, versions);
    case _ => BareArms(mn, addr, next, versions);
  }

  lemma ArmChosen(insn: DisassembledInsn, form: Form, m: string, operands: seq<string>, versions: Versions)
    requires Mnemonic(insn) == m && !("lock " <= ToLower(insn.mnemonic)) && FormOf(m, false) == form
    requires ParseOperandsSpec(insn.opStr) == operands
    ensures LiftInsn(insn, versions) == LiftForm(form, m, operands, insn.address, insn.address + insn.size, versions)
  {
    hide LiftForm, FormOf, Mnemonic, ParseOperandsSpec, ToLower;
  }

  /** Disassembling, splitting, parsing and lifting: every encodable instruction of the subset
      arrives in the IR as the opcodes that `Lowered` gives for it. */
  lemma InstructionLifted(line: XLine, versions: Versions)
    requires line.insn.Encodable()
    ensures LiftInsn(Disassemble(line), versions).ops
            == Lowered(line.insn, MnemonicText(line.insn), line.address, line.address + line.size, versions)
  {
    hide LiftForm, LiftInsn, FormOf, Mnemonic, ParseOperandsSpec, MnemonicText, OperandTexts, Lowered, ToLower, FormFor;
    var i := line.insn;
    MnemonicRead(line);
    OperandsRead(line);
    ArmChosen(Disassemble(line), FormFor(i), MnemonicText(i), OperandTexts(i), versions);
    FormLifted(i, line.address, line.address + line.size, versions);
  }
}
