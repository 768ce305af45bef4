/** Instructions outside the supported subset that are lifted to something else, with exact conditions
    where there is one. */
module Misreadings {
  import opened Wrappers
  import opened Words
  import opened Text
  import opened Ir
  import opened Operands
  import opened Frontend
  import Cfg
  import opened Lifter
  import opened CLang
  import opened Backend
  import opened Instructions
  import Calls
  import opened Layout
  import opened Positions
  import opened Gotos
  import opened Capstone
  import opened OperandProofs

  // Jumps that the CFG does not know.

  predicate IsJumpForm(form: Form) {
    form.FJmp? || form.FJcc?
  }

  /** The jump arms take jmp, and without a lock prefix every other mnemonic that begins with j. */
  lemma JumpFormsExactly(m: string, isLock: bool)
    ensures IsJumpForm(FormOf(m, isLock)) <==> m == "jmp" || (!isLock && "j" <= m)
  {
    hide ParseConditionSuffix;
    if "j" <= m && m != "jmp" {
      assert m[0] == 'j';
      OtherJ(m, isLock);
    } else if m == "jmp" {
      assert m[0] == 'j' && m[1] == 'm';
    }
  }

  lemma OtherJ(m: string, isLock: bool)
    requires m != "" && m[0] == 'j' && m != "jmp"
    ensures FormOf(m, isLock) == if isLock then FAtomic else FJcc(ParseConditionSuffix(m))
  {
    hide ParseConditionSuffix;
  }

  /** For any mnemonic with a target in the 0x form: a goto is emitted for a jump that the CFG does not see,
      exactly when the mnemonic, in lower case and without lock prefixes, is jmp or (with no lock prefix)
      begins with j, and as written is neither jmp nor one of the eighteen conditional jumps. */
  lemma UnseenJumpExactly(insn: DisassembledInsn, names: Names)
    requires HexForm(insn.opStr)
    ensures var m, isLock := Mnemonic(insn), "lock " <= ToLower(insn.mnemonic);
      HasGoto(InsnItems(insn, names), ParseHexTarget(insn.opStr).value) && Cfg.JumpTarget(insn).None?
      <==> (m == "jmp" || (!isLock && "j" <= m)) && !Cfg.IsJump(insn.mnemonic)
  {
    hide LiftForm, FormOf, Mnemonic, EmitOpcodes, ParseHexTarget, HexPrefixed, HasGoto, ParseOperandsSpec, Cfg.IsJump, ToLower;
    var m, next := Mnemonic(insn), insn.address + insn.size;
    var form := FormOfInsn(insn);
    JumpFormsExactly(m, "lock " <= ToLower(insn.mnemonic));
    if IsJumpForm(form) {
      JumpItemGoes(insn, names);
    } else {
      OpsGoto(LiftInsn(insn, map[]).ops, insn.address, names, ParseHexTarget(insn.opStr).value);
      OtherFormsStay(form, m, ParseOperandsSpec(insn.opStr), insn.address, next, map[]);
    }
  }

  /** One such mnemonic. */
  lemma JrcxzForm()
    ensures FormOf("jrcxz", false) == FJcc(Equal) && !Cfg.IsControl("jrcxz") && !("lock " <= "jrcxz")
  {
    hide FormOf;
    assert "jrcxz"[0] == 'j' && "jrcxz"[1] == 'r' && "jrcxz"[1..] == "rcxz";
    OtherJ("jrcxz", false);
    UnknownSuffix();
  }

  lemma UnknownSuffix()
    ensures ConditionNamed("rcxz") == Equal
  {
  }

  lemma GotoInSlice(items: seq<CItem>, i: nat, j: nat, t: nat)
    requires i <= j <= |items| && HasGoto(items[i..j], t)
    ensures HasGoto(items, t)
  {
    hide ItemGoesTo;
    var part := items[i..j];
    var k :| 0 <= k < |part| && ItemGoesTo(part[k], t);
    assert items[i + k] == part[k];
  }

  /** A jump in the 0x form to instruction l, known to the CFG or not, has a label exactly when l leads a
      block; when the CFG does not know the jump, nothing makes l lead. */
  lemma JumpLabelledExactly(func: DisassembledFunction, names: Names, k: nat, l: nat)
    requires AscendingAddresses(func.instructions) && k < |func.instructions| && l < |func.instructions|
    requires FormOfInsn(func.instructions[k]).FJmp? || FormOfInsn(func.instructions[k]).FJcc?
    requires HexForm(func.instructions[k].opStr)
    requires ParseHexTarget(func.instructions[k].opStr) == Some(func.instructions[l].address)
    ensures HasGoto(Decompile(func, names), func.instructions[l].address)
    ensures LabelAt(Decompile(func, names), func.instructions[l].address).Some?
            <==> l == 0 || Cfg.Lead(func.instructions)(l)
  {
    hide EmitFunction, LiftFunction, Cfg.CfgOf, Cfg.Lead, FlatItems, InsnItems;
    hide LabelItems, FormOf, Mnemonic, HexForm, ParseHexTarget, HasGoto;
    var insns := func.instructions;
    var t, lead := insns[l].address, Cfg.Lead(insns);
    EmissionIsFlat(func, names);
    InsnAtPos(insns, lead, names, k);
    JumpItemGoes(insns[k], names);
    var i := Pos(insns, lead, names, k) + |LabelItems(insns, lead, k)|;
    GotoInSlice(Program(insns, lead, names), i, i + |InsnItems(insns[k], names)|, t);
    LabelExists(insns, lead, names, t);
  }

  lemma JumpItemGoes(insn: DisassembledInsn, names: Names)
    requires (FormOfInsn(insn).FJmp? || FormOfInsn(insn).FJcc?) && HexForm(insn.opStr)
    ensures HasGoto(InsnItems(insn, names), ParseHexTarget(insn.opStr).value)
  {
    hide LiftForm, FormOf, Mnemonic, EmitOpcodes, ParseHexTarget, HexPrefixed, HasGoto, ParseOperandsSpec;
    TargetsAgree(insn.opStr);
    JumpFormsGo(FormOfInsn(insn), Mnemonic(insn), insn.opStr, insn.address, insn.address + insn.size, map[]);
    OpsGoto(LiftInsn(insn, map[]).ops, insn.address, names, ParseHexTarget(insn.opStr).value);
  }

  /** A decimal numeral has a greater value in hexadecimal, except for single digits. */
  lemma {:induction false} DecimalAsHex(s: string)
    requires DigitsValue(s, 10).Some?
    ensures DigitsValue(s, 16).Some?
    ensures var d, h := DigitsValue(s, 10).value, DigitsValue(s, 16).value; h >= d && (h == d <==> d <= 9)
  {
    if s != "" {
      DecimalAsHex(s[..|s| - 1]);
    }
  }

  lemma MinusIsNoDigit(s: string)
    requires s != "" && s[0] == '-'
    ensures ParseU64(s, 16) == None
  {
    if DigitsValue(s, 16).Some? {
      NumeralLacks(s, 16, '-');
    }
  }

  lemma DecimalRead(s: string, v: int64)
    requires s != "" && s[0] != '-' && ParseI64(s, 10) == Some(v)
    ensures v >= 0 && (ParseU64(s, 16) == Some(v) <==> v <= 9)
  {
    DecimalAsHex(if s[0] == '+' then s[1..] else s);
  }

  /** For any text without the prefix that the lifter reads as the number v, the CFG, which takes it for
      hexadecimal, reads the same target exactly when there is no minus sign and v is a single digit. */
  lemma UnprefixedTarget(text: string, v: int64)
    requires !HexPrefixed(Trim(text)) && ParseImmediate(text) == Some(v)
    ensures ParseHexTarget(text) == Some(ToWord(v)) <==> Trim(text)[0] != '-' && v <= 9
  {
    hide Trim, DigitsValue, ParseI64, ParseU64;
    var s := Trim(text);
    if s[0] == '-' {
      MinusIsNoDigit(s);
    } else {
      DecimalRead(s, v);
    }
  }

  /** Two minus signs cancel for the lifter, so a minus sign does not mean a negative number. */
  lemma DoubleMinus()
    ensures ParseImmediate("--5") == Some(5) && ParseHexTarget("--5") == None
  {
    var s, t := "--5", "-5";
    TrimPadded(s);
    TrimPadded(t);
    assert s[1..] == t && t[1..] == "5" && "5"[..0] == "";
    assert DigitsValue("5", 10) == Some(5) && ParseI64(t, 10) == Some(-5);
    MinusIsNoDigit(s);
  }

  /** Capstone prints exactly the targets above nine with the prefix, so what it prints is never misread. */
  lemma PrintedTargetPrefix(t: word)
    ensures HexPrefixed(Trim(NatText(t))) <==> t > 9
    ensures ParseHexTarget(NatText(t)) == Some(t) && ParseImmediate(NatText(t)) == Some(AsInt64(t))
  {
    hide ParseHexTarget, ParseImmediate, Trim;
    NatTextTrimmed(t);
    TargetTextParsed(t);
  }

  // Locked operations.

  lemma AtomicForm(m: string, isLock: bool)
    requires FormOf(m, isLock) == FAtomic
    ensures AtomicOp(m) == None
  {
  }

  /** Whatever the text, no instruction is ever lifted to an atomic operation that the emitter prints as
      one: the plain arms win. */
  lemma AtomicsNeverEmitted(insn: DisassembledInsn, versions: Versions)
    ensures forall op :: op in LiftInsn(insn, versions).ops && op.AtomicRMW? ==> AtomicOp(op.kind) == None
  {
    hide FormOf, Mnemonic, ParseOperandsSpec, AtomicOp;
    var form, m := FormOfInsn(insn), Mnemonic(insn);
    OnlyAtomicForm(form, m, ParseOperandsSpec(insn.opStr), insn.address, insn.address + insn.size, versions);
    if form == FAtomic {
      AtomicForm(m, "lock " <= ToLower(insn.mnemonic));
    }
  }

  lemma OnlyAtomicForm(form: Form, mn: string, operands: seq<string>, addr: nat, next: nat, versions: Versions)
    ensures forall op :: op in LiftForm(form, mn, operands, addr, next, versions).ops && op.AtomicRMW? ==>
              form == FAtomic && op.kind == mn
  {
    hide ParseSingleOperand, ParseMemoryOperandSpec, IsMemoryOperand, DstBase, Bump;
    hide Fresh, BranchTarget, ParseRegister, ParseImmediate, Trim;
  }

  // Arithmetic right shift.

  /** Dropping the n low bits of a signed number, rounding down. */
  function ShiftSigned(x: int64, n: nat): int64
    decreases n
  {
    if n == 0 then x else ShiftSigned(x / 2, n - 1)
  }

  function ShiftArithmetic(w: word, n: nat): word {
    ToWord(ShiftSigned(Signed(w), n))
  }

  lemma {:induction false} ShiftKeepsSign(x: int64, n: nat)
    ensures ShiftSigned(x, n) < 0 <==> x < 0
    ensures x >= 0 ==> ShiftSigned(x, n) == ShiftRight(x, n)
    decreases n
  {
    if n > 0 {
      ShiftKeepsSign(x / 2, n - 1);
    }
  }

  lemma HalvedIsSmall(w: word, n: nat)
    requires n > 0
    ensures ShiftRight(w, n) < 0x8000_0000_0000_0000
  {
    ShiftShrinks(w / 2, n - 1);
  }

  lemma {:induction false} ShiftShrinks(w: word, n: nat)
    ensures ShiftRight(w, n) <= w
    decreases n
  {
    if n > 0 {
      ShiftShrinks(w / 2, n - 1);
    }
  }

  lemma SarForm()
    ensures FormOf("sar", false) == FAlu(ShrOp)
  {
  }

  /** sar is lifted to a logical shift, which is right exactly for numbers that are not negative. */
  lemma SarExactly(w: word, n: nat)
    requires 0 < n < 64
    ensures FormOf("sar", false) == FAlu(ShrOp)
    ensures AluWord(ShrOp, w, n) == Some(ShiftArithmetic(w, n)) <==> w < 0x8000_0000_0000_0000
  {
    hide FormOf;
    SarForm();
    HalvedIsSmall(w, n);
    ShiftKeepsSign(Signed(w), n);
  }

  // Calls.

  function CallLines(op: Opcode, names: Names, n: nat): seq<CLine> {
    seq(n, _ => EmitOpcode(op, names))
  }

  ghost predicate KeepsStack(callee: Callee) {
    forall st: CStmt, s: CState :: callee(st, s).regs(RSP) == s.regs(RSP)
  }

  lemma CallDrifts(op: Opcode, names: Names, callee: Callee, s: CState)
    requires op.Call? && KeepsStack(callee)
    ensures var r := ExecLine(EmitOpcode(op, names), s, callee);
      r.Defined? && r.next.Onward? && r.state.regs(RSP) == ToWord(s.regs(RSP) - 8)
  {
    hide EmitOpcode, ExecLine, Write64;
    var t := Calls.CallEnters(op, names, callee, s);
  }

  /** An emitted call pushes a return address that no emitted return pops: n calls that return move rsp
      down by 8 n, where the processor's ends up where it was. */
  lemma {:induction false} CallsDrift(op: Opcode, names: Names, callee: Callee, s: CState, n: nat)
    requires op.Call? && KeepsStack(callee)
    ensures var r := ExecLines(CallLines(op, names, n), s, callee);
      r.Defined? && r.next.Onward? && r.state.regs(RSP) == ToWord(s.regs(RSP) - 8 * n)
    decreases n
  {
    hide ExecLine, EmitOpcode, KeepsStack;
    if n > 0 {
      CallDrifts(op, names, callee, s);
      var after := ExecLine(EmitOpcode(op, names), s, callee).state;
      CallsDrift(op, names, callee, after, n - 1);
      assert CallLines(op, names, n)[1..] == CallLines(op, names, n - 1);
      SumCongruence(s.regs(RSP) - 8, -8 * (n - 1));
    }
  }
}
