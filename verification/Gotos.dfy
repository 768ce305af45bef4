/** Goto closure: which gotos of the emitted program have a label, for functions given as text. */
module Gotos {
  import opened Wrappers
  import opened Words
  import opened Text
  import opened Ir
  import opened Operands
  import opened Frontend
  import Cfg
  import opened Lifter
  import opened CLang
  import opened Backend
  import opened Layout
  import opened Positions
  import LiftProofs

  // Trimming.

  lemma {:induction false} TrimStartEnds(s: string)
    ensures TrimStart(s) == "" || !IsSpace(TrimStart(s)[0])
  {
    if s != "" && IsSpace(s[0]) {
      TrimStartEnds(s[1..]);
    }
  }

  lemma {:induction false} TrimEndEnds(s: string)
    ensures TrimEnd(s) <= s
    ensures TrimEnd(s) == "" || !IsSpace(TrimEnd(s)[|TrimEnd(s)| - 1])
  {
    if s != "" && IsSpace(s[|s| - 1]) {
      TrimEndEnds(s[..|s| - 1]);
    }
  }

  /** What is left after trimming is empty or clean. */
  lemma TrimCleans(s: string)
    ensures Trim(s) == "" || Clean(Trim(s))
    ensures Trim(Trim(s)) == Trim(s)
  {
    TrimStartEnds(s);
    TrimEndEnds(TrimStart(s));
    if Trim(s) != "" {
      TrimPadded(Trim(s));
    }
  }

  // Targets.

  lemma {:induction false} NumeralLacks(s: string, radix: nat, c: char)
    requires DigitsValue(s, radix).Some? && radix < 99 && DigitOf(c) == 99
    ensures Lacks(s, c)
  {
    if s != "" {
      NumeralLacks(s[..|s| - 1], radix, c);
    }
  }

  /** Nothing in a parsed number can be taken for operand syntax. */
  lemma NumberLacks(s: string, c: char)
    requires ParseU64(s, 16).Some? && DigitOf(c) == 99 && c != '+'
    ensures Lacks(s, c)
  {
    NumeralLacks(if s[0] == '+' then s[1..] else s, 16, c);
    if s[0] == '+' {
      assert s == "+" + s[1..];
    }
  }

  /** A target in the 0x form. */
  predicate HexForm(text: string) {
    HexPrefixed(Trim(text)) && ParseHexTarget(text).Some?
  }

  /** The lifter and the CFG read the same address from the 0x form. */
  lemma TargetsAgree(text: string)
    requires HexForm(text)
    ensures ParseOperandsSpec(text) == [Trim(text)]
    ensures ParseImmediate(Trim(text)) == Some(AsInt64(ParseHexTarget(text).value))
  {
    var s := Trim(text);
    TrimCleans(text);
    var rest := s[2..];
    NumberLacks(rest, '[');
    NumberLacks(rest, ']');
    NumberLacks(rest, ',');
    assert s == s[..2] + rest;
    LiftProofs.DepthWithoutBrackets(s, 0);
    SplitInvertsJoin([s]);
    assert Join([s], ", ") == s;
  }

  lemma LiftedTarget(text: string, versions: Versions)
    requires HexForm(text)
    ensures LiftJmp(Trim(text), versions) == Jmp(ParseHexTarget(text).value)
    ensures BranchTarget([Trim(text)]) == ParseHexTarget(text).value
  {
    hide ParseImmediate, ParseHexTarget, ParseMemoryOperandSpec, ParseRegister;
    TrimCleans(text);
    TargetsAgree(text);
    AddressKept(ParseHexTarget(text).value);
  }

  lemma AddressKept(t: word)
    ensures ToWord(AsInt64(t)) == t
  {
  }

  // Gotos.

  predicate StmtGoesTo(st: CStmt, t: nat) {
    (st.CGoto? || st.CIfGoto?) && st.target == t
  }

  predicate LineGoesTo(line: CLine, t: nat) {
    exists i :: 0 <= i < |line| && StmtGoesTo(line[i], t)
  }

  predicate ItemGoesTo(item: CItem, t: nat) {
    item.CCode? && LineGoesTo(item.line, t)
  }

  predicate HasGoto(items: seq<CItem>, t: nat) {
    exists i :: 0 <= i < |items| && ItemGoesTo(items[i], t)
  }

  lemma GotoInAppend(a: seq<CItem>, b: seq<CItem>, t: nat)
    ensures HasGoto(a + b, t) <==> HasGoto(a, t) || HasGoto(b, t)
  {
    hide ItemGoesTo;
    var s := a + b;
    forall i | 0 <= i < |a| ensures s[i] == a[i] {}
    forall i | 0 <= i < |b| ensures s[|a| + i] == b[i] {}
    if HasGoto(a, t) {
      var i :| 0 <= i < |a| && ItemGoesTo(a[i], t);
      assert ItemGoesTo(s[i], t);
    }
    if HasGoto(b, t) {
      var i :| 0 <= i < |b| && ItemGoesTo(b[i], t);
      assert ItemGoesTo(s[|a| + i], t);
    }
  }

  /** The printed line of an opcode jumps where the opcode does. */
  lemma OpcodeGoto(op: Opcode, names: Names, t: nat)
    ensures LineGoesTo(EmitOpcode(op, names), t) <==> (op.Jmp? || op.Jcc?) && op.target == t
  {
    var line := EmitOpcode(op, names);
    if op.Jmp? || op.Jcc? {
      assert StmtGoesTo(line[0], op.target);
    }
  }

  function FormOfInsn(insn: DisassembledInsn): Form {
    FormOf(Mnemonic(insn), "lock " <= ToLower(insn.mnemonic))
  }

  predicate IsJumpOpcode(op: Opcode) {
    op.Jmp? || op.Jcc?
  }

  /** Only the two jump arms yield jump opcodes. */
  lemma OtherFormsStay(form: Form, mn: string, operands: seq<string>, addr: nat, next: nat, versions: Versions)
    requires !form.FJmp? && !form.FJcc?
    ensures forall op :: op in LiftForm(form, mn, operands, addr, next, versions).ops ==> !IsJumpOpcode(op)
  {
    hide ParseSingleOperand, ParseMemoryOperandSpec, DstBase, IsMemoryOperand, ParseRegister, ParseImmediate, Bump, Fresh;
  }

  lemma JumpFormsGo(form: Form, mn: string, text: string, addr: nat, next: nat, versions: Versions)
    requires (form.FJmp? || form.FJcc?) && HexForm(text)
    ensures var ops := LiftForm(form, mn, [Trim(text)], addr, next, versions).ops;
      |ops| == 1 && IsJumpOpcode(ops[0]) && ops[0].target == ParseHexTarget(text).value
  {
    hide LiftJmp, BranchTarget, ParseHexTarget;
    LiftedTarget(text, versions);
  }

  /** The lifter's direct jumps are those of the CFG, with targets in the 0x form. */
  predicate DirectJump(insn: DisassembledInsn) {
    FormOfInsn(insn).FJmp? || FormOfInsn(insn).FJcc? ==> Cfg.IsJump(insn.mnemonic) && HexForm(insn.opStr)
  }

  predicate DirectJumps(insns: seq<DisassembledInsn>) {
    forall k :: 0 <= k < |insns| ==> DirectJump(insns[k])
  }

  lemma JumpIsPlain(mn: string)
    requires Cfg.IsJump(mn)
    ensures |mn| >= 2 && mn[0] == 'j' && NoUpper(mn) && (mn != "jmp" ==> mn[1] != 'm')
  {
  }

  lemma JumpFormRead(mn: string)
    requires |mn| >= 2 && mn[0] == 'j' && (mn != "jmp" ==> mn[1] != 'm')
    ensures FormOf(mn, false).FJmp? || FormOf(mn, false).FJcc?
  {
    hide ParseConditionSuffix;
  }

  /** Every jump that the CFG recognises is lifted as a jump. */
  lemma JumpLifted(insn: DisassembledInsn)
    requires Cfg.IsJump(insn.mnemonic)
    ensures FormOfInsn(insn).FJmp? || FormOfInsn(insn).FJcc?
  {
    hide FormOf, Cfg.IsJump;
    JumpIsPlain(insn.mnemonic);
    ToLowerFixed(insn.mnemonic);
    JumpFormRead(insn.mnemonic);
  }

  lemma OpsGoto(ops: seq<Opcode>, addr: nat, names: Names, t: nat)
    ensures HasGoto(EmitOpcodes(Located(addr, ops), names), t)
            <==> exists i :: 0 <= i < |ops| && IsJumpOpcode(ops[i]) && ops[i].target == t
  {
    hide EmitOpcode;
    var items := EmitOpcodes(Located(addr, ops), names);
    forall i | 0 <= i < |ops| ensures ItemGoesTo(items[i], t) <==> IsJumpOpcode(ops[i]) && ops[i].target == t {
      OpcodeGoto(ops[i], names, t);
    }
    if i :| 0 <= i < |ops| && IsJumpOpcode(ops[i]) && ops[i].target == t {
      assert ItemGoesTo(items[i], t);
    }
  }

  /** An instruction's items go to t exactly when the CFG sees it jump to t. */
  lemma InsnGoto(insn: DisassembledInsn, names: Names, t: nat)
    requires DirectJump(insn)
    ensures HasGoto(InsnItems(insn, names), t) <==> Cfg.JumpsTo(insn, t)
  {
    hide LiftForm, FormOf, Mnemonic, EmitOpcodes, Cfg.IsJump, ParseHexTarget, HexPrefixed, HasGoto, ParseOperandsSpec;
    var form, m := FormOfInsn(insn), Mnemonic(insn);
    var ops := LiftInsn(insn, map[]).ops;
    OpsGoto(ops, insn.address, names, t);
    if form.FJmp? || form.FJcc? {
      TargetsAgree(insn.opStr);
      JumpFormsGo(form, m, insn.opStr, insn.address, insn.address + insn.size, map[]);
    } else {
      OtherFormsStay(form, m, ParseOperandsSpec(insn.opStr), insn.address, insn.address + insn.size, map[]);
      if Cfg.IsJump(insn.mnemonic) {
        JumpLifted(insn);
      }
    }
  }

  lemma {:induction false} FlatGotos(insns: seq<DisassembledInsn>, lead: nat -> bool, names: Names, n: nat, t: nat)
    requires n <= |insns| && DirectJumps(insns)
    ensures HasGoto(FlatItems(insns, lead, names, n), t) <==> Cfg.TargetedAmong(insns, n, t)
    decreases n
  {
    hide InsnItems, DirectJump, Cfg.JumpsTo, LabelItems;
    if n > 0 {
      var flat, mark, code := FlatItems(insns, lead, names, n - 1), LabelItems(insns, lead, n - 1), InsnItems(insns[n - 1], names);
      FlatGotos(insns, lead, names, n - 1, t);
      LabelsStay(insns, lead, n - 1, t);
      GotoInAppend(flat, mark, t);
      GotoInAppend(flat + mark, code, t);
      InsnGoto(insns[n - 1], names, t);
    }
  }

  lemma LabelsStay(insns: seq<DisassembledInsn>, lead: nat -> bool, k: nat, t: nat)
    requires k < |insns|
    ensures !HasGoto(LabelItems(insns, lead, k), t)
  {
  }

  lemma ReturnStays(t: nat)
    ensures !HasGoto([CCode([CReturnRax])], t)
  {
  }

  /** The gotos of the emitted program go exactly to the jump targets of the CFG. */
  lemma GotosAreTargets(func: DisassembledFunction, names: Names, t: nat)
    requires AscendingAddresses(func.instructions) && DirectJumps(func.instructions)
    ensures HasGoto(Decompile(func, names), t) <==> Cfg.TargetedAmong(func.instructions, |func.instructions|, t)
  {
    hide EmitFunction, LiftFunction, Cfg.CfgOf, Cfg.Lead, FlatItems, DirectJumps, Cfg.TargetedAmong, HasGoto;
    var insns := func.instructions;
    EmissionIsFlat(func, names);
    var flat := FlatItems(insns, Cfg.Lead(insns), names, |insns|);
    FlatGotos(insns, Cfg.Lead(insns), names, |insns|, t);
    GotoInAppend(flat, [CCode([CReturnRax])], t);
    ReturnStays(t);
  }

  /** The gotos without a label are exactly those whose target is not an instruction of the function. */
  lemma GotoClosure(func: DisassembledFunction, names: Names, t: nat)
    requires AscendingAddresses(func.instructions) && DirectJumps(func.instructions)
    requires HasGoto(Decompile(func, names), t)
    ensures LabelAt(Decompile(func, names), t).Some? <==> IsAddress(func.instructions, t)
  {
    hide EmitFunction, LiftFunction, Cfg.CfgOf, FlatItems, DirectJumps, HasGoto, Cfg.JumpsTo, Cfg.IsControl;
    var insns := func.instructions;
    EmissionIsFlat(func, names);
    GotosAreTargets(func, names, t);
    LabelExists(insns, Cfg.Lead(insns), names, t);
    if l :| 0 <= l < |insns| && insns[l].address == t {
      assert Cfg.Lead(insns)(l);
    }
  }

  // Labels are distinct.

  predicate LabelsBelow(items: seq<CItem>, a: nat) {
    forall i :: 0 <= i < |items| && items[i].CLabel? ==> items[i].addr < a
  }

  predicate LabelsAscend(items: seq<CItem>) {
    forall i, j :: 0 <= i < j < |items| && items[i].CLabel? && items[j].CLabel? ==> items[i].addr < items[j].addr
  }

  lemma InsnHasNoLabels(insn: DisassembledInsn, names: Names)
    ensures forall i :: 0 <= i < |InsnItems(insn, names)| ==> InsnItems(insn, names)[i].CCode?
  {
    hide LiftInsn, EmitOpcode;
  }

  lemma {:induction false} FlatLabels(insns: seq<DisassembledInsn>, lead: nat -> bool, names: Names, n: nat)
    requires AscendingAddresses(insns) && n <= |insns|
    ensures LabelsAscend(FlatItems(insns, lead, names, n))
    ensures forall k :: n <= k < |insns| ==> LabelsBelow(FlatItems(insns, lead, names, n), insns[k].address)
    decreases n
  {
    hide InsnItems;
    if n > 0 {
      FlatLabels(insns, lead, names, n - 1);
      InsnHasNoLabels(insns[n - 1], names);
      assert LabelsBelow(FlatItems(insns, lead, names, n - 1), insns[n - 1].address);
    }
  }

  /** No label is declared twice. */
  lemma LabelsDistinct(func: DisassembledFunction, names: Names)
    requires AscendingAddresses(func.instructions)
    ensures LabelsAscend(Decompile(func, names))
  {
    hide EmitFunction, LiftFunction, Cfg.CfgOf, Cfg.Lead, FlatItems;
    var insns := func.instructions;
    EmissionIsFlat(func, names);
    FlatLabels(insns, Cfg.Lead(insns), names, |insns|);
  }
}
