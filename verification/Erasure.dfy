/** Versions disappear when C is printed: lifting an instruction under any version map prints the
    same lines. */
module Erasure {
  import opened Wrappers
  import opened Ir
  import opened Operands
  import opened Frontend
  import Text
  import opened Lifter
  import opened Backend

  function EraseVar(v: VarId): VarId {
    VarId(v.base, 0)
  }

  function EraseOption(v: Option<VarId>): Option<VarId> {
    if v.Some? then Some(EraseVar(v.value)) else None
  }

  function EraseOperand(op: Operand): Operand {
    match op
    case Var(v) => Var(EraseVar(v))
    case Imm(n) => Imm(n)
    case Mem(base, index, scale, disp) => Mem(EraseOption(base), EraseOption(index), scale, disp)
  }

  function EraseTarget(t: CallTarget): CallTarget {
    match t
    case Indirect(op) => Indirect(EraseOperand(op))
    case _ => t
  }

  function EraseOpcode(op: Opcode): Opcode {
    match op
    case Mov(d, s) => Mov(EraseVar(d), EraseOperand(s))
    case Load(d, a) => Load(EraseVar(d), EraseOperand(a))
    case Store(a, s) => Store(EraseOperand(a), EraseOperand(s))
    case Alu(k, d, l, r) => Alu(k, EraseVar(d), EraseOperand(l), EraseOperand(r))
    case Not(d, s) => Not(EraseVar(d), EraseOperand(s))
    case Neg(d, s) => Neg(EraseVar(d), EraseOperand(s))
    case Lea(d, a) => Lea(EraseVar(d), EraseOperand(a))
    case Cmp(l, r) => Cmp(EraseOperand(l), EraseOperand(r))
    case Test(l, r) => Test(EraseOperand(l), EraseOperand(r))
    case Cmovcc(c, d, s) => Cmovcc(c, EraseVar(d), EraseOperand(s))
    case Setcc(c, d) => Setcc(c, EraseVar(d))
    case Call(t, f) => Call(EraseTarget(t), f)
    case Push(s) => Push(EraseOperand(s))
    case Pop(d) => Pop(EraseVar(d))
    case AtomicRMW(k, a, s) => AtomicRMW(k, EraseOperand(a), EraseOperand(s))
    case _ => op
  }

  lemma OperandPrintsErased(op: Operand)
    ensures EmitOperand(op) == EmitOperand(EraseOperand(op)) && EmitAddr(op) == EmitAddr(EraseOperand(op))
  {
    hide SumOf, DispParts, Magnitude;
  }

  /** The printed line does not depend on versions. */
  lemma PrintsErased(op: Opcode, names: Names)
    ensures EmitOpcode(op, names) == EmitOpcode(EraseOpcode(op), names)
  {
    hide EmitOperand, EmitAddr, EraseOperand, EmitCondition, PackedCompare, AtomicOp, ResolveCallName, SanitiseIdent;
    match op
    case Mov(d, s) => OperandPrintsErased(s);
    case Load(d, a) => OperandPrintsErased(a);
    case Store(a, s) => OperandPrintsErased(a); OperandPrintsErased(s);
    case Alu(k, d, l, r) => OperandPrintsErased(l); OperandPrintsErased(r);
    case Not(d, s) => OperandPrintsErased(s);
    case Neg(d, s) => OperandPrintsErased(s);
    case Lea(d, a) => OperandPrintsErased(a);
    case Cmp(l, r) => OperandPrintsErased(l); OperandPrintsErased(r);
    case Test(l, r) => OperandPrintsErased(l); OperandPrintsErased(r);
    case Cmovcc(c, d, s) => OperandPrintsErased(s);
    case Call(t, f) => if t.Indirect? { OperandPrintsErased(t.op); }
    case Push(s) => OperandPrintsErased(s);
    case AtomicRMW(k, a, s) => OperandPrintsErased(a); OperandPrintsErased(s);
    case _ =>
  }

  // Parsing under the empty map is parsing and erasing.

  function EraseParts(p: MemParts): MemParts {
    MemParts(EraseOption(p.base), EraseOption(p.index), p.scale, p.disp)
  }

  lemma ScaledTermErased(term: string, versions: Versions, parts: MemParts)
    ensures EraseParts(AddScaledTerm(term, versions, parts)) == AddScaledTerm(term, map[], EraseParts(parts))
  {
    hide Text.SplitOn, Text.Trim, ParseRegister, ParseImmediate;
  }

  lemma TermErased(term: string, versions: Versions, parts: MemParts)
    ensures EraseParts(AddTerm(term, versions, parts)) == AddTerm(term, map[], EraseParts(parts))
  {
    hide AddScaledTerm, ParseRegister, ParseImmediate, HasChar, TrimStartChar;
    ScaledTermErased(term, versions, parts);
  }

  lemma {:induction false} TermsErased(terms: seq<string>, versions: Versions, parts: MemParts)
    ensures EraseParts(AddTerms(terms, versions, parts)) == AddTerms(terms, map[], EraseParts(parts))
  {
    hide AddTerm, EraseParts;
    if terms != [] {
      TermErased(terms[0], versions, parts);
      TermsErased(terms[1..], versions, AddTerm(terms[0], versions, parts));
    }
  }

  lemma MemoryErased(text: string, versions: Versions)
    ensures EraseOperand(ParseMemoryOperandSpec(text, versions)) == ParseMemoryOperandSpec(text, map[])
  {
    hide AddTerms, MemoryTerms;
    TermsErased(MemoryTerms(text), versions, NO_PARTS);
  }

  lemma OperandErased(text: string, versions: Versions)
    ensures EraseOperand(ParseSingleOperand(text, versions)) == ParseSingleOperand(text, map[])
    ensures EraseOperand(ParseMemoryOperandSpec(text, versions)) == ParseMemoryOperandSpec(text, map[])
  {
    hide ParseMemoryOperandSpec, ParseRegister, ParseImmediate, IsMemoryOperand, Text.Trim;
    MemoryErased(text, versions);
    MemoryErased(Text.Trim(text), versions);
  }

  // The arms.

  /** Two lists of opcodes that print alike. */
  predicate SamePrint(a: seq<Opcode>, b: seq<Opcode>) {
    |a| == |b| && forall k :: 0 <= k < |a| ==> EraseOpcode(a[k]) == EraseOpcode(b[k])
  }

  lemma MovErased(operands: seq<string>, mn: string, addr: nat, versions: Versions)
    ensures SamePrint(LiftMov(operands, mn, addr, versions).ops, LiftMov(operands, mn, addr, map[]).ops)
  {
    hide ParseSingleOperand, ParseMemoryOperandSpec, DstBase, IsMemoryOperand, EraseOperand;
    if |operands| >= 2 {
      var dst, src := operands[0], operands[1];
      OperandErased(dst, versions);
      OperandErased(src, versions);
      OperandErased(src, Bump(versions, DstBase(dst)));
      OperandErased(src, Bump(map[], DstBase(dst)));
      OperandErased(dst, map[]);
      OperandErased(src, map[]);
    }
  }

  lemma LeaErased(operands: seq<string>, mn: string, addr: nat, versions: Versions)
    ensures SamePrint(LiftLea(operands, mn, addr, versions).ops, LiftLea(operands, mn, addr, map[]).ops)
  {
    hide AddTerms, MemoryTerms, DstRegister;
    if |operands| >= 2 {
      OperandErased(operands[1], Bump(versions, DstBase(operands[0])));
      OperandErased(operands[1], Bump(map[], DstBase(operands[0])));
    }
  }

  lemma AluErased(op: AluOp, operands: seq<string>, mn: string, addr: nat, versions: Versions)
    ensures SamePrint(LiftBinaryAlu(op, operands, mn, addr, versions).ops, LiftBinaryAlu(op, operands, mn, addr, map[]).ops)
  {
    hide ParseSingleOperand, ParseMemoryOperandSpec, DstBase, IsMemoryOperand, EraseOperand;
    if |operands| >= 2 {
      var l, r := operands[if |operands| >= 3 then 1 else 0], operands[|operands| - 1];
      OperandErased(l, versions);
      OperandErased(r, versions);
      OperandErased(l, map[]);
      OperandErased(r, map[]);
    }
  }

  lemma MulErased(operands: seq<string>, addr: nat, versions: Versions)
    ensures SamePrint(LiftMul(operands, addr, versions).ops, LiftMul(operands, addr, map[]).ops)
  {
    hide ParseSingleOperand, LiftBinaryAlu;
    if |operands| == 1 {
      OperandErased(operands[0], versions);
      OperandErased(operands[0], map[]);
    } else {
      AluErased(MulOp, operands, "imul", addr, versions);
    }
  }

  lemma CallErased(text: string, versions: Versions, next: nat)
    ensures EraseOpcode(LiftCall(text, versions, next)) == EraseOpcode(LiftCall(text, map[], next))
  {
    hide AddTerms, MemoryTerms, ParseRegister, ParseImmediate, IsMemoryOperand;
    MemoryErased(Text.Trim(text), versions);
    MemoryErased(Text.Trim(text), map[]);
  }

  lemma JmpErased(text: string, versions: Versions)
    ensures EraseOpcode(LiftJmp(text, versions)) == EraseOpcode(LiftJmp(text, map[]))
  {
    hide AddTerms, MemoryTerms, ParseRegister, ParseImmediate, IsMemoryOperand;
    MemoryErased(Text.Trim(text), versions);
    MemoryErased(Text.Trim(text), map[]);
  }

  lemma FirstTwoErased(operands: seq<string>, versions: Versions)
    ensures forall k :: 0 <= k < |operands| ==>
              EraseOperand(ParseSingleOperand(operands[k], versions)) == EraseOperand(ParseSingleOperand(operands[k], map[]))
  {
    forall k | 0 <= k < |operands|
      ensures EraseOperand(ParseSingleOperand(operands[k], versions)) == EraseOperand(ParseSingleOperand(operands[k], map[]))
    {
      OperandErased(operands[k], versions);
      OperandErased(operands[k], map[]);
    }
  }

  lemma TwoOperandsErased(form: Form, mn: string, operands: seq<string>, addr: nat, next: nat, versions: Versions)
    requires form.FCmp? || form.FTest? || form.FAtomic? || form.FCmov? || form.FPush?
    ensures SamePrint(LiftForm(form, mn, operands, addr, next, versions).ops,
                      LiftForm(form, mn, operands, addr, next, map[]).ops)
  {
    hide ParseSingleOperand, DstBase, EraseOperand;
    FirstTwoErased(operands, versions);
  }

  lemma UnaryFormErased(form: Form, mn: string, operands: seq<string>, addr: nat, next: nat, versions: Versions)
    requires form.FNot? || form.FNeg? || form.FInc? || form.FDec?
    ensures SamePrint(LiftForm(form, mn, operands, addr, next, versions).ops,
                      LiftForm(form, mn, operands, addr, next, map[]).ops)
  {
    hide DstBase, IsMemoryOperand;
  }

  lemma PlainFormErased(form: Form, mn: string, operands: seq<string>, addr: nat, next: nat, versions: Versions)
    requires !(form.FMov? || form.FLea? || form.FAlu? || form.FMul? || form.FCall? || form.FJmp?)
    requires !(form.FCmp? || form.FTest? || form.FAtomic? || form.FCmov? || form.FPush?)
    requires !(form.FNot? || form.FNeg? || form.FInc? || form.FDec?)
    ensures SamePrint(LiftForm(form, mn, operands, addr, next, versions).ops,
                      LiftForm(form, mn, operands, addr, next, map[]).ops)
  {
    hide DstBase, BranchTarget;
  }

  lemma OneSame(a: Opcode, b: Opcode)
    requires EraseOpcode(a) == EraseOpcode(b)
    ensures SamePrint([a], [b])
  {
    hide EraseOpcode;
  }

  lemma UnliftedSame(mn: string, addr: nat, versions: Versions)
    ensures SamePrint(Unlifted(mn, addr, versions).ops, Unlifted(mn, addr, map[]).ops)
  {
  }

  lemma FormErased(form: Form, mn: string, operands: seq<string>, addr: nat, next: nat, versions: Versions)
    ensures SamePrint(LiftForm(form, mn, operands, addr, next, versions).ops,
                      LiftForm(form, mn, operands, addr, next, map[]).ops)
  {
    hide LiftMov, LiftLea, LiftBinaryAlu, LiftMul, LiftCall, LiftJmp, SamePrint, Unlifted, EraseOpcode;
    match form
    case FMov => MovErased(operands, mn, addr, versions);
    case FLea => LeaErased(operands, mn, addr, versions);
    case FAlu(op) => AluErased(op, operands, mn, addr, versions);
    case FMul => MulErased(operands, addr, versions);
    case FCall =>
      UnliftedSame(mn, addr, versions);
      if operands != [] {
        CallErased(operands[0], versions, next);
        OneSame(LiftCall(operands[0], versions, next), LiftCall(operands[0], map[], next));
      }
    case FJmp =>
      UnliftedSame(mn, addr, versions);
      if operands != [] {
        JmpErased(operands[0], versions);
        OneSame(LiftJmp(operands[0], versions), LiftJmp(operands[0], map[]));
      }
    case FCmp => TwoOperandsErased(form, mn, operands, addr, next, versions);
    case FTest => TwoOperandsErased(form, mn, operands, addr, next, versions);
    case FAtomic => TwoOperandsErased(form, mn, operands, addr, next, versions);
    case FCmov(_) => TwoOperandsErased(form, mn, operands, addr, next, versions);
    case FPush => TwoOperandsErased(form, mn, operands, addr, next, versions);
    case FNot => UnaryFormErased(form, mn, operands, addr, next, versions);
    case FNeg => UnaryFormErased(form, mn, operands, addr, next, versions);
    case FInc => UnaryFormErased(form, mn, operands, addr, next, versions);
    case FDec => UnaryFormErased(form, mn, operands, addr, next, versions);
    case _ => PlainFormErased(form, mn, operands, addr, next, versions);
  }

  /** For every instruction, whatever its text: the lines printed do not depend on the versions. */
  lemma InstructionErased(insn: DisassembledInsn, versions: Versions, names: Names)
    ensures var a, b := LiftInsn(insn, versions).ops, LiftInsn(insn, map[]).ops;
      |a| == |b| && forall k :: 0 <= k < |a| ==> EmitOpcode(a[k], names) == EmitOpcode(b[k], names)
  {
    hide LiftForm, FormOf, Mnemonic, ParseOperandsSpec, EmitOpcode, EraseOpcode;
    var m := Mnemonic(insn);
    FormErased(FormOf(m, "lock " <= Text.ToLower(insn.mnemonic)), m, ParseOperandsSpec(insn.opStr),
               insn.address, insn.address + insn.size, versions);
    var a, b := LiftInsn(insn, versions).ops, LiftInsn(insn, map[]).ops;
    assert SamePrint(a, b);
    forall k | 0 <= k < |a| ensures EmitOpcode(a[k], names) == EmitOpcode(b[k], names) {
      PrintsErased(a[k], names);
      PrintsErased(b[k], names);
    }
  }
}
