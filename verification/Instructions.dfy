/** One instruction at a time: when the emitted C does what the processor does. */
module Instructions {
  import opened Wrappers
  import opened Words
  import opened Ir
  import opened Lifter
  import opened CLang
  import opened Backend
  import opened X86
  import opened OperandProofs
  import opened LiftProofs
  import opened OperandMeaning
  import opened Flags

  /** Equal registers and memory, and flags that answer the readable conditions alike. */
  ghost predicate Related(source: Source, x: XState, c: CState) {
    Agree(x, c) && FlagsAgree(source, x.flags, c.regs(RFlags))
  }

  /** The emitted return does not pop the return address: rsp stays eight below the processor's. */
  ghost predicate RelatedOnReturn(x: XState, c: CState) {
    && x.mem == c.mem
    && (forall r: VarBase :: r != RFlags && r != RSP ==> x.regs(r) == c.regs(r))
    && x.regs(RSP) == ToWord(c.regs(RSP) + 8)
  }

  /** Where the flags come from after an instruction; operations whose flags the C does not keep make
      them stale. */
  function Transfer(i: XInsn, source: Source): Source {
    match i
    case XCmp(_, _) => FromCmp
    case XTest(_, _) => FromTest
    case XAlu(_, _, _) => Stale
    case XImul(_, _) => Stale
    case XImul3(_, _, _) => Stale
    case XShift(_, _, _) => Stale
    case XNeg(_) => Stale
    case XInc(_) => Stale
    case XDec(_) => Stale
    case _ => source
  }

  /** The forms that the decompiler gets right. */
  predicate Faithful(i: XInsn, source: Source) {
    match i
    case XAlu(_, d, _) => d.XReg?
    case XShift(_, d, n) => d.XReg? && n < 64
    case XNot(d) => d.XReg?
    case XNeg(d) => d.XReg?
    case XInc(d) => d.XReg?
    case XDec(d) => d.XReg?
    case XCmov(c, to, s) => c in Readable(source) || s == XReg(to)
    case XJcc(c, _) => c in Readable(source)
    case XPush(s) => !s.Uses(RSP)
    case XPop(d) => d.XReg? && d.reg != RSP
    case _ => true
  }

  /** Negating the least signed number, which is undefined in C. */
  ghost predicate NegatesLeast(i: XInsn, x: XState) {
    i.XNeg? && i.dst.Value(x) == 0x8000_0000_0000_0000
  }

  /** The lines printed for an instruction. */
  function LinesOf(ops: seq<Opcode>, names: Names): seq<CLine> {
    seq(|ops|, k requires 0 <= k < |ops| => EmitOpcode(ops[k], names))
  }

  function Lines(i: XInsn, next: nat, names: Names): seq<CLine>
    requires i.Encodable()
  {
    LinesOf(Lowered(i, "", 0, next, map[]), names)
  }

  ghost function ExecLines(lines: seq<CLine>, s: CState, callee: Callee): COutcome {
    if lines == [] then Defined(s, Onward)
    else
      var r := ExecLine(lines[0], s, callee);
      if r.Defined? && r.next.Onward? then ExecLines(lines[1..], r.state, callee) else r
  }

  ghost predicate OutcomesAgree(source: Source, x: XOutcome, c: COutcome) {
    && c.Defined?
    && match x.next {
         case XOnward => c.next.Onward? && Related(source, x.state, c.state)
         case XGoto(t) => c.next == ToLabel(t) && Related(source, x.state, c.state)
         case XReturn => c.next.Leaves? && RelatedOnReturn(x.state, c.state)
       }
  }

  // Single statements.

  lemma AssignLine(r: VarBase, e: CExpr, w: word, s: CState, callee: Callee)
    requires Word(e, s) == Some(w)
    ensures ExecLine([CAssign(r, e)], s, callee) == Defined(SetReg(s, r, w), Onward)
  {
  }

  lemma OneLine(line: CLine, s: CState, callee: Callee)
    ensures ExecLines([line], s, callee) == ExecLine(line, s, callee)
  {
    assert [line][1..] == [];
  }

  /** Lines run after lines that go on; otherwise the first outcome stands. */
  lemma {:induction false} LinesThen(a: seq<CLine>, b: seq<CLine>, s: CState, callee: Callee)
    ensures var r := ExecLines(a, s, callee);
      ExecLines(a + b, s, callee) == if r.Defined? && r.next.Onward? then ExecLines(b, r.state, callee) else r
    decreases |a|
  {
    hide ExecLine;
    if a == [] {
      assert a + b == b;
    } else {
      assert (a + b)[0] == a[0] && (a + b)[1..] == a[1..] + b;
      var r := ExecLine(a[0], s, callee);
      if r.Defined? && r.next.Onward? {
        LinesThen(a[1..], b, r.state, callee);
      }
    }
  }

  /** Writing one register keeps the machines in step. */
  lemma RegisterWritten(source: Source, x: XState, c: CState, r: Gpr, w: word)
    requires Related(source, x, c)
    ensures Related(source, x.SetReg(r, w), SetReg(c, r, w))
  {
  }

  // Expressions.

  /** The C operator on values: an unsigned left operand makes it the operation on words. */
  lemma OperatorApplied(op: AluOp, a: word, v: CVal, b: word)
    requires Bits(v) == b && (op == ShlOp || op == ShrOp ==> v == U(b))
    ensures Apply(OperatorOf(op), U(a), v)
            == if AluWord(op, a, b).Some? then Some(U(AluWord(op, a, b).value)) else None
  {
    hide ShiftLeft, ShiftRight, BitWord, ToWord;
  }

  lemma OperatorEvaluated(op: CBinOp, l: CExpr, r: CExpr, s: CState)
    requires Eval(l, s).Some? && Eval(r, s).Some?
    ensures Eval(CBin(op, l, r), s) == Apply(op, Eval(l, s).value, Eval(r, s).value)
  {
    hide Apply;
  }

  /** An emitted register operation has the value of the operation, when C defines one. */
  lemma AluEmitted(op: AluOp, l: CExpr, r: CExpr, s: CState, a: word, b: word)
    requires Eval(l, s) == Some(U(a)) && Word(r, s) == Some(b)
    requires op == ShlOp || op == ShrOp ==> Eval(r, s) == Some(U(b))
    ensures Word(CBin(OperatorOf(op), l, r), s) == AluWord(op, a, b)
  {
    hide Eval, Apply, AluWord, OperatorOf;
    OperatorEvaluated(OperatorOf(op), l, r, s);
    OperatorApplied(op, a, Eval(r, s).value, b);
  }

  lemma OneOp(op: Opcode, names: Names)
    ensures LinesOf([op], names) == [EmitOpcode(op, names)]
  {
  }

  /** A single assignment whose value is known. */
  lemma AssignSound(r: Gpr, e: CExpr, w: word, source: Source, x: XState, c: CState, callee: Callee)
    requires Related(source, x, c) && Word(e, c) == Some(w)
    ensures OutcomesAgree(source, XOutcome(x.SetReg(r, w), XOnward), ExecLines([[CAssign(r, e)]], c, callee))
  {
    AssignLine(r, e, w, c, callee);
    OneLine([CAssign(r, e)], c, callee);
    RegisterWritten(source, x, c, r, w);
  }

  /** The same for an operation that changes the processor's flags. */
  lemma AssignFlagsSound(r: Gpr, e: CExpr, w: word, f: XFlags, source: Source, x: XState, c: CState, callee: Callee)
    requires Related(source, x, c) && Word(e, c) == Some(w)
    ensures OutcomesAgree(Stale, XOutcome(x.SetReg(r, w).SetFlags(f), XOnward), ExecLines([[CAssign(r, e)]], c, callee))
  {
    AssignLine(r, e, w, c, callee);
    OneLine([CAssign(r, e)], c, callee);
    RegisterWritten(source, x, c, r, w);
  }

  lemma StoreSound(addr: CExpr, e: CExpr, a: word, w: word, source: Source, x: XState, c: CState, callee: Callee)
    requires Related(source, x, c) && Word(addr, c) == Some(a) && Word(e, c) == Some(w)
    ensures OutcomesAgree(source, XOutcome(XState(x.regs, Write64(x.mem, a, w), x.flags), XOnward),
                          ExecLines([[CStore(addr, e)]], c, callee))
  {
    OneLine([CStore(addr, e)], c, callee);
    assert [CStore(addr, e)][1..] == [];
  }

  lemma FlagsAssigned(e: CExpr, w: word, f: XFlags, source: Source, x: XState, c: CState, callee: Callee)
    requires Agree(x, c) && Word(e, c) == Some(w) && FlagsAgree(source, f, w)
    ensures OutcomesAgree(source, XOutcome(x.SetFlags(f), XOnward), ExecLines([[CAssign(RFlags, e)]], c, callee))
  {
    AssignLine(RFlags, e, w, c, callee);
    OneLine([CAssign(RFlags, e)], c, callee);
  }

  // The instructions.

  lemma MovLines(d: XOp, s: XOp, next: nat, names: Names)
    requires XMov(d, s).Encodable()
    ensures Lines(XMov(d, s), next, names)
            == if d.XMemory? then [[CStore(EmitAddr(MemOperandOf(d.mem, map[])), EmitOperand(OperandOf(s, map[])))]]
               else [[CAssign(d.reg, EmitOperand(OperandOf(s, Bump(map[], d.reg))))]]
  {
    hide EmitMemAddr;
    OneOp(Lowered(XMov(d, s), "", 0, next, map[])[0], names);
  }

  lemma MovSound(d: XOp, s: XOp, next: nat, names: Names, source: Source, x: XState, c: CState, stray: XFlags, callee: Callee)
    requires XMov(d, s).Encodable() && Related(source, x, c)
    ensures OutcomesAgree(source, XExec(XMov(d, s), x, stray), ExecLines(Lines(XMov(d, s), next, names), c, callee))
  {
    hide ExecLines, Lines, Word, Eval, OutcomesAgree, Related, EmitOperand, EmitAddr, OperandOf, MemOperandOf, Write64, Read64;
    MovLines(d, s, next, names);
    RelatedAgree(source, x, c);
    if d.XMemory? {
      AddressEmitted(d.mem, map[], x, c);
      OperandEmitted(s, map[], x, c);
      StoreSound(EmitAddr(MemOperandOf(d.mem, map[])), EmitOperand(OperandOf(s, map[])),
                 d.mem.Address(x.regs), s.Value(x), source, x, c, callee);
    } else {
      var after := Bump(map[], d.reg);
      OperandEmitted(s, after, x, c);
      AssignSound(d.reg, EmitOperand(OperandOf(s, after)), s.Value(x), source, x, c, callee);
    }
  }

  lemma LeaLines(to: Gpr, m: XMem, next: nat, names: Names)
    requires m.Valid()
    ensures Lines(XLea(to, m), next, names) == [[CAssign(to, CToUnsigned(EmitAddr(MemOperandOf(m, Bump(map[], to)))))]]
  {
    hide EmitAddr, MemOperandOf;
    OneOp(Lowered(XLea(to, m), "", 0, next, map[])[0], names);
  }

  lemma CastWord(e: CExpr, s: CState)
    ensures Word(CToUnsigned(e), s) == Word(e, s)
  {
  }

  lemma LeaSound(to: Gpr, m: XMem, next: nat, names: Names, source: Source, x: XState, c: CState, stray: XFlags, callee: Callee)
    requires m.Valid() && Related(source, x, c)
    ensures OutcomesAgree(source, XExec(XLea(to, m), x, stray), ExecLines(Lines(XLea(to, m), next, names), c, callee))
  {
    hide ExecLines, Lines, Word, Eval, OutcomesAgree, Related, EmitAddr, MemOperandOf;
    var after := Bump(map[], to);
    LeaLines(to, m, next, names);
    RelatedAgree(source, x, c);
    AddressEmitted(m, after, x, c);
    CastWord(EmitAddr(MemOperandOf(m, after)), c);
    AssignSound(to, CToUnsigned(EmitAddr(MemOperandOf(m, after))), m.Address(x.regs), source, x, c, callee);
  }

  lemma AluLines(i: XInsn, next: nat, names: Names)
    requires i.XAlu? && i.Encodable() && i.dst.XReg?
    ensures Lines(i, next, names)
            == [[CAssign(i.dst.reg, CBin(OperatorOf(i.op), EmitOperand(OperandOf(i.dst, map[])), EmitOperand(OperandOf(i.src, map[]))))]]
  {
    hide EmitOperand, OperandOf;
    OneOp(Lowered(i, "", 0, next, map[])[0], names);
  }

  lemma ResultDefined(op: AluOp, a: word, b: word)
    requires op in {AddOp, SubOp, AndOp, OrOp, XorOp}
    ensures AluWord(op, a, b) == Some(AluResult(op, a, b))
  {
    hide BitWord, ToWord;
  }

  lemma AluSound(i: XInsn, next: nat, names: Names, source: Source, x: XState, c: CState, stray: XFlags, callee: Callee)
    requires i.XAlu? && i.Encodable() && i.dst.XReg? && Related(source, x, c)
    ensures OutcomesAgree(Stale, XExec(i, x, stray), ExecLines(Lines(i, next, names), c, callee))
  {
    hide ExecLines, Lines, Word, Eval, OutcomesAgree, Related;
    hide EmitOperand, OperandOf, AluWord, AluResult, AluFlags, OperatorOf, Read64;
    var a, b := i.dst.Value(x), i.src.Value(x);
    var l, r := EmitOperand(OperandOf(i.dst, map[])), EmitOperand(OperandOf(i.src, map[]));
    AluLines(i, next, names);
    RelatedAgree(source, x, c);
    OperandEmitted(i.dst, map[], x, c);
    OperandEmitted(i.src, map[], x, c);
    AluEmitted(i.op, l, r, c, a, b);
    ResultDefined(i.op, a, b);
    AssignFlagsSound(i.dst.reg, CBin(OperatorOf(i.op), l, r), AluResult(i.op, a, b), AluFlags(i.op, a, b),
                     source, x, c, callee);
  }

  lemma MultiplySound(to: Gpr, l: XOp, r: XOp, source: Source, x: XState, c: CState, stray: XFlags, callee: Callee)
    requires l.Valid() && r.Valid() && !l.XImm? && Related(source, x, c)
    ensures OutcomesAgree(Stale, XOutcome(Multiply(x, to, l.Value(x), r.Value(x), stray), XOnward),
              ExecLines([[CAssign(to, CBin(CMul, EmitOperand(OperandOf(l, map[])), EmitOperand(OperandOf(r, map[]))))]], c, callee))
  {
    hide EmitOperand, OperandOf, Word, Eval, ExecLine, ExecLines, OutcomesAgree, FlagsAgree, XOp.Value;
    var a, b := l.Value(x), r.Value(x);
    var el, er := EmitOperand(OperandOf(l, map[])), EmitOperand(OperandOf(r, map[]));
    OperandEmitted(l, map[], x, c);
    OperandEmitted(r, map[], x, c);
    AluEmitted(MulOp, el, er, c, a, b);
    SignedProduct(a, b);
    var lost := SignedOverflow(Product(a, b));
    AssignFlagsSound(to, CBin(CMul, el, er), ToWord(Product(a, b)), stray.(cf := lost, of := lost), source, x, c, callee);
  }

  lemma ImulSound(i: XInsn, next: nat, names: Names, source: Source, x: XState, c: CState, stray: XFlags, callee: Callee)
    requires (i.XImul? || i.XImul3?) && i.Encodable() && Related(source, x, c)
    ensures OutcomesAgree(Stale, XExec(i, x, stray), ExecLines(Lines(i, next, names), c, callee))
  {
    hide EmitOperand, OperandOf, Word, Eval, ExecLine, ExecLines, Multiply, OutcomesAgree, Related, FlagsAgree;
    OneOp(Lowered(i, "", 0, next, map[])[0], names);
    if i.XImul? {
      MultiplySound(i.to, XReg(i.to), i.src, source, x, c, stray, callee);
    } else {
      MultiplySound(i.to, i.src, XImm(i.imm), source, x, c, stray, callee);
    }
  }

  lemma ShiftByZero(a: word)
    ensures ShiftLeft(a, 0) == a && ShiftRight(a, 0) == a
  {
  }

  /** Writing a register with its own value changes nothing that counts. */
  lemma RewriteSound(d: Gpr, e: CExpr, source: Source, x: XState, c: CState, callee: Callee)
    requires Related(source, x, c) && Word(e, c) == Some(x.regs(d))
    ensures OutcomesAgree(Stale, XOutcome(x, XOnward), ExecLines([[CAssign(d, e)]], c, callee))
  {
    AssignLine(d, e, x.regs(d), c, callee);
    OneLine([CAssign(d, e)], c, callee);
  }

  lemma ShiftLines(left: bool, d: Gpr, n: nat, next: nat, names: Names)
    requires n < 64
    ensures Lines(XShift(left, XReg(d), n), next, names) == [[CAssign(d, CBin(if left then CShl else CShr, CReg(d), CHexU(n)))]]
  {
    OneOp(Lowered(XShift(left, XReg(d), n), "", 0, next, map[])[0], names);
  }

  lemma ShiftSound(left: bool, d: Gpr, n: nat, next: nat, names: Names, source: Source, x: XState, c: CState,
                   stray: XFlags, callee: Callee)
    requires n < 64 && Related(source, x, c)
    ensures OutcomesAgree(Stale, XExec(XShift(left, XReg(d), n), x, stray),
                          ExecLines(Lines(XShift(left, XReg(d), n), next, names), c, callee))
  {
    hide Lines, ExecLines, Related, ShiftLeft, ShiftRight, Word, OutcomesAgree, ResultFlags;
    var op := if left then ShlOp else ShrOp;
    var a := x.regs(d);
    var w := if left then ShiftLeft(a, n) else ShiftRight(a, n);
    var e := CBin(OperatorOf(op), CReg(d), CHexU(n));
    ShiftLines(left, d, n, next, names);
    SameRegister(source, x, c, d);
    ConstantRead(n, c);
    AluEmitted(op, CReg(d), CHexU(n), c, a, n);
    if n == 0 {
      ShiftByZero(a);
      RewriteSound(d, e, source, x, c, callee);
    } else {
      AssignFlagsSound(d, e, w, ResultFlags(w, stray.cf, stray.of), source, x, c, callee);
    }
  }

  lemma ConstantRead(n: word, s: CState)
    ensures Eval(CHexU(n), s) == Some(U(n)) && Word(CHexU(n), s) == Some(n)
  {
  }

  lemma NotLines(d: Gpr, next: nat, names: Names)
    ensures Lines(XNot(XReg(d)), next, names) == [[CAssign(d, CInvert(CReg(d)))]]
  {
    OneOp(Lowered(XNot(XReg(d)), "", 0, next, map[])[0], names);
  }

  lemma InvertEmitted(d: Gpr, c: CState)
    ensures Word(CInvert(CReg(d)), c) == Some(0xffff_ffff_ffff_ffff - c.regs(d))
  {
    assert Eval(CReg(d), c) == Some(U(c.regs(d)));
  }

  lemma NotSound(d: Gpr, next: nat, names: Names, source: Source, x: XState, c: CState, stray: XFlags, callee: Callee)
    requires Related(source, x, c)
    ensures OutcomesAgree(source, XExec(XNot(XReg(d)), x, stray), ExecLines(Lines(XNot(XReg(d)), next, names), c, callee))
  {
    hide ExecLines, Lines, Word, Eval, OutcomesAgree, Related;
    NotLines(d, next, names);
    SameRegister(source, x, c, d);
    InvertEmitted(d, c);
    AssignSound(d, CInvert(CReg(d)), 0xffff_ffff_ffff_ffff - x.regs(d), source, x, c, callee);
  }

  /** Negation through the signed type, which overflows for the least number. */
  lemma NegateEmitted(d: Gpr, c: CState)
    ensures Word(CToUnsigned(CNegate(CToSigned(CReg(d)))), c)
            == if c.regs(d) == 0x8000_0000_0000_0000 then None else Some(ToWord(0 - c.regs(d) as int))
  {
    var w := c.regs(d);
    assert Eval(CReg(d), c) == Some(U(w));
    assert Eval(CToSigned(CReg(d)), c) == Some(I(Signed(w)));
    var n := 0 - Signed(w) as int;
    assert Eval(CNegate(CToSigned(CReg(d))), c) == InInt64(n);
    assert InInt64(n).None? <==> w == 0x8000_0000_0000_0000;
    NegatedWord(w);
  }

  lemma NegatedWord(w: word)
    ensures ToWord(0 - Signed(w) as int) == ToWord(0 - w as int)
  {
  }

  lemma NegLines(d: Gpr, next: nat, names: Names)
    ensures Lines(XNeg(XReg(d)), next, names) == [[CAssign(d, CToUnsigned(CNegate(CToSigned(CReg(d)))))]]
  {
    OneOp(Lowered(XNeg(XReg(d)), "", 0, next, map[])[0], names);
  }

  lemma UndefinedLine(d: VarBase, e: CExpr, c: CState, callee: Callee)
    requires Word(e, c) == None
    ensures ExecLines([[CAssign(d, e)]], c, callee) == Undefined
  {
    hide Word;
    OneStatement(CAssign(d, e), c, callee);
  }

  lemma NegSound(d: Gpr, next: nat, names: Names, source: Source, x: XState, c: CState, stray: XFlags, callee: Callee)
    requires Related(source, x, c)
    ensures !NegatesLeast(XNeg(XReg(d)), x) ==>
              OutcomesAgree(Stale, XExec(XNeg(XReg(d)), x, stray), ExecLines(Lines(XNeg(XReg(d)), next, names), c, callee))
    ensures NegatesLeast(XNeg(XReg(d)), x) ==> ExecLines(Lines(XNeg(XReg(d)), next, names), c, callee) == Undefined
  {
    hide Lines, ExecLines, ExecLine, Word, Eval, Related, OutcomesAgree, SubFlags, ToWord;
    var e := CToUnsigned(CNegate(CToSigned(CReg(d))));
    NegLines(d, next, names);
    SameRegister(source, x, c, d);
    NegateEmitted(d, c);
    if NegatesLeast(XNeg(XReg(d)), x) {
      UndefinedLine(d, e, c, callee);
    } else {
      AssignFlagsSound(d, e, ToWord(0 - x.regs(d) as int), SubFlags(0, x.regs(d)), source, x, c, callee);
    }
  }

  lemma StepLines(i: XInsn, d: Gpr, next: nat, names: Names)
    requires i == XInc(XReg(d)) || i == XDec(XReg(d))
    ensures Lines(i, next, names) == [[CAssign(d, CBin(if i.XInc? then CAdd else CSub, CReg(d), CHexU(1)))]]
  {
    OneOp(Lowered(i, "", 0, next, map[])[0], names);
  }

  lemma StepSound(inc: bool, d: Gpr, next: nat, names: Names, source: Source, x: XState, c: CState,
                  stray: XFlags, callee: Callee)
    requires Related(source, x, c)
    ensures var i := if inc then XInc(XReg(d)) else XDec(XReg(d));
      OutcomesAgree(Stale, XExec(i, x, stray), ExecLines(Lines(i, next, names), c, callee))
  {
    hide Lines, ExecLines, Related, Word, OutcomesAgree, AddFlags, SubFlags;
    var i := if inc then XInc(XReg(d)) else XDec(XReg(d));
    var op := if inc then AddOp else SubOp;
    var a: int := x.regs(d);
    StepLines(i, d, next, names);
    SameRegister(source, x, c, d);
    ConstantRead(1, c);
    AluEmitted(op, CReg(d), CHexU(1), c, a, 1);
    AssignFlagsSound(d, CBin(OperatorOf(op), CReg(d), CHexU(1)), if inc then ToWord(a + 1) else ToWord(a - 1),
                     (if inc then AddFlags(a, 1) else SubFlags(a, 1)).(cf := x.flags.cf), source, x, c, callee);
  }

  lemma CmpSound(l: XOp, r: XOp, next: nat, names: Names, source: Source, x: XState, c: CState,
                 stray: XFlags, callee: Callee)
    requires XCmp(l, r).Encodable() && Related(source, x, c)
    ensures OutcomesAgree(FromCmp, XExec(XCmp(l, r), x, stray), ExecLines(Lines(XCmp(l, r), next, names), c, callee))
  {
    hide EmitOperand, OperandOf, Word, Eval, ExecLine, ExecLines, Taken, Holds, XOp.Value, PackCmp, SubFlags, PackedCompare;
    var a, b := l.Value(x), r.Value(x);
    var el, er := EmitOperand(OperandOf(l, map[])), EmitOperand(OperandOf(r, map[]));
    OneOp(Lowered(XCmp(l, r), "", 0, next, map[])[0], names);
    OperandEmitted(l, map[], x, c);
    OperandEmitted(r, map[], x, c);
    CompareEmitted(el, er, c, a, b);
    forall k | k in Readable(FromCmp) ensures Taken(k, PackCmp(a, b)) <==> Holds(k, SubFlags(a, b)) {
      CmpConditions(a, b, k);
    }
    FlagsAssigned(PackedCompare(el, er), PackCmp(a, b), SubFlags(a, b), FromCmp, x, c, callee);
  }

  /** An emitted test leaves one for a zero conjunction, zero otherwise. */
  lemma TestEmitted(l: CExpr, r: CExpr, s: CState, a: word, b: word)
    requires Eval(l, s) == Some(U(a)) && Word(r, s) == Some(b)
    ensures Word(CCond(CBin(CEq, CBin(CAnd, l, r), CInt(0)), CInt(1), CInt(0)), s) == Some(PackTest(a, b))
  {
    var w := BitWord(BAnd, a, b);
    assert Eval(CBin(CAnd, l, r), s) == Some(U(w));
    assert Eval(CInt(0), s) == Some(I(0)) && Eval(CInt(1), s) == Some(I(1));
    assert Eval(CBin(CEq, CBin(CAnd, l, r), CInt(0)), s) == Some(Truth(w == 0));
  }

  lemma TestSound(l: XOp, r: XOp, next: nat, names: Names, source: Source, x: XState, c: CState,
                  stray: XFlags, callee: Callee)
    requires XTest(l, r).Encodable() && Related(source, x, c)
    ensures OutcomesAgree(FromTest, XExec(XTest(l, r), x, stray), ExecLines(Lines(XTest(l, r), next, names), c, callee))
  {
    hide EmitOperand, OperandOf, Word, Eval, ExecLine, ExecLines, Taken, Holds, XOp.Value, PackTest, LogicFlags, FlagsAgree;
    var a, b := l.Value(x), r.Value(x);
    var el, er := EmitOperand(OperandOf(l, map[])), EmitOperand(OperandOf(r, map[]));
    OneOp(Lowered(XTest(l, r), "", 0, next, map[])[0], names);
    OperandEmitted(l, map[], x, c);
    OperandEmitted(r, map[], x, c);
    TestEmitted(el, er, c, a, b);
    var f := LogicFlags(BitWord(BAnd, a, b));
    forall k | k in Readable(FromTest) ensures Taken(k, PackTest(a, b)) <==> Holds(k, f) {
      TestConditions(a, b, k);
    }
    FlagsAssigned(CCond(CBin(CEq, CBin(CAnd, el, er), CInt(0)), CInt(1), CInt(0)), PackTest(a, b), f,
                  FromTest, x, c, callee);
  }

  lemma ChoiceEmitted(cond: CExpr, t: CExpr, f: CExpr, s: CState, b: bool, v: word, w: word)
    requires Word(cond, s).Some? && (Word(cond, s).value != 0 <==> b)
    requires Word(t, s) == Some(v) && Word(f, s) == Some(w)
    ensures Word(CCond(cond, t, f), s) == Some(if b then v else w)
  {
  }

  lemma CmovLines(k: Condition, to: Gpr, s: XOp, next: nat, names: Names)
    requires XCmov(k, to, s).Encodable()
    ensures Lines(XCmov(k, to, s), next, names)
            == [[CAssign(to, CCond(EmitCondition(k), EmitOperand(OperandOf(s, map[])), CReg(to)))]]
  {
    hide EmitOperand, OperandOf, EmitCondition;
    OneOp(Cmovcc(k, Fresh(map[], to), OperandOf(s, map[])), names);
  }

  /** Writing a register with the value it has changes nothing that counts. */
  lemma KeptRelated(source: Source, x: XState, c: CState, r: Gpr)
    requires Related(source, x, c)
    ensures Related(source, x, SetReg(c, r, x.regs(r)))
  {
    hide FlagsAgree;
  }

  lemma CmovRelated(k: Condition, to: Gpr, v: word, source: Source, x: XState, c: CState)
    requires Related(source, x, c) && (k in Readable(source) || v == x.regs(to))
    ensures Related(source, if Holds(k, x.flags) then x.SetReg(to, v) else x,
                    SetReg(c, to, if Taken(k, c.regs(RFlags)) then v else x.regs(to)))
  {
    hide Taken, Holds;
    RegisterWritten(source, x, c, to, v);
    KeptRelated(source, x, c, to);
  }

  lemma CmovSound(k: Condition, to: Gpr, s: XOp, next: nat, names: Names, source: Source, x: XState, c: CState,
                  stray: XFlags, callee: Callee)
    requires XCmov(k, to, s).Encodable() && Related(source, x, c)
    requires k in Readable(source) || s == XReg(to)
    ensures OutcomesAgree(source, XExec(XCmov(k, to, s), x, stray), ExecLines(Lines(XCmov(k, to, s), next, names), c, callee))
  {
    hide Lines, ExecLine, ExecLines, EmitOperand, EmitCondition, OperandOf, Word, Eval, Related, Taken, Holds, Readable, Read64;
    hide SetReg, XState.SetReg;
    var e := EmitOperand(OperandOf(s, map[]));
    CmovLines(k, to, s, next, names);
    RelatedAgree(source, x, c);
    OperandEmitted(s, map[], x, c);
    ConditionEmitted(k, c);
    var taken := Taken(k, c.regs(RFlags));
    RegisterRead(to, c);
    SameRegister(source, x, c, to);
    ChoiceEmitted(EmitCondition(k), e, CReg(to), c, taken, s.Value(x), x.regs(to));
    var w := if taken then s.Value(x) else x.regs(to);
    AssignLine(to, CCond(EmitCondition(k), e, CReg(to)), w, c, callee);
    OneLine([CAssign(to, CCond(EmitCondition(k), e, CReg(to)))], c, callee);
    CmovRelated(k, to, s.Value(x), source, x, c);
  }

  lemma JumpLines(i: XInsn, next: nat, names: Names)
    requires i.XNop? || i.XJmp? || i.XJcc? || i.XRet?
    ensures Lines(i, next, names)
            == [[match i
                 case XNop => CComment
                 case XJmp(t) => CGoto(t)
                 case XJcc(k, t) => CIfGoto(EmitCondition(k), t)
                 case _ => CReturnRax]]
  {
    hide EmitCondition;
    OneOp(Lowered(i, "", 0, next, map[])[0], names);
  }

  lemma OneStatement(st: CStmt, s: CState, callee: Callee)
    ensures ExecLines([[st]], s, callee) == ExecStmt(st, s, callee)
  {
    hide ExecStmt;
    OneLine([st], s, callee);
    assert [st][1..] == [];
    var r := ExecStmt(st, s, callee);
    assert r.Defined? && r.next.Onward? ==> ExecLine([], r.state, callee) == r;
  }

  lemma ReturnRelated(source: Source, x: XState, c: CState)
    requires Related(source, x, c)
    ensures RelatedOnReturn(x.SetReg(RSP, ToWord(x.regs(RSP) + 8)), c)
  {
    assert ToWord(x.regs(RSP) + 8) == ToWord(c.regs(RSP) + 8);
    hide ToWord;
  }

  lemma ReadableAgrees(k: Condition, source: Source, x: XState, c: CState)
    requires Related(source, x, c) && k in Readable(source)
    ensures Taken(k, c.regs(RFlags)) <==> Holds(k, x.flags)
  {
    hide Taken, Holds, Readable;
  }

  lemma JumpSound(i: XInsn, next: nat, names: Names, source: Source, x: XState, c: CState, stray: XFlags, callee: Callee)
    requires Related(source, x, c)
    requires i.XNop? || i.XJmp? || (i.XJcc? && i.c in Readable(source)) || i.XRet?
    ensures OutcomesAgree(source, XExec(i, x, stray), ExecLines(Lines(i, next, names), c, callee))
  {
    hide Lines, ExecLines, ExecLine, EmitCondition, Word, Taken, Holds, Readable, Related, RelatedOnReturn, ToWord, XState.SetReg;
    JumpLines(i, next, names);
    OneStatement(Lines(i, next, names)[0][0], c, callee);
    if i.XJcc? {
      ConditionEmitted(i.c, c);
      ReadableAgrees(i.c, source, x, c);
    }
    ReturnRelated(source, x, c);
  }

  // The stack.

  lemma FirstStatement(line: CLine, s: CState, mid: CState, callee: Callee)
    requires line != [] && ExecStmt(line[0], s, callee) == Defined(mid, Onward)
    ensures ExecLine(line, s, callee) == ExecLine(line[1..], mid, callee)
  {
  }

  lemma TwoStatements(p: CStmt, q: CStmt, s: CState, mid: CState, after: CState, callee: Callee)
    requires ExecStmt(p, s, callee) == Defined(mid, Onward) && ExecStmt(q, mid, callee) == Defined(after, Onward)
    ensures ExecLine([p, q], s, callee) == Defined(after, Onward)
  {
    FirstStatement([p, q], s, mid, callee);
    assert [p, q][1..] == [q];
    FirstStatement([q], mid, after, callee);
    assert [q][1..] == [];
  }

  lemma SlotPushed(s: CState, callee: Callee)
    ensures ExecStmt(PUSH_SLOT, s, callee) == Defined(SetReg(s, RSP, ToWord(s.regs(RSP) - 8)), Onward)
  {
    assert Eval(CInt(8), s) == Some(I(8)) && Bits(I(8)) == 8;
    assert Eval(CReg(RSP), s) == Some(U(s.regs(RSP)));
    assert Apply(CSub, U(s.regs(RSP)), I(8)) == Some(U(ToWord(s.regs(RSP) - 8)));
  }

  lemma SlotPopped(s: CState, callee: Callee)
    ensures ExecStmt(POP_SLOT, s, callee) == Defined(SetReg(s, RSP, ToWord(s.regs(RSP) + 8)), Onward)
  {
    assert Eval(CInt(8), s) == Some(I(8)) && Bits(I(8)) == 8;
    assert Eval(CReg(RSP), s) == Some(U(s.regs(RSP)));
    assert Apply(CAdd, U(s.regs(RSP)), I(8)) == Some(U(ToWord(s.regs(RSP) + 8)));
  }

  lemma StackTopIs(s: CState)
    ensures Eval(STACK_TOP, s) == Some(U(s.regs(RSP))) && Word(STACK_TOP, s) == Some(s.regs(RSP))
  {
    assert Eval(CReg(RSP), s) == Some(U(s.regs(RSP)));
  }

  lemma StoreStmt(addr: CExpr, e: CExpr, s: CState, a: word, w: word, callee: Callee)
    requires Word(addr, s) == Some(a) && Word(e, s) == Some(w)
    ensures ExecStmt(CStore(addr, e), s, callee) == Defined(CState(s.regs, Write64(s.mem, a, w)), Onward)
  {
    hide Word, Write64;
  }

  lemma AssignStmt(d: VarBase, e: CExpr, s: CState, w: word, callee: Callee)
    requires Word(e, s) == Some(w)
    ensures ExecStmt(CAssign(d, e), s, callee) == Defined(SetReg(s, d, w), Onward)
  {
    hide Word;
  }

  /** The emitted push evaluates its operand after moving the stack pointer. */
  lemma PushLine(e: CExpr, s: CState, w: word, callee: Callee)
    requires Word(e, SetReg(s, RSP, ToWord(s.regs(RSP) - 8))) == Some(w)
    ensures var top := ToWord(s.regs(RSP) - 8);
      ExecLine([PUSH_SLOT, CStore(STACK_TOP, e)], s, callee)
      == Defined(CState(Updated(s.regs, RSP, top), Write64(s.mem, top, w)), Onward)
  {
    hide Word, Eval, Write64, ExecStmt, ExecLine, ToWord;
    var top := ToWord(s.regs(RSP) - 8);
    var mid := SetReg(s, RSP, top);
    SlotPushed(s, callee);
    StackTopIs(mid);
    StoreStmt(STACK_TOP, e, mid, top, w, callee);
    TwoStatements(PUSH_SLOT, CStore(STACK_TOP, e), s, mid, CState(mid.regs, Write64(mid.mem, top, w)), callee);
  }

  /** The emitted pop writes its destination before moving the stack pointer. */
  lemma PopLine(d: VarBase, s: CState, callee: Callee)
    ensures var mid := SetReg(s, d, Read64(s.mem, s.regs(RSP)));
      ExecLine([CAssign(d, CDeref(STACK_TOP)), POP_SLOT], s, callee)
      == Defined(SetReg(mid, RSP, ToWord(mid.regs(RSP) + 8)), Onward)
  {
    hide Word, Eval, Read64, ExecStmt, ExecLine, ToWord, SetReg, Updated, POP_SLOT, STACK_TOP;
    var w := Read64(s.mem, s.regs(RSP));
    var mid := SetReg(s, d, w);
    StackTopIs(s);
    DerefWord(STACK_TOP, s, s.regs(RSP));
    AssignStmt(d, CDeref(STACK_TOP), s, w, callee);
    SlotPopped(mid, callee);
    TwoStatements(CAssign(d, CDeref(STACK_TOP)), POP_SLOT, s, mid, SetReg(mid, RSP, ToWord(mid.regs(RSP) + 8)), callee);
  }

  lemma DerefWord(e: CExpr, s: CState, a: word)
    requires Word(e, s) == Some(a)
    ensures Word(CDeref(e), s) == Some(Read64(s.mem, a))
  {
  }

  /** An operand that does not mention rsp has the same value when rsp has moved. */
  lemma MovedStack(op: XOp, x: XState, top: word)
    requires !op.Uses(RSP)
    ensures op.Value(x.SetReg(RSP, top)) == op.Value(x)
  {
    hide Read64, ToWord;
  }

  lemma PushLines(s: XOp, next: nat, names: Names)
    requires s.Valid()
    ensures Lines(XPush(s), next, names) == [[PUSH_SLOT, CStore(STACK_TOP, EmitOperand(OperandOf(s, map[])))]]
  {
    hide EmitOperand, OperandOf;
    OneOp(Push(OperandOf(s, map[])), names);
  }

  lemma PopLines(i: XInsn, next: nat, names: Names)
    requires i.XPop? && i.Encodable()
    ensures Lines(i, next, names) == [[CAssign(DestinationOf(i.dst), CDeref(STACK_TOP)), POP_SLOT]]
  {
    OneOp(Pop(Fresh(map[], DestinationOf(i.dst))), names);
  }

  lemma PushRelated(source: Source, x: XState, c: CState, top: word, w: word)
    requires Related(source, x, c)
    ensures Related(source, XState(Updated(x.regs, RSP, top), Write64(x.mem, top, w), x.flags),
                    CState(Updated(c.regs, RSP, top), Write64(c.mem, top, w)))
  {
    hide Write64, FlagsAgree;
  }

  lemma PushSound(s: XOp, next: nat, names: Names, source: Source, x: XState, c: CState, stray: XFlags, callee: Callee)
    requires s.Valid() && !s.Uses(RSP) && Related(source, x, c)
    ensures OutcomesAgree(source, XExec(XPush(s), x, stray), ExecLines(Lines(XPush(s), next, names), c, callee))
  {
    hide Lines, ExecLine, ExecLines, EmitOperand, OperandOf, Word, Eval, Related, Write64, ToWord, XOp.Value, XOp.Uses, XOp.Valid;
    var top := ToWord(x.regs(RSP) - 8);
    var e := EmitOperand(OperandOf(s, map[]));
    SameRegister(source, x, c, RSP);
    PushLines(s, next, names);
    RegisterWritten(source, x, c, RSP, top);
    RelatedAgree(source, x.SetReg(RSP, top), SetReg(c, RSP, top));
    OperandEmitted(s, map[], x.SetReg(RSP, top), SetReg(c, RSP, top));
    MovedStack(s, x, top);
    PushLine(e, c, s.Value(x), callee);
    OneLine([PUSH_SLOT, CStore(STACK_TOP, e)], c, callee);
    PushRelated(source, x, c, top, s.Value(x));
  }

  lemma SameRegister(source: Source, x: XState, c: CState, r: Gpr)
    requires Related(source, x, c)
    ensures x.regs(r) == c.regs(r) && x.mem == c.mem
  {
  }

  lemma RelatedAgree(source: Source, x: XState, c: CState)
    requires Related(source, x, c)
    ensures Agree(x, c)
  {
  }

  lemma PopRelated(source: Source, x: XState, c: CState, d: Gpr, w: word)
    requires Related(source, x, c) && d != RSP
    ensures var mid := SetReg(c, d, w);
      Related(source, x.SetReg(RSP, ToWord(x.regs(RSP) + 8)).SetReg(d, w), SetReg(mid, RSP, ToWord(mid.regs(RSP) + 8)))
  {
    hide ToWord, FlagsAgree;
  }

  lemma PopSound(d: Gpr, next: nat, names: Names, source: Source, x: XState, c: CState, stray: XFlags, callee: Callee)
    requires d != RSP && Related(source, x, c)
    ensures OutcomesAgree(source, XExec(XPop(XReg(d)), x, stray), ExecLines(Lines(XPop(XReg(d)), next, names), c, callee))
  {
    hide Lines, ExecLine, ExecLines, Related, Read64, ToWord, SetReg, XState.SetReg;
    SameRegister(source, x, c, RSP);
    PopLines(XPop(XReg(d)), next, names);
    PopLine(d, c, callee);
    OneLine([CAssign(d, CDeref(STACK_TOP)), POP_SLOT], c, callee);
    PopRelated(source, x, c, d, Read64(x.mem, x.regs(RSP)));
  }

  lemma LeaveLines(next: nat, names: Names)
    ensures Lines(XLeave, next, names) == [[CAssign(RSP, CReg(RBP))], [CAssign(RBP, CDeref(STACK_TOP)), POP_SLOT]]
  {
  }

  lemma TwoLines(p: CLine, q: CLine, s: CState, mid: CState, callee: Callee)
    requires ExecLine(p, s, callee) == Defined(mid, Onward)
    ensures ExecLines([p, q], s, callee) == ExecLine(q, mid, callee)
  {
    hide ExecLine;
    assert [p, q][1..] == [q];
    OneLine(q, mid, callee);
  }

  lemma RegisterRead(r: VarBase, s: CState)
    ensures Word(CReg(r), s) == Some(s.regs(r))
  {
  }

  lemma LeaveRelated(source: Source, x: XState, c: CState, w: word)
    requires Related(source, x, c)
    ensures var mid := SetReg(SetReg(c, RSP, c.regs(RBP)), RBP, w);
      Related(source, x.SetReg(RSP, ToWord(x.regs(RBP) + 8)).SetReg(RBP, w), SetReg(mid, RSP, ToWord(mid.regs(RSP) + 8)))
  {
    hide ToWord, FlagsAgree;
  }

  lemma RegisterSet(s: CState, r: VarBase, w: word)
    ensures SetReg(s, r, w).regs(r) == w && SetReg(s, r, w).mem == s.mem
  {
  }

  /** What the two lines of leave do. */
  lemma LeaveRuns(next: nat, names: Names, c: CState, callee: Callee)
    ensures var mid := SetReg(c, RSP, c.regs(RBP));
      var low := SetReg(mid, RBP, Read64(c.mem, c.regs(RBP)));
      ExecLines(Lines(XLeave, next, names), c, callee) == Defined(SetReg(low, RSP, ToWord(low.regs(RSP) + 8)), Onward)
  {
    hide Lines, ExecLine, ExecLines, Read64, ToWord, Word, SetReg;
    var mid := SetReg(c, RSP, c.regs(RBP));
    RegisterSet(c, RSP, c.regs(RBP));
    LeaveLines(next, names);
    RegisterRead(RBP, c);
    AssignLine(RSP, CReg(RBP), c.regs(RBP), c, callee);
    PopLine(RBP, mid, callee);
    TwoLines([CAssign(RSP, CReg(RBP))], [CAssign(RBP, CDeref(STACK_TOP)), POP_SLOT], c, mid, callee);
  }

  lemma LeaveSound(next: nat, names: Names, source: Source, x: XState, c: CState, stray: XFlags, callee: Callee)
    requires Related(source, x, c)
    ensures OutcomesAgree(source, XExec(XLeave, x, stray), ExecLines(Lines(XLeave, next, names), c, callee))
  {
    hide Lines, ExecLines, Related, Read64, ToWord, SetReg, XState.SetReg;
    SameRegister(source, x, c, RBP);
    LeaveRuns(next, names, c, callee);
    LeaveRelated(source, x, c, Read64(c.mem, c.regs(RBP)));
  }

  // The theorem.

  /** A faithful instruction takes related states to related states, and goes the same way. */
  lemma FaithfulIsSound(i: XInsn, next: nat, names: Names, source: Source, x: XState, c: CState,
                        stray: XFlags, callee: Callee)
    requires i.Encodable() && Faithful(i, source) && Related(source, x, c)
    ensures !NegatesLeast(i, x) ==>
              OutcomesAgree(Transfer(i, source), XExec(i, x, stray), ExecLines(Lines(i, next, names), c, callee))
    ensures NegatesLeast(i, x) ==> ExecLines(Lines(i, next, names), c, callee) == Undefined
  {
    hide XExec, Lines, ExecLines, Related, OutcomesAgree, Readable, XOp.Value;
    match i
    case XMov(d, s) => MovSound(d, s, next, names, source, x, c, stray, callee);
    case XLea(to, m) => LeaSound(to, m, next, names, source, x, c, stray, callee);
    case XAlu(_, _, _) => AluSound(i, next, names, source, x, c, stray, callee);
    case XImul(_, _) => ImulSound(i, next, names, source, x, c, stray, callee);
    case XImul3(_, _, _) => ImulSound(i, next, names, source, x, c, stray, callee);
    case XShift(left, d, n) => ShiftSound(left, d.reg, n, next, names, source, x, c, stray, callee);
    case XNot(d) => NotSound(d.reg, next, names, source, x, c, stray, callee);
    case XNeg(d) => NegSound(d.reg, next, names, source, x, c, stray, callee);
    case XInc(d) => StepSound(true, d.reg, next, names, source, x, c, stray, callee);
    case XDec(d) => StepSound(false, d.reg, next, names, source, x, c, stray, callee);
    case XCmp(l, r) => CmpSound(l, r, next, names, source, x, c, stray, callee);
    case XTest(l, r) => TestSound(l, r, next, names, source, x, c, stray, callee);
    case XCmov(k, to, s) => CmovSound(k, to, s, next, names, source, x, c, stray, callee);
    case XPush(s) => PushSound(s, next, names, source, x, c, stray, callee);
    case XPop(d) => PopSound(d.reg, next, names, source, x, c, stray, callee);
    case XLeave => LeaveSound(next, names, source, x, c, stray, callee);
    case _ => JumpSound(i, next, names, source, x, c, stray, callee);
  }
}
