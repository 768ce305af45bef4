/** The forms that are not faithful, each with a state on which the emitted C goes wrong; together
    with `Instructions.FaithfulIsSound` this makes faithfulness exact. */
module Divergence {
  import opened Wrappers
  import opened Words
  import opened Ir
  import opened CLang
  import opened Backend
  import opened X86
  import opened OperandProofs
  import opened LiftProofs
  import opened OperandMeaning
  import opened Flags
  import opened Instructions

  /** On every pair of related states, save where C is undefined by the least negation, the emitted
      code does what the instruction does. */
  ghost predicate Sound(i: XInsn, source: Source, next: nat, names: Names, callee: Callee)
    requires i.Encodable()
  {
    forall x: XState, c: CState, stray: XFlags :: Related(source, x, c) && !NegatesLeast(i, x) ==>
      OutcomesAgree(Transfer(i, source), XExec(i, x, stray), ExecLines(Lines(i, next, names), c, callee))
  }

  /** x and c are related states on which the emitted code goes wrong. */
  ghost predicate Refutes(x: XState, c: CState, i: XInsn, source: Source, next: nat, names: Names, callee: Callee)
    requires i.Encodable()
  {
    && Related(source, x, c) && !NegatesLeast(i, x)
    && !OutcomesAgree(Transfer(i, source), XExec(i, x, ZERO_FLAGS), ExecLines(Lines(i, next, names), c, callee))
  }

  lemma RefutedIsUnsound(x: XState, c: CState, i: XInsn, source: Source, next: nat, names: Names, callee: Callee)
    requires i.Encodable() && Refutes(x, c, i, source, next, names, callee)
    ensures !Sound(i, source, next, names, callee)
  {
  }

  lemma UndefinedRefutes(x: XState, c: CState, i: XInsn, source: Source, next: nat, names: Names, callee: Callee)
    requires i.Encodable() && Related(source, x, c) && !NegatesLeast(i, x)
    requires ExecLines(Lines(i, next, names), c, callee) == Undefined
    ensures Refutes(x, c, i, source, next, names, callee)
  {
    hide Lines, ExecLines, XExec, Related;
  }

  /** A register that differs afterwards shows, whatever happens to the rest. */
  lemma RegisterRefutes(r: Gpr, x: XState, c: CState, i: XInsn, source: Source, next: nat, names: Names, callee: Callee)
    requires i.Encodable() && Related(source, x, c) && !NegatesLeast(i, x)
    requires var y, d := XExec(i, x, ZERO_FLAGS), ExecLines(Lines(i, next, names), c, callee);
      y.next.XOnward? && d.Defined? && y.state.regs(r) != d.state.regs(r)
    ensures Refutes(x, c, i, source, next, names, callee)
  {
    hide Lines, ExecLines, XExec, NegatesLeast, FlagsAgree;
  }

  lemma MemoryRefutes(x: XState, c: CState, i: XInsn, source: Source, next: nat, names: Names, callee: Callee)
    requires i.Encodable() && Related(source, x, c) && !NegatesLeast(i, x)
    requires var y, d := XExec(i, x, ZERO_FLAGS), ExecLines(Lines(i, next, names), c, callee);
      y.next.XOnward? && d.Defined? && y.state.mem != d.state.mem
    ensures Refutes(x, c, i, source, next, names, callee)
  {
    hide Lines, ExecLines, XExec, NegatesLeast, FlagsAgree;
  }

  /** Writing a memory operand leaves the registers alone. */
  lemma MemoryWritten(i: XInsn, x: XState)
    requires (i.XInc? || i.XDec? || i.XShift?) && i.dst.XMemory?
    ensures XExec(i, x, ZERO_FLAGS).next == XOnward && XExec(i, x, ZERO_FLAGS).state.regs == x.regs
  {
    hide Read64, Write64, ToWord, AddFlags, SubFlags, ResultFlags, ShiftLeft, ShiftRight;
  }

  // Witness states.

  const ZERO_FLAGS := XFlags(true, false, false, false, true)

  /** All registers zero but one; flags as after comparing equal numbers. */
  function OneSet(r: Gpr, w: word): RegFile {
    (b: VarBase) => if b == r then w else if b == RFlags then 1 else 0
  }

  function NoMemory(): Memory {
    (a: word) => 0
  }

  function Filled(v: byte): Memory {
    (a: word) => v
  }

  /** A single byte set, at address a. */
  function ByteAt(a: word): Memory {
    (b: word) => if b == a then 1 else 0
  }

  lemma EqualFlagsAgree(source: Source)
    ensures FlagsAgree(source, ZERO_FLAGS, 1)
  {
    hide Taken, Holds;
    forall k | k in Readable(source) ensures Taken(k, 1) <==> Holds(k, ZERO_FLAGS) {
      CmpConditions(0, 0, k);
      assert PackCmp(0, 0) == 1 && SubFlags(0, 0) == ZERO_FLAGS;
    }
  }

  lemma WitnessRelated(source: Source, r: Gpr, w: word, m: Memory)
    ensures Related(source, XState(OneSet(r, w), m, ZERO_FLAGS), CState(OneSet(r, w), m))
  {
    EqualFlagsAgree(source);
  }

  predicate ZeroAt(m: Memory, a: int) {
    m(ToWord(a)) == 0
  }

  lemma {:induction false} ReadZero(m: Memory, a: int, n: nat)
    requires forall b: int :: a <= b < a + n ==> ZeroAt(m, b)
    ensures ReadBytes(m, a, n) == 0
    decreases n
  {
    if n > 0 {
      assert ZeroAt(m, a);
      ReadZero(m, a + 1, n - 1);
    }
  }

  lemma ReadNothing(a: word)
    ensures Read64(NoMemory(), a) == 0
  {
    ReadZero(NoMemory(), a, 8);
  }

  /** The eight bytes below the one that is set. */
  lemma ReadBelow(a: word)
    ensures Read64(ByteAt(a), ToWord(a - 8)) == 0
  {
    var b := ToWord(a - 8);
    forall j: int | b <= j < b + 8 ensures ZeroAt(ByteAt(a), j) {
      BelowMisses(a, b, j);
    }
    ReadZero(ByteAt(a), b, 8);
  }

  lemma BelowMisses(a: word, b: word, j: int)
    requires b == ToWord(a - 8) && b <= j < b + 8
    ensures ToWord(j) != a
  {
    assert b == a - 8 || b == a - 8 + WORD;
    assert ToWord(j) == j || ToWord(j) == j - WORD;
  }

  lemma WordKept(a: word)
    ensures ToWord(a) == a
  {
  }

  lemma FirstByte(m: Memory, a: word)
    ensures Read64(m, a) % 256 == m(a)
  {
    hide ToWord;
    WordKept(a);
    assert ReadBytes(m, a, 8) == m(ToWord(a)) + 256 * ReadBytes(m, a + 1, 7);
  }

  /** Two memories differ once a read tells them apart. */
  lemma MemoriesDiffer(m: Memory, a: word, w: word)
    requires Read64(m, a) != w
    ensures Write64(m, a, w) != m
  {
    ReadBack(m, a, w);
  }

  // Memory destinations become rax.

  /** If the processor writes w to memory where the C writes it to rax, one of the two shows. */
  lemma WrittenToRax(x: XState, c: CState, a: word, w: word, f: XFlags, source: Source)
    requires x.regs(RAX) != Read64(x.mem, a)
    ensures !OutcomesAgree(source, XOutcome(XState(x.regs, Write64(x.mem, a, w), f), XOnward),
                           Defined(SetReg(CState(c.regs, x.mem), RAX, w), Onward))
  {
    if w == x.regs(RAX) {
      MemoriesDiffer(x.mem, a, w);
    }
  }

  lemma Assigned(d: VarBase, e: CExpr, c: CState, callee: Callee)
    ensures ExecLines([[CAssign(d, e)]], c, callee)
            == match Word(e, c) case None => Undefined case Some(w) => Defined(SetReg(c, d, w), Onward)
  {
    OneLine([CAssign(d, e)], c, callee);
    if Word(e, c).Some? {
      AssignLine(d, e, Word(e, c).value, c, callee);
    }
  }

  lemma AluLineToRax(i: XInsn, x: XState, c: CState, next: nat, names: Names, callee: Callee)
    requires i.XAlu? && i.Encodable() && i.dst.XMemory? && Agree(x, c)
    ensures ExecLines(Lines(i, next, names), c, callee)
            == Defined(SetReg(c, RAX, AluResult(i.op, i.dst.Value(x), i.src.Value(x))), Onward)
  {
    var a, b := i.dst.Value(x), i.src.Value(x);
    var l, r := EmitOperand(OperandOf(i.dst, map[])), EmitOperand(OperandOf(i.src, map[]));
    OperandEmitted(i.dst, map[], x, c);
    OperandEmitted(i.src, map[], x, c);
    AluEmitted(i.op, l, r, c, a, b);
    OneOp(Lowered(i, "", 0, next, map[])[0], names);
    Assigned(RAX, CBin(OperatorOf(i.op), l, r), c, callee);
  }

  lemma AluToMemory(i: XInsn, source: Source, next: nat, names: Names, callee: Callee)
    requires i.XAlu? && i.Encodable() && i.dst.XMemory?
    ensures !Sound(i, source, next, names, callee)
  {
    var x, c := XState(OneSet(RAX, 2), NoMemory(), ZERO_FLAGS), CState(OneSet(RAX, 2), NoMemory());
    WitnessRelated(source, RAX, 2, NoMemory());
    var a, b, at := i.dst.Value(x), i.src.Value(x), i.dst.mem.Address(x.regs);
    ReadNothing(at);
    AluLineToRax(i, x, c, next, names, callee);
    WrittenToRax(x, c, at, AluResult(i.op, a, b), AluFlags(i.op, a, b), Stale);
    RefutedIsUnsound(x, c, i, source, next, names, callee);
  }

  lemma StepInMemoryLines(i: XInsn, next: nat, names: Names)
    requires (i.XInc? || i.XDec?) && i.Encodable() && i.dst.XMemory?
    ensures Lines(i, next, names) == [[CAssign(RAX, CBin(if i.XInc? then CAdd else CSub, CReg(RAX), CHexU(1)))]]
  {
    OneOp(Lowered(i, "", 0, next, map[])[0], names);
  }

  lemma StepInMemoryRuns(i: XInsn, op: AluOp, c: CState, next: nat, names: Names, callee: Callee)
    requires (i.XInc? || i.XDec?) && i.Encodable() && i.dst.XMemory? && c.regs(RAX) == 2
    requires op == if i.XInc? then AddOp else SubOp
    ensures ExecLines(Lines(i, next, names), c, callee) == Defined(SetReg(c, RAX, if i.XInc? then 3 else 1), Onward)
  {
    hide Lines, ExecLines, Word, Eval, SetReg, XInsn.Encodable;
    StepInMemoryLines(i, next, names);
    ConstantRead(1, c);
    RegisterValue(RAX, c);
    AluEmitted(op, CReg(RAX), CHexU(1), c, 2, 1);
    Assigned(RAX, CBin(OperatorOf(op), CReg(RAX), CHexU(1)), c, callee);
  }

  lemma StepInMemory(i: XInsn, source: Source, next: nat, names: Names, callee: Callee)
    requires (i.XInc? || i.XDec?) && i.Encodable() && i.dst.XMemory?
    ensures !Sound(i, source, next, names, callee)
  {
    hide Lines, ExecLines, Sound, Refutes, XExec, Related, XInsn.Encodable, NoMemory, FlagsAgree;
    var x, c := XState(OneSet(RAX, 2), NoMemory(), ZERO_FLAGS), CState(OneSet(RAX, 2), NoMemory());
    MemoryWritten(i, x);
    WitnessRelated(source, RAX, 2, NoMemory());
    StepInMemoryRuns(i, if i.XInc? then AddOp else SubOp, c, next, names, callee);
    RegisterRefutes(RAX, x, c, i, source, next, names, callee);
    RefutedIsUnsound(x, c, i, source, next, names, callee);
  }

  lemma RegisterValue(r: VarBase, s: CState)
    ensures Eval(CReg(r), s) == Some(U(s.regs(r)))
  {
  }

  lemma ShiftOfZero(n: nat)
    ensures ShiftLeft(0, n) == 0 && ShiftRight(0, n) == 0
  {
    ShiftZeroRight(n);
  }

  lemma {:induction false} ShiftZeroRight(n: nat)
    ensures ShiftRight(0, n) == 0
  {
    if n > 0 {
      ShiftZeroRight(n - 1);
    }
  }

  function ShiftExpr(op: AluOp, dst: XOp, count: word): CExpr
    requires dst.Valid()
  {
    CBin(OperatorOf(op), EmitOperand(OperandOf(dst, map[])), CHexU(count))
  }

  lemma ShiftLines(i: XInsn, op: AluOp, next: nat, names: Names)
    requires i.XShift? && i.Encodable() && op == if i.left then ShlOp else ShrOp
    ensures Lines(i, next, names) == [[CAssign(DestinationOf(i.dst), ShiftExpr(op, i.dst, i.count))]]
  {
    OneOp(Lowered(i, "", 0, next, map[])[0], names);
  }

  lemma ShiftValue(op: AluOp, dst: XOp, count: word, x: XState, c: CState)
    requires dst.Valid() && !dst.XImm? && Agree(x, c) && (op == ShlOp || op == ShrOp)
    ensures Word(ShiftExpr(op, dst, count), c) == AluWord(op, dst.Value(x), count)
  {
    OperandEmitted(dst, map[], x, c);
    assert Eval(CHexU(count), c) == Some(U(count));
    AluEmitted(op, EmitOperand(OperandOf(dst, map[])), CHexU(count), c, dst.Value(x), count);
  }

  lemma ShiftLine(i: XInsn, op: AluOp, x: XState, c: CState, next: nat, names: Names, callee: Callee)
    requires i.XShift? && i.Encodable() && Agree(x, c) && op == if i.left then ShlOp else ShrOp
    ensures ExecLines(Lines(i, next, names), c, callee)
            == match AluWord(op, i.dst.Value(x), i.count)
               case None => Undefined
               case Some(w) => Defined(SetReg(c, DestinationOf(i.dst), w), Onward)
  {
    ShiftLines(i, op, next, names);
    ShiftValue(op, i.dst, i.count, x, c);
    Assigned(DestinationOf(i.dst), ShiftExpr(op, i.dst, i.count), c, callee);
  }

  /** Shifts by 64 or more are undefined in C; shifts of memory go to rax. */
  lemma ShiftUnfaithful(i: XInsn, source: Source, next: nat, names: Names, callee: Callee)
    requires i.XShift? && i.Encodable() && !Faithful(i, source)
    ensures !Sound(i, source, next, names, callee)
  {
    hide Transfer, NoMemory, Lines, ExecLines, Word, Eval, Refutes;
    hide Sound, Read64, XMem.Address, ShiftLeft, ShiftRight, ShiftExpr, XExec, Related;
    var x, c := XState(OneSet(RAX, 2), NoMemory(), ZERO_FLAGS), CState(OneSet(RAX, 2), NoMemory());
    WitnessRelated(source, RAX, 2, NoMemory());
    RelatedAgree(source, x, c);
    ShiftLine(i, if i.left then ShlOp else ShrOp, x, c, next, names, callee);
    if i.count < 64 {
      ReadNothing(i.dst.mem.Address(x.regs));
      ShiftOfZero(i.count);
      MemoryWritten(i, x);
      RegisterRefutes(RAX, x, c, i, source, next, names, callee);
    } else {
      UndefinedRefutes(x, c, i, source, next, names, callee);
    }
    RefutedIsUnsound(x, c, i, source, next, names, callee);
  }

  /** not and neg of memory are printed as comments. */
  lemma UnaryLineInMemory(i: XInsn, c: CState, next: nat, names: Names, callee: Callee)
    requires (i.XNot? || i.XNeg?) && i.Encodable() && i.dst.XMemory?
    ensures ExecLines(Lines(i, next, names), c, callee) == Defined(c, Onward)
  {
    hide ExecLines;
    OneOp(Unknown("", 0), names);
    OneStatement(CComment, c, callee);
  }

  lemma OddChanges(v: word)
    requires v % 2 == 1
    ensures v != 0xffff_ffff_ffff_ffff - v && v != ToWord(0 - v as int) && v != 0x8000_0000_0000_0000
  {
  }

  lemma UnaryWritten(i: XInsn, x: XState)
    requires (i.XNot? || i.XNeg?) && i.dst.XMemory?
    ensures var a, v, y := i.dst.mem.Address(x.regs), i.dst.Value(x), XExec(i, x, ZERO_FLAGS);
      y.next == XOnward
      && y.state.mem == Write64(x.mem, a, if i.XNot? then 0xffff_ffff_ffff_ffff - v else ToWord(0 - v as int))
  {
    hide Read64, Write64, ToWord, SubFlags, XMem.Address;
  }

  lemma FilledIsOdd(a: word)
    ensures Read64(Filled(1), a) % 2 == 1
  {
    hide Read64;
    FirstByte(Filled(1), a);
  }

  lemma UnaryInMemory(i: XInsn, source: Source, next: nat, names: Names, callee: Callee)
    requires (i.XNot? || i.XNeg?) && i.Encodable() && i.dst.XMemory?
    ensures !Sound(i, source, next, names, callee)
  {
    hide Transfer, OneSet, FlagsAgree, Lines, ExecLines, Sound, Refutes;
    hide XExec, Related, XInsn.Encodable, Read64, Write64, XMem.Address, ToWord, Filled;
    var m := Filled(1);
    var x, c := XState(OneSet(RAX, 0), m, ZERO_FLAGS), CState(OneSet(RAX, 0), m);
    WitnessRelated(source, RAX, 0, m);
    var a := i.dst.mem.Address(x.regs);
    FilledIsOdd(a);
    var v := i.dst.Value(x);
    OddChanges(v);
    UnaryLineInMemory(i, c, next, names, callee);
    UnaryWritten(i, x);
    MemoriesDiffer(m, a, if i.XNot? then 0xffff_ffff_ffff_ffff - v else ToWord(0 - v as int));
    MemoryRefutes(x, c, i, source, next, names, callee);
    RefutedIsUnsound(x, c, i, source, next, names, callee);
  }

  // Conditions that cannot be read.

  /** Flags that agree on everything readable and differ on a given other condition. */
  lemma FlagsMisread(k: Condition, source: Source) returns (f: XFlags, rflags: word)
    requires k !in Readable(source)
    ensures FlagsAgree(source, f, rflags) && (Taken(k, rflags) <==> !Holds(k, f))
  {
    match source
    case FromCmp =>
      var l, r := CmpMisread(k);
      f, rflags := SubFlags(l, r), PackCmp(l, r);
      forall q | q in Readable(source) ensures Taken(q, rflags) <==> Holds(q, f) {
        CmpConditions(l, r, q);
      }
    case FromTest =>
      var w := TestMisread(k);
      f, rflags := LogicFlags(BitWord(BAnd, w, w)), PackTest(w, w);
      forall q | q in Readable(source) ensures Taken(q, rflags) <==> Holds(q, f) {
        TestConditions(w, w, q);
      }
    case Stale =>
      rflags := 0;
      BitsOfPacked(0);
      f := if k == Overflow || k == NotOverflow then XFlags(true, true, false, true, true)
           else XFlags(true, true, true, false, true);
  }

  function WithFlags(regs: RegFile, rflags: word): RegFile {
    Updated(regs, RFlags, rflags)
  }

  lemma CmovMisread(i: XInsn, source: Source, next: nat, names: Names, callee: Callee)
    requires i.XCmov? && i.Encodable() && !Faithful(i, source)
    ensures !Sound(i, source, next, names, callee)
  {
    hide Lines, ExecLine, ExecLines, EmitOperand, EmitCondition, OperandOf, Word, Eval, Taken, Holds, Readable, Read64;
    hide OutcomesAgree, Sound, XMem.Address, FlagsAgree;
    var f, rflags := FlagsMisread(i.c, source);
    var x := XState(OneSet(i.to, 1), NoMemory(), f);
    var c := CState(WithFlags(OneSet(i.to, 1), rflags), NoMemory());
    assert Related(source, x, c);
    if i.src.XMemory? {
      ReadNothing(i.src.mem.Address(x.regs));
    }
    SourceIsZero(i, x);
    CmovRuns(i, x, c, rflags, next, names, callee);
    RegisterRefutes(i.to, x, c, i, source, next, names, callee);
    RefutedIsUnsound(x, c, i, source, next, names, callee);
  }

  lemma SourceIsZero(i: XInsn, x: XState)
    requires i.XCmov? && i.Encodable() && i.src != XReg(i.to)
    requires x.regs == OneSet(i.to, 1) && (i.src.XMemory? ==> Read64(x.mem, i.src.mem.Address(x.regs)) == 0)
    ensures i.src.Value(x) == 0
  {
    hide Read64, XMem.Address;
  }

  /** The emitted conditional move of a zero over a one. */
  lemma CmovRuns(i: XInsn, x: XState, c: CState, rflags: word, next: nat, names: Names, callee: Callee)
    requires i.XCmov? && i.Encodable() && Agree(x, c) && i.src.Value(x) == 0 && c.regs(i.to) == 1 && c.regs(RFlags) == rflags
    ensures ExecLines(Lines(i, next, names), c, callee)
            == Defined(SetReg(c, i.to, if Taken(i.c, rflags) then 0 else 1), Onward)
  {
    hide Lines, ExecLine, ExecLines, EmitOperand, EmitCondition, OperandOf, Word, Eval, Taken, XOp.Value, SetReg;
    var e := EmitOperand(OperandOf(i.src, map[]));
    CmovLines(i.c, i.to, i.src, next, names);
    OperandEmitted(i.src, map[], x, c);
    ConditionEmitted(i.c, c);
    var taken := Taken(i.c, rflags);
    RegisterRead(i.to, c);
    ChoiceEmitted(EmitCondition(i.c), e, CReg(i.to), c, taken, 0, 1);
    AssignLine(i.to, CCond(EmitCondition(i.c), e, CReg(i.to)), if taken then 0 else 1, c, callee);
    OneLine([CAssign(i.to, CCond(EmitCondition(i.c), e, CReg(i.to)))], c, callee);
  }

  lemma JccMisread(i: XInsn, source: Source, next: nat, names: Names, callee: Callee)
    requires i.XJcc? && !Faithful(i, source)
    ensures !Sound(i, source, next, names, callee)
  {
    hide Lines, ExecLine, ExecLines, EmitCondition, Word, Taken, Holds, Readable, Sound, FlagsAgree;
    var f, rflags := FlagsMisread(i.c, source);
    var x := XState(OneSet(RAX, 0), NoMemory(), f);
    var c := CState(WithFlags(OneSet(RAX, 0), rflags), NoMemory());
    assert Related(source, x, c);
    JumpLines(i, next, names);
    OneStatement(CIfGoto(EmitCondition(i.c), i.target), c, callee);
    ConditionEmitted(i.c, c);
    RefutedIsUnsound(x, c, i, source, next, names, callee);
  }

  // The stack pointer as an operand.

  /** Different words stored at the same place tell the memories apart. */
  lemma StoredDiffer(m: Memory, a: word, v: word, w: word)
    requires v != w
    ensures Write64(m, a, v) != Write64(m, a, w)
  {
    ReadBack(m, a, v);
    ReadBack(m, a, w);
  }

  lemma PushedAfterMove(op: XOp, x: XState, c: CState, top: word, next: nat, names: Names, callee: Callee)
    requires op.Valid() && Agree(x, c) && top == ToWord(x.regs(RSP) - 8)
    ensures ExecLines(Lines(XPush(op), next, names), c, callee)
            == Defined(CState(Updated(c.regs, RSP, top), Write64(c.mem, top, op.Value(x.SetReg(RSP, top)))), Onward)
  {
    hide Lines, ExecLine, ExecLines, EmitOperand, OperandOf, Word, Eval, Write64, ToWord, XOp.Value, XOp.Valid;
    OperandEmitted(op, map[], x.SetReg(RSP, top), SetReg(c, RSP, top));
    var e := EmitOperand(OperandOf(op, map[]));
    PushLines(op, next, names);
    PushLine(e, c, op.Value(x.SetReg(RSP, top)), callee);
    OneLine([PUSH_SLOT, CStore(STACK_TOP, e)], c, callee);
  }

  /** The emitted push reads rsp after it has moved, so an operand that uses it is misread. */
  lemma PushOfStackPointer(op: XOp, source: Source, next: nat, names: Names, callee: Callee)
    requires op.Valid() && op.Uses(RSP)
    ensures !Sound(XPush(op), source, next, names, callee)
  {
    var regs := OneSet(RAX, 0);
    var a := if op.XMemory? then op.mem.Address(regs) else 0;
    var m := ByteAt(a);
    var x, c := XState(regs, m, ZERO_FLAGS), CState(regs, m);
    WitnessRelated(source, RAX, 0, m);
    var top := ToWord(0 - 8);
    PushedAfterMove(op, x, c, top, next, names, callee);
    OperandMoves(op, x, top, a);
    StoredDiffer(m, top, op.Value(x), op.Value(x.SetReg(RSP, top)));
    RefutedIsUnsound(x, c, XPush(op), source, next, names, callee);
  }

  /** Moving rsp from zero down by eight moves an address based on it down by eight. */
  lemma AddressMoves(m: XMem, regs: RegFile, top: word)
    requires m.Valid() && m.base == Some(RSP) && regs(RSP) == 0 && top == ToWord(0 - 8)
    ensures m.Address(Updated(regs, RSP, top)) == ToWord(m.Address(regs) - 8)
  {
    hide ToWord;
    var t := (if m.index.Some? then regs(m.index.value) * m.scale else 0) + m.disp;
    assert m.Address(regs) == ToWord(t);
    assert m.Address(Updated(regs, RSP, top)) == ToWord(top + t);
    SumCongruence(0 - 8, t);
    SumCongruence(t, 0 - 8);
  }

  lemma MemoryMoves(m: XMem, regs: RegFile, top: word)
    requires m.Valid() && m.base == Some(RSP) && regs(RSP) == 0 && top == ToWord(0 - 8)
    ensures Read64(ByteAt(m.Address(regs)), m.Address(regs))
            != Read64(ByteAt(m.Address(regs)), m.Address(Updated(regs, RSP, top)))
  {
    var a := m.Address(regs);
    FirstByte(ByteAt(a), a);
    AddressMoves(m, regs, top);
    ReadBelow(a);
  }

  lemma OperandMoves(op: XOp, x: XState, top: word, a: word)
    requires op.Valid() && op.Uses(RSP) && x.regs(RSP) == 0 && top == ToWord(0 - 8)
    requires x.mem == ByteAt(a) && (op.XMemory? ==> a == op.mem.Address(x.regs))
    ensures op.Value(x) != op.Value(x.SetReg(RSP, top))
  {
    if op.XMemory? {
      MemoryMoves(op.mem, x.regs, top);
    }
  }

  /** pop rsp loses to the increment; pop to memory goes to rax. */
  lemma PopExec(i: XInsn, x: XState)
    requires i.XPop? && !i.dst.XImm? && x.regs(RSP) == 0 && Read64(x.mem, 0) == 0
    ensures var y := XExec(i, x, ZERO_FLAGS);
      y.next == XOnward && (i.dst.XMemory? ==> y.state.regs(RAX) == x.regs(RAX)) && (i.dst == XReg(RSP) ==> y.state.regs(RSP) == 0)
  {
    hide Read64, Write64, ToWord, XMem.Address;
  }

  lemma PopRuns(i: XInsn, d: Gpr, c: CState, next: nat, names: Names, callee: Callee)
    requires i.XPop? && i.Encodable() && d == DestinationOf(i.dst) && c.regs(RSP) == 0 && Read64(c.mem, 0) == 0
    ensures var r := ExecLines(Lines(i, next, names), c, callee);
      r.Defined? && (d == RAX ==> r.state.regs(RAX) == 0) && (d == RSP ==> r.state.regs(RSP) == 8)
  {
    hide Lines, ExecLine, ExecLines, Read64, XInsn.Encodable;
    PopLines(i, next, names);
    PopLine(d, c, callee);
    OneLine([CAssign(d, CDeref(STACK_TOP)), POP_SLOT], c, callee);
  }

  lemma PopUnfaithful(i: XInsn, source: Source, next: nat, names: Names, callee: Callee)
    requires i.XPop? && i.Encodable() && !Faithful(i, source)
    ensures !Sound(i, source, next, names, callee)
  {
    hide Lines, ExecLines, Read64, Sound, Refutes, Related, NoMemory, XExec, Transfer;
    var x, c := XState(OneSet(RAX, 2), NoMemory(), ZERO_FLAGS), CState(OneSet(RAX, 2), NoMemory());
    WitnessRelated(source, RAX, 2, NoMemory());
    ReadNothing(0);
    PopRuns(i, DestinationOf(i.dst), c, next, names, callee);
    PopExec(i, x);
    RegisterRefutes(if i.dst.XMemory? then RAX else RSP, x, c, i, source, next, names, callee);
    RefutedIsUnsound(x, c, i, source, next, names, callee);
  }

  // The theorem.

  /** For every encodable instruction and every origin of the flags: the emitted code is right on all
      states exactly when the form is faithful. */
  lemma FaithfulExactly(i: XInsn, source: Source, next: nat, names: Names, callee: Callee)
    requires i.Encodable()
    ensures Sound(i, source, next, names, callee) <==> Faithful(i, source)
  {
    if Faithful(i, source) {
      forall x: XState, c: CState, stray: XFlags | Related(source, x, c) && !NegatesLeast(i, x)
        ensures OutcomesAgree(Transfer(i, source), XExec(i, x, stray), ExecLines(Lines(i, next, names), c, callee))
      {
        FaithfulIsSound(i, next, names, source, x, c, stray, callee);
      }
    } else {
      match i
      case XAlu(_, _, _) => AluToMemory(i, source, next, names, callee);
      case XInc(_) => StepInMemory(i, source, next, names, callee);
      case XDec(_) => StepInMemory(i, source, next, names, callee);
      case XShift(_, _, _) => ShiftUnfaithful(i, source, next, names, callee);
      case XNot(_) => UnaryInMemory(i, source, next, names, callee);
      case XNeg(_) => UnaryInMemory(i, source, next, names, callee);
      case XCmov(_, _, _) => CmovMisread(i, source, next, names, callee);
      case XJcc(_, _) => JccMisread(i, source, next, names, callee);
      case XPush(op) => PushOfStackPointer(op, source, next, names, callee);
      case XPop(_) => PopUnfaithful(i, source, next, names, callee);
    }
  }
}
