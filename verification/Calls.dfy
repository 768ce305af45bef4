/** Emitted calls: in what state the callee is entered, with what on the stack, and what it is handed. */
module Calls {
  import opened Wrappers
  import opened Words
  import opened Ir
  import opened Operands
  import opened Frontend
  import opened Lifter
  import opened CLang
  import opened Backend
  import opened X86
  import opened OperandProofs
  import opened OperandMeaning
  import opened Instructions
  import opened Gotos
  import opened Conservation
  import Divergence

  // Entering the callee.

  /** The word below the stack pointer. */
  function NewTop(s: CState): word {
    ToWord(s.regs(RSP) - 8)
  }

  /** t is s with rsp lowered by 8 and the eight bytes there holding w. */
  predicate Pushed(s: CState, w: word, t: CState) {
    && t.regs(RSP) == NewTop(s) && Read64(t.mem, NewTop(s)) == w
  }

  /** Nothing else differs: no other register, and no byte outside the eight. */
  ghost predicate OnlyPushed(s: CState, w: word, t: CState) {
    && Pushed(s, w, t)
    && (forall b: VarBase :: b != RSP ==> t.regs(b) == s.regs(b))
    && (forall a: word :: ToWord(a - NewTop(s)) >= 8 ==> t.mem(a) == s.mem(a))
  }

  function Entry(s: CState, w: word): CState {
    CState(Updated(s.regs, RSP, NewTop(s)), Write64(s.mem, NewTop(s), w))
  }

  lemma WrittenOnlyThere(m: Memory, top: word, w: word)
    ensures forall a: word :: ToWord(a - top) >= 8 ==> Write64(m, top, w)(a) == m(a)
  {
    hide ByteOf;
  }

  lemma EntryPushes(s: CState, w: word)
    ensures OnlyPushed(s, w, Entry(s, w))
  {
    hide Read64, ByteOf;
    ReadBack(s.mem, NewTop(s), w);
    WrittenOnlyThere(s.mem, NewTop(s), w);
  }

  lemma LiteralWord(n: word, s: CState)
    ensures Word(CInt(n), s) == Some(n)
  {
  }

  /** The three statements of a call: the callee is entered with the word pushed. */
  lemma CallLineRuns(line: CLine, call: CStmt, w: word, s: CState, callee: Callee)
    requires line == [PUSH_SLOT, CStore(STACK_TOP, CInt(w)), call] && (call.CCallNamed? || call.CCallThrough?)
    ensures ExecLine(line, s, callee) == Defined(callee(call, Entry(s, w)), Onward)
  {
    hide Word, Eval, Write64, ExecLine, ToWord;
    var mid := SetReg(s, RSP, NewTop(s));
    SlotPushed(s, callee);
    FirstStatement(line, s, mid, callee);
    assert line[1..] == [CStore(STACK_TOP, CInt(w)), call];
    StackTopIs(mid);
    LiteralWord(w, mid);
    StoreStmt(STACK_TOP, CInt(w), mid, NewTop(s), w, callee);
    TwoStatements(CStore(STACK_TOP, CInt(w)), call, mid, Entry(s, w), callee(call, Entry(s, w)), callee);
  }

  /** The statement by which a call opcode calls. */
  function CallStatement(op: Opcode, names: Names): CStmt
    requires op.Call?
  {
    EmitCall(op.callee, names)
  }

  /** For any call opcode and state: the callee is entered in a state that differs only in rsp, lowered by 8,
      and in the remembered address on top of the stack; the line goes on in the state the callee leaves. */
  lemma CallEnters(op: Opcode, names: Names, callee: Callee, s: CState) returns (t: CState)
    requires op.Call?
    ensures ExecLine(EmitOpcode(op, names), s, callee) == Defined(callee(CallStatement(op, names), t), Onward)
    ensures OnlyPushed(s, ToWord(op.fallthrough), t) && t == Entry(s, ToWord(op.fallthrough))
  {
    hide EmitOperand, ResolveCallName, SanitiseIdent, ExecLine, Write64, Read64, ToWord, OnlyPushed;
    var w := ToWord(op.fallthrough);
    t := Entry(s, w);
    EntryPushes(s, w);
    CallLineRuns(EmitOpcode(op, names), CallStatement(op, names), w, s, callee);
  }

  /** For any text: whatever call an instruction is lifted to enters its callee with the address after the
      instruction on top of the stack, or zero for a call through a register and for an indirect jump. */
  lemma LiftedCallEnters(insn: DisassembledInsn, versions: Versions, op: Opcode, names: Names, callee: Callee, s: CState)
    returns (t: CState)
    requires op in LiftInsn(insn, versions).ops && op.Call?
    ensures ExecLine(EmitOpcode(op, names), s, callee) == Defined(callee(CallStatement(op, names), t), Onward)
    ensures var zero := op.callee.Indirect? && (FormOfInsn(insn) == FJmp || op.callee.op.Var?);
      OnlyPushed(s, if zero then 0 else ToWord(insn.address + insn.size), t)
  {
    hide LiftInsn, FormOf, Mnemonic, OnlyPushed, EmitOpcode, ExecLine;
    InsnFallsTo(insn, versions);
    assert FallsTo(op, FormOfInsn(insn) == FJmp, insn.address + insn.size);
    t := CallEnters(op, names, callee, s);
  }

  // What the callee is handed.

  const ARGUMENT_REGISTERS: seq<VarBase> := [RDI, RSI, RDX, RCX, R8, R9]

  /** An external call hands over, in this order, the values of rdi, rsi, rdx, rcx, r8 and r9 before the call,
      under its own sanitised name. */
  lemma ExternalArguments(name: string, fallthrough: nat, names: Names, s: CState)
    ensures var st, t := CallStatement(Call(External(name), fallthrough), names), Entry(s, ToWord(fallthrough));
      && st.CCallNamed? && st.callee == SanitiseIdent(name) && |st.args| == 6
      && forall i :: 0 <= i < 6 ==> Eval(st.args[i], t) == Some(U(s.regs(ARGUMENT_REGISTERS[i])))
  {
    hide SanitiseIdent, Write64;
  }

  /** A direct call hands over nothing, under the name its address is resolved to. */
  lemma DirectArguments(addr: word, fallthrough: nat, names: Names)
    ensures CallStatement(Call(Direct(addr), fallthrough), names) == CCallNamed(ResolveCallName(addr, names), [])
  {
    hide ResolveCallName;
  }

  /** The processor's state with the same word pushed. */
  function XEntry(x: XState, w: word): XState {
    XState(Updated(x.regs, RSP, ToWord(x.regs(RSP) - 8)), Write64(x.mem, ToWord(x.regs(RSP) - 8), w), x.flags)
  }

  /** An indirect call goes to the value that its operand has after the push. */
  lemma IndirectTarget(op: XOp, fallthrough: nat, versions: Versions, names: Names, x: XState, s: CState)
    requires op.Valid() && Agree(x, s)
    ensures var st, w := CallStatement(Call(Indirect(OperandOf(op, versions)), fallthrough), names), ToWord(fallthrough);
      && st.CCallThrough? && Word(st.e, Entry(s, w)) == Some(op.Value(XEntry(x, w)))
  {
    hide EmitOperand, OperandOf, Word, Eval, XOp.Value, XOp.Valid, Write64, ToWord;
    OperandEmitted(op, versions, XEntry(x, ToWord(fallthrough)), Entry(s, ToWord(fallthrough)));
  }

  /** The value the processor calls: that of the operand before the push. */
  ghost predicate CallsRightTarget(op: XOp, w: word) {
    forall x: XState :: op.Value(XEntry(x, w)) == op.Value(x)
  }

  /** For one state: a register other than rsp, or memory that neither uses rsp nor overlaps the new top. */
  lemma TargetKept(op: XOp, x: XState, w: word)
    requires !op.Uses(RSP) && (op.XMemory? ==> Apart(ToWord(x.regs(RSP) - 8), op.mem.Address(x.regs)))
    ensures op.Value(XEntry(x, w)) == op.Value(x)
  {
    hide Read64, Write64, Apart;
    if op.XMemory? {
      AddressKept(op.mem, x, ToWord(x.regs(RSP) - 8));
      ReadElsewhere(x.mem, ToWord(x.regs(RSP) - 8), w, op.mem.Address(x.regs));
    }
  }

  lemma AddressKept(m: XMem, x: XState, top: word)
    requires !m.Uses(RSP)
    ensures m.Address(Updated(x.regs, RSP, top)) == m.Address(x.regs)
  {
    hide ToWord;
  }

  /** Reads agree where the memories do. */
  lemma {:induction false} ReadAgrees(m: Memory, m': Memory, a: int, n: nat)
    requires forall b: int :: a <= b < a + n ==> SameAt(m, m', b)
    ensures ReadBytes(m, a, n) == ReadBytes(m', a, n)
    decreases n
  {
    if n > 0 {
      assert SameAt(m, m', a);
      ReadAgrees(m, m', a + 1, n - 1);
    }
  }

  predicate SameAt(m: Memory, m': Memory, b: int) {
    m(ToWord(b)) == m'(ToWord(b))
  }

  /** Memory with only the byte at a set, and memory with none, read differently at a. */
  lemma ByteShows(a: word)
    ensures Read64(Divergence.ByteAt(a), a) != Read64(Divergence.NoMemory(), a)
  {
    Divergence.FirstByte(Divergence.ByteAt(a), a);
    Divergence.FirstByte(Divergence.NoMemory(), a);
  }

  /** Reading eight bytes lower does not see that byte, whatever is pushed where. */
  lemma ByteBelowHidden(a: word, top: word, w: word)
    ensures Read64(Write64(Divergence.ByteAt(a), top, w), ToWord(a as int - 8))
            == Read64(Write64(Divergence.NoMemory(), top, w), ToWord(a as int - 8))
  {
    var b := ToWord(a as int - 8);
    var m, m' := Write64(Divergence.ByteAt(a), top, w), Write64(Divergence.NoMemory(), top, w);
    forall j: int | b <= j < b + 8 ensures SameAt(m, m', j) {
      Divergence.BelowMisses(a, b, j);
    }
    ReadAgrees(m, m', b, 8);
  }

  /** Registers zero but for rsp. */
  function WithStack(w: word): RegFile {
    (b: VarBase) => if b == RSP then w else 0
  }

  /** Two states that tell the operand apart before the push and not after it. */
  lemma TargetLost(op: XOp, w: word, x: XState, y: XState)
    requires op.Value(x) != op.Value(y) && op.Value(XEntry(x, w)) == op.Value(XEntry(y, w))
    ensures !CallsRightTarget(op, w)
  {
    hide XOp.Value, XEntry;
  }

  lemma MemoryValue(m: XMem, x: XState, w: word)
    ensures XMemory(m).Value(x) == Read64(x.mem, m.Address(x.regs))
    ensures var top := ToWord(x.regs(RSP) - 8);
      XMemory(m).Value(XEntry(x, w)) == Read64(Write64(x.mem, top, w), m.Address(Updated(x.regs, RSP, top)))
  {
    hide Read64, Write64, XMem.Address, ToWord;
  }

  /** Through memory the target can be lost to the push: some state tells the two machines apart. */
  lemma MemoryTargetLost(m: XMem, w: word)
    requires m.Valid()
    ensures !CallsRightTarget(XMemory(m), w)
  {
    hide XOp.Value, XEntry, Read64, Write64, XMem.Address, XMem.Valid, CallsRightTarget, Divergence.ByteAt, Divergence.NoMemory;
    var a := m.Address(WithStack(0));
    var regs := if m.Uses(RSP) then WithStack(0) else WithStack(ToWord(a as int + 8));
    var x := XState(regs, Divergence.ByteAt(a), Divergence.ZERO_FLAGS);
    var y := XState(regs, Divergence.NoMemory(), Divergence.ZERO_FLAGS);
    ByteShows(a);
    LaterReadsAlike(m, a, regs, w);
    MemoryValue(m, x, w);
    MemoryValue(m, y, w);
    TargetLost(XMemory(m), w, x, y);
  }

  lemma BackToAddress(a: word)
    ensures ToWord(ToWord(a as int + 8) as int - 8) == a
  {
    SumCongruence(a + 8, -8);
  }

  lemma LaterReadsAlike(m: XMem, a: word, regs: RegFile, w: word)
    requires m.Valid() && a == m.Address(WithStack(0))
    requires regs == if m.Uses(RSP) then WithStack(0) else WithStack(ToWord(a + 8))
    ensures m.Address(regs) == a
    ensures var top := ToWord(regs(RSP) - 8);
      Read64(Write64(Divergence.ByteAt(a), top, w), m.Address(Updated(regs, RSP, top)))
      == Read64(Write64(Divergence.NoMemory(), top, w), m.Address(Updated(regs, RSP, top)))
  {
    hide Read64, Write64, XMem.Address, Divergence.ByteAt, Divergence.NoMemory;
    var top := ToWord(regs(RSP) - 8);
    if m.Uses(RSP) {
      Divergence.AddressMoves(m, regs, top);
      ByteBelowHidden(a, top, w);
    } else {
      StackIgnored(m, WithStack(0), regs);
      StackIgnored(m, regs, Updated(regs, RSP, top));
      BackToAddress(a);
      ReadBack(Divergence.ByteAt(a), top, w);
      ReadBack(Divergence.NoMemory(), top, w);
    }
  }

  lemma StackIgnored(m: XMem, regs: RegFile, regs': RegFile)
    requires !m.Uses(RSP) && forall b: VarBase :: b != RSP ==> regs(b) == regs'(b)
    ensures m.Address(regs) == m.Address(regs')
  {
    hide ToWord;
  }

  /** An indirect call goes where the processor's does from every state exactly when it is through a register
      other than rsp. */
  lemma IndirectCallExactly(op: XOp, w: word)
    requires op.Valid() && !op.XImm?
    ensures CallsRightTarget(op, w) <==> op.XReg? && op.reg != RSP
  {
    hide XMem.Address, Read64, Write64;
    if op.XMemory? {
      MemoryTargetLost(op.mem, w);
    } else if op.reg == RSP {
      var x := XState(WithStack(0), Divergence.NoMemory(), Divergence.ZERO_FLAGS);
      assert op.Value(XEntry(x, w)) != op.Value(x);
    } else {
      forall x: XState ensures op.Value(XEntry(x, w)) == op.Value(x) {
        TargetKept(op, x, w);
      }
    }
  }
}
