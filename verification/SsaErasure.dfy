/** What the versioned IR means, and when printing it without versions keeps that meaning. */
module SsaErasure {
  import opened Wrappers
  import opened Words
  import opened Ir
  import opened Operands
  import opened Frontend
  import opened Lifter
  import opened CLang
  import opened Backend
  import opened OperandMeaning
  import opened Flags
  import opened Instructions
  import opened Versioning
  import Divergence

  // The versioned machine: every variable has its own value.

  type Env = VarId -> word

  function WithVar(env: Env, d: VarId, w: word): Env {
    (v: VarId) => if v == d then w else env(v)
  }

  datatype SsaState = SsaState(env: Env, mem: Memory, flags: word) {
    function Define(d: VarId, w: word): SsaState {
      SsaState(WithVar(env, d, w), mem, flags)
    }

    function Value(op: Operand): word {
      match op
      case Var(v) => env(v)
      case Imm(n) => ToWord(n)
      case Mem(_, _, _, _) => Read64(mem, Address(op))
    }

    function Address(op: Operand): word {
      match op
      case Var(v) => env(v)
      case Imm(n) => ToWord(n)
      case Mem(base, index, scale, disp) =>
        ToWord((if base.Some? then env(base.value) else 0)
               + (if index.Some? then env(index.value) * scale else 0) + disp)
    }
  }

  /** The version before; a conditional move keeps it when the condition fails. */
  function Previous(v: VarId): VarId {
    if v.version == 0 then v else VarId(v.base, v.version - 1)
  }

  /** Opcodes that neither pass control nor move the stack pointer. */
  predicate Straight(op: Opcode) {
    !(op.Jmp? || op.Jcc? || op.Call? || op.Ret? || op.Push? || op.Pop?)
  }

  /** One opcode; None when the operation has no defined result. */
  ghost function SsaStep(op: Opcode, s: SsaState): Option<SsaState> {
    match op
    case Mov(d, src) => Some(s.Define(d, s.Value(src)))
    case Load(d, a) => Some(s.Define(d, Read64(s.mem, s.Address(a))))
    case Store(a, src) => Some(s.(mem := Write64(s.mem, s.Address(a), s.Value(src))))
    case Alu(kind, d, l, r) =>
      var w := AluWord(kind, s.Value(l), s.Value(r));
      if w.Some? then Some(s.Define(d, w.value)) else None
    case Not(d, src) => Some(s.Define(d, 0xffff_ffff_ffff_ffff - s.Value(src)))
    case Neg(d, src) =>
      if s.Value(src) == 0x8000_0000_0000_0000 then None else Some(s.Define(d, ToWord(0 - s.Value(src) as int)))
    case Lea(d, a) => Some(s.Define(d, s.Address(a)))
    case Cmp(l, r) => Some(s.(flags := PackCmp(s.Value(l), s.Value(r))))
    case Test(l, r) => Some(s.(flags := PackTest(s.Value(l), s.Value(r))))
    case Cmovcc(c, d, src) => Some(s.Define(d, if Taken(c, s.flags) then s.Value(src) else s.env(Previous(d))))
    case Setcc(c, d) => Some(s.Define(d, if Taken(c, s.flags) then 1 else 0))
    case AtomicRMW(kind, a, src) =>
      if AtomicOp(kind).None? then Some(s)
      else
        var w := AluWord(AtomicOp(kind).value, Read64(s.mem, s.Address(a)), s.Value(src));
        if w.Some? then Some(s.(mem := Write64(s.mem, s.Address(a), w.value))) else None
    case _ => Some(s)
  }

  ghost function SsaRun(ops: seq<Opcode>, s: SsaState): Option<SsaState> {
    if ops == [] then Some(s)
    else
      var t := SsaStep(ops[0], s);
      if t.None? then None else SsaRun(ops[1..], t.value)
  }

  // Operands.

  predicate NoFlags(ids: set<VarId>) {
    forall v :: v in ids ==> v.base != RFlags
  }

  predicate Scaled(op: Operand) {
    op.Mem? ==> op.scale > 0
  }

  /** The operand combinations that instructions have: the left operand of an operation is no constant,
      and shift counts are not negative; scales are not zero; rflags is not named. */
  predicate Typed(op: Opcode) {
    && NoFlags(Uses(op)) && (Defines(op).Some? ==> Defines(op).value.base != RFlags)
    && match op
       case Mov(_, s) => Scaled(s)
       case Load(_, a) => Scaled(a)
       case Store(a, s) => Scaled(a) && Scaled(s)
       case Alu(kind, _, l, r) =>
         Scaled(l) && Scaled(r) && !l.Imm? && (kind == ShlOp || kind == ShrOp ==> !(r.Imm? && r.value < 0))
       case Not(_, s) => s.Var?
       case Neg(_, s) => s.Var?
       case Lea(_, a) => Scaled(a)
       case Cmp(l, r) => Scaled(l) && Scaled(r)
       case Test(l, r) => Scaled(l) && Scaled(r) && !l.Imm?
       case Cmovcc(_, _, s) => Scaled(s)
       case AtomicRMW(_, a, s) => Scaled(a) && Scaled(s)
       case _ => true
  }

  /** The C registers hold the latest versions. */
  ghost predicate Latest(s: SsaState, versions: Versions, c: CState) {
    && s.mem == c.mem && s.flags == c.regs(RFlags)
    && forall b: VarBase :: b != RFlags ==> c.regs(b) == s.env(CurrentVar(versions, b))
  }

  lemma AddressErased(op: Operand, s: SsaState, versions: Versions, c: CState)
    requires op.Mem? && Scaled(op) && Latest(s, versions, c) && AllCurrent(IdsOf(op), versions) && NoFlags(IdsOf(op))
    ensures Word(EmitAddr(op), c) == Some(s.Address(op))
  {
    AddressMeans(op.base, op.index, op.scale, op.disp, c);
    if op.base.Some? {
      assert op.base.value in IdsOf(op);
    }
    if op.index.Some? {
      assert op.index.value in IdsOf(op);
    }
    assert RegSum(op.base, op.index, op.scale, c)
           == (if op.base.Some? then s.env(op.base.value) else 0)
              + (if op.index.Some? then s.env(op.index.value) * op.scale else 0);
  }

  lemma OperandErased(op: Operand, s: SsaState, versions: Versions, c: CState)
    requires Scaled(op) && Latest(s, versions, c) && AllCurrent(IdsOf(op), versions) && NoFlags(IdsOf(op))
    ensures Word(EmitOperand(op), c) == Some(s.Value(op)) && Word(EmitAddr(op), c) == Some(s.Address(op))
    ensures !op.Imm? ==> Eval(EmitOperand(op), c) == Some(U(s.Value(op)))
    ensures op.Imm? && op.value >= 0 ==> Eval(EmitOperand(op), c) == Some(U(s.Value(op)))
  {
    match op
    case Var(v) => assert v in IdsOf(op);
    case Imm(n) => LiteralMeans(n, c);
    case Mem(_, _, _, _) => AddressErased(op, s, versions, c);
  }

  // One opcode.

  /** The opcode reads a version of its own destination that it is only about to define. */
  predicate ReadsItself(op: Opcode) {
    ReadsLate(op) && Defines(op).value in Uses(op)
  }

  /** Both run into the undefined, or both go on with the latest versions in the registers. */
  ghost predicate ErasureAgrees(t: Option<SsaState>, after: Versions, r: COutcome) {
    if t.None? then r == Undefined
    else r.Defined? && r.next.Onward? && Latest(t.value, after, r.state)
  }

  lemma Defined'(d: VarId, w: word, s: SsaState, versions: Versions, c: CState)
    requires Latest(s, versions, c) && d == Fresh(versions, d.base) && d.base != RFlags
    ensures Latest(s.Define(d, w), Bump(versions, d.base), SetReg(c, d.base, w))
  {
  }

  lemma AssignErased(d: VarId, e: CExpr, w: word, s: SsaState, versions: Versions, c: CState, callee: Callee)
    requires Latest(s, versions, c) && d == Fresh(versions, d.base) && d.base != RFlags && Word(e, c) == Some(w)
    ensures ErasureAgrees(Some(s.Define(d, w)), Bump(versions, d.base), ExecLine([CAssign(d.base, e)], c, callee))
  {
    hide Latest, Bump, Fresh;
    AssignLine(d.base, e, w, c, callee);
    Defined'(d, w, s, versions, c);
  }

  lemma FlagsErased(e: CExpr, w: word, s: SsaState, versions: Versions, c: CState, callee: Callee)
    requires Latest(s, versions, c) && Word(e, c) == Some(w)
    ensures ErasureAgrees(Some(s.(flags := w)), versions, ExecLine([CAssign(RFlags, e)], c, callee))
  {
    AssignLine(RFlags, e, w, c, callee);
  }

  lemma UndefinedAssign(d: VarBase, e: CExpr, c: CState, callee: Callee)
    requires Word(e, c) == None
    ensures ExecLine([CAssign(d, e)], c, callee) == Undefined
  {
  }

  lemma CurrentBefore(op: Opcode, versions: Versions)
    requires Fits(op, versions) && !ReadsItself(op)
    ensures AllCurrent(Uses(op), versions)
  {
    if ReadsLate(op) {
      assert forall v :: v in Uses(op) && v.base == op.dst.base ==> v == op.dst;
    }
  }

  lemma StoreErased(addr: CExpr, e: CExpr, a: word, w: word, s: SsaState, versions: Versions, c: CState, callee: Callee)
    requires Latest(s, versions, c) && Word(addr, c) == Some(a) && Word(e, c) == Some(w)
    ensures ErasureAgrees(Some(s.(mem := Write64(s.mem, a, w))), versions, ExecLine([CStore(addr, e)], c, callee))
  {
    assert [CStore(addr, e)][1..] == [];
  }

  lemma FetchStmt(op: AluOp, addr: CExpr, e: CExpr, c: CState, a: word, w: word, callee: Callee)
    requires Word(addr, c) == Some(a) && Word(e, c) == Some(w)
    ensures ExecLine([CFetch(op, addr, e)], c, callee)
            == var r := AluWord(op, Read64(c.mem, a), w);
               if r.Some? then Defined(CState(c.regs, Write64(c.mem, a, r.value)), Onward) else Undefined
  {
    hide AluWord, Read64, Write64, Word;
    assert [CFetch(op, addr, e)][1..] == [];
  }

  lemma StoredLatest(s: SsaState, versions: Versions, c: CState, m: Memory)
    requires Latest(s, versions, c)
    ensures Latest(s.(mem := m), versions, CState(c.regs, m))
  {
  }

  lemma AtomicErased(op: Opcode, s: SsaState, versions: Versions, c: CState, names: Names, callee: Callee)
    requires op.AtomicRMW? && Typed(op) && Latest(s, versions, c) && AllCurrent(Uses(op), versions)
    ensures ErasureAgrees(SsaStep(op, s), versions, ExecLine(EmitOpcode(op, names), c, callee))
  {
    hide EmitOperand, EmitAddr, Write64, Read64, AluWord, AtomicOp;
    hide Word, Eval, ExecLine, Latest, SsaState.Value, SsaState.Address;
    OperandErased(op.addr, s, versions, c);
    OperandErased(op.src, s, versions, c);
    SameMemory(s, versions, c);
    if AtomicOp(op.kind).None? {
      CommentErased(s, versions, c, callee);
    } else {
      var kind, a, w := AtomicOp(op.kind).value, s.Address(op.addr), s.Value(op.src);
      FetchStmt(kind, EmitAddr(op.addr), EmitOperand(op.src), c, a, w, callee);
      var r := AluWord(kind, Read64(s.mem, a), w);
      if r.Some? {
        StoredLatest(s, versions, c, Write64(s.mem, a, r.value));
      }
    }
  }

  lemma AluErased(op: Opcode, s: SsaState, versions: Versions, c: CState, names: Names, callee: Callee)
    requires op.Alu? && Typed(op) && Fits(op, versions) && Latest(s, versions, c)
    ensures ErasureAgrees(SsaStep(op, s), After(op, versions), ExecLine(EmitOpcode(op, names), c, callee))
  {
    hide EmitOperand, AluWord, Latest;
    OperandErased(op.lhs, s, versions, c);
    OperandErased(op.rhs, s, versions, c);
    var e := CBin(OperatorOf(op.op), EmitOperand(op.lhs), EmitOperand(op.rhs));
    AluEmitted(op.op, EmitOperand(op.lhs), EmitOperand(op.rhs), c, s.Value(op.lhs), s.Value(op.rhs));
    var w := AluWord(op.op, s.Value(op.lhs), s.Value(op.rhs));
    if w.Some? {
      AssignErased(op.dst, e, w.value, s, versions, c, callee);
    } else {
      UndefinedAssign(op.dst.base, e, c, callee);
    }
  }

  lemma NegErased(op: Opcode, s: SsaState, versions: Versions, c: CState, names: Names, callee: Callee)
    requires (op.Not? || op.Neg?) && Typed(op) && Fits(op, versions) && Latest(s, versions, c)
    ensures ErasureAgrees(SsaStep(op, s), After(op, versions), ExecLine(EmitOpcode(op, names), c, callee))
  {
    var v := op.src.id;
    assert v in Uses(op);
    assert Eval(CReg(v.base), c) == Some(U(s.env(v)));
    var e := if op.Not? then CInvert(CReg(v.base)) else CToUnsigned(CNegate(CToSigned(CReg(v.base))));
    NegateEmitted(v.base, c);
    if Word(e, c).Some? {
      AssignErased(op.dst, e, Word(e, c).value, s, versions, c, callee);
    } else {
      UndefinedAssign(op.dst.base, e, c, callee);
    }
  }

  lemma CompareErased(op: Opcode, s: SsaState, versions: Versions, c: CState, names: Names, callee: Callee)
    requires (op.Cmp? || op.Test?) && Typed(op) && Fits(op, versions) && Latest(s, versions, c)
    ensures ErasureAgrees(SsaStep(op, s), versions, ExecLine(EmitOpcode(op, names), c, callee))
  {
    hide EmitOperand, Latest, PackCmp, PackTest;
    var l, r := EmitOperand(op.lhs), EmitOperand(op.rhs);
    OperandErased(op.lhs, s, versions, c);
    OperandErased(op.rhs, s, versions, c);
    var a, b := s.Value(op.lhs), s.Value(op.rhs);
    if op.Cmp? {
      CompareEmitted(l, r, c, a, b);
      FlagsErased(PackedCompare(l, r), PackCmp(a, b), s, versions, c, callee);
    } else {
      TestEmitted(l, r, c, a, b);
      FlagsErased(CCond(CBin(CEq, CBin(CAnd, l, r), CInt(0)), CInt(1), CInt(0)), PackTest(a, b), s, versions, c, callee);
    }
  }

  lemma ChoiceErased(op: Opcode, s: SsaState, versions: Versions, c: CState, names: Names, callee: Callee)
    requires (op.Cmovcc? || op.Setcc?) && Typed(op) && Fits(op, versions) && Latest(s, versions, c)
    ensures ErasureAgrees(SsaStep(op, s), After(op, versions), ExecLine(EmitOpcode(op, names), c, callee))
  {
    hide EmitCondition, Taken;
    var cond := EmitCondition(op.condition);
    ConditionEmitted(op.condition, c);
    var taken := Taken(op.condition, s.flags);
    if op.Cmovcc? {
      OperandErased(op.src, s, versions, c);
      assert Previous(op.dst) == CurrentVar(versions, op.dst.base);
      assert Word(CReg(op.dst.base), c) == Some(s.env(Previous(op.dst)));
      var v, w := s.Value(op.src), s.env(Previous(op.dst));
      ChoiceEmitted(cond, EmitOperand(op.src), CReg(op.dst.base), c, taken, v, w);
      AssignErased(op.dst, CCond(cond, EmitOperand(op.src), CReg(op.dst.base)), if taken then v else w, s, versions, c, callee);
    } else {
      assert Word(CInt(1), c) == Some(1) && Word(CInt(0), c) == Some(0);
      ChoiceEmitted(cond, CInt(1), CInt(0), c, taken, 1, 0);
      AssignErased(op.dst, CCond(cond, CInt(1), CInt(0)), if taken then 1 else 0, s, versions, c, callee);
    }
  }

  lemma MoveErased(op: Opcode, s: SsaState, versions: Versions, c: CState, names: Names, callee: Callee)
    requires ReadsLate(op) && Typed(op) && Fits(op, versions) && Latest(s, versions, c) && !ReadsItself(op)
    ensures ErasureAgrees(SsaStep(op, s), After(op, versions), ExecLine(EmitOpcode(op, names), c, callee))
  {
    hide EmitOperand, EmitAddr, Latest, Read64;
    CurrentBefore(op, versions);
    match op
    case Mov(d, src) =>
      OperandErased(src, s, versions, c);
      AssignErased(d, EmitOperand(src), s.Value(src), s, versions, c, callee);
    case Load(d, a) =>
      OperandErased(a, s, versions, c);
      LoadWord(EmitAddr(a), c, s.Address(a));
      SameMemory(s, versions, c);
      AssignErased(d, CDeref(EmitAddr(a)), Read64(s.mem, s.Address(a)), s, versions, c, callee);
    case Lea(d, a) =>
      OperandErased(a, s, versions, c);
      CastWord(EmitAddr(a), c);
      AssignErased(d, CToUnsigned(EmitAddr(a)), s.Address(a), s, versions, c, callee);
  }

  lemma SameMemory(s: SsaState, versions: Versions, c: CState)
    requires Latest(s, versions, c)
    ensures s.mem == c.mem
  {
  }

  lemma LoadWord(e: CExpr, c: CState, a: word)
    requires Word(e, c) == Some(a)
    ensures Word(CDeref(e), c) == Some(Read64(c.mem, a))
  {
  }

  /** An opcode that does not read itself means the same without versions. */
  lemma OpcodeErased(op: Opcode, s: SsaState, versions: Versions, c: CState, names: Names, callee: Callee)
    requires Straight(op) && Typed(op) && Fits(op, versions) && Latest(s, versions, c) && !ReadsItself(op)
    ensures ErasureAgrees(SsaStep(op, s), After(op, versions), ExecLine(EmitOpcode(op, names), c, callee))
  {
    hide EmitOperand, EmitAddr, EmitCondition, Latest, SsaState.Value, SsaState.Address;
    match op
    case Alu(_, _, _, _) => AluErased(op, s, versions, c, names, callee);
    case Not(_, _) => NegErased(op, s, versions, c, names, callee);
    case Neg(_, _) => NegErased(op, s, versions, c, names, callee);
    case Cmp(_, _) => CompareErased(op, s, versions, c, names, callee);
    case Test(_, _) => CompareErased(op, s, versions, c, names, callee);
    case Cmovcc(_, _, _) => ChoiceErased(op, s, versions, c, names, callee);
    case Setcc(_, _) => ChoiceErased(op, s, versions, c, names, callee);
    case AtomicRMW(_, _, _) => AtomicErased(op, s, versions, c, names, callee);
    case Store(a, src) =>
      OperandErased(a, s, versions, c);
      OperandErased(src, s, versions, c);
      StoreErased(EmitAddr(a), EmitOperand(src), s.Address(a), s.Value(src), s, versions, c, callee);
    case Nop => CommentErased(s, versions, c, callee);
    case Unknown(_, _) => CommentErased(s, versions, c, callee);
    case _ => MoveErased(op, s, versions, c, names, callee);
  }

  lemma CommentErased(s: SsaState, versions: Versions, c: CState, callee: Callee)
    requires Latest(s, versions, c)
    ensures ErasureAgrees(Some(s), versions, ExecLine([CComment], c, callee))
  {
    assert [CComment][1..] == [];
  }

  // Blocks.

  predicate Erasable(ops: seq<Opcode>) {
    forall i :: 0 <= i < |ops| ==> Straight(ops[i]) && Typed(ops[i]) && !ReadsItself(ops[i])
  }

  lemma {:induction false} CodeErased(ops: seq<Opcode>, s: SsaState, versions: Versions, after: Versions, c: CState,
                                      names: Names, callee: Callee)
    requires Threads(ops, versions, after) && Erasable(ops) && Latest(s, versions, c)
    ensures ErasureAgrees(SsaRun(ops, s), after, ExecLines(LinesOf(ops, names), c, callee))
    decreases |ops|
  {
    hide Latest, SsaStep, EmitOpcode, ExecLine, After, Fits, Straight, Typed, ReadsItself;
    if ops != [] {
      OpcodeErased(ops[0], s, versions, c, names, callee);
      var t, r := SsaStep(ops[0], s), ExecLine(EmitOpcode(ops[0], names), c, callee);
      assert LinesOf(ops, names)[1..] == LinesOf(ops[1..], names);
      if t.Some? {
        CodeErased(ops[1..], t.value, After(ops[0], versions), after, r.state, names, callee);
      }
    }
  }

  /** For every block (or beginning of a block) of straight code that does not read itself: running the
      versioned IR from the block-entry values and running the printed lines agree on the latest version
      of every register, on memory, on the flags and on being undefined. */
  lemma ErasureIsSound(insns: seq<DisassembledInsn>, s: SsaState, c: CState, names: Names, callee: Callee)
    requires Erasable(Opcodes(LiftInsns(insns).code)) && Latest(s, map[], c)
    ensures ErasureAgrees(SsaRun(Opcodes(LiftInsns(insns).code), s), LiftInsns(insns).versions,
                          ExecLines(LinesOf(Opcodes(LiftInsns(insns).code), names), c, callee))
  {
    hide LiftInsns, Threads, Latest, Erasable;
    BlockThreads(insns);
    CodeErased(Opcodes(LiftInsns(insns).code), s, map[], LiftInsns(insns).versions, c, names, callee);
  }

  // Exactness.

  /** The meaning is kept from all states. */
  ghost predicate KeepsMeaning(op: Opcode, versions: Versions, names: Names, callee: Callee) {
    forall s: SsaState, c: CState :: Latest(s, versions, c) ==>
      ErasureAgrees(SsaStep(op, s), After(op, versions), ExecLine(EmitOpcode(op, names), c, callee))
  }

  /** Every variable is zero but one. */
  function OnlyOne(d: VarId): VarId -> word {
    (v: VarId) => if v == d then 1 else 0
  }

  function ZeroRegs(): RegFile {
    (b: VarBase) => 0
  }

  lemma ZeroLatest(d: VarId, m: Memory, versions: Versions)
    requires d == Fresh(versions, d.base)
    ensures Latest(SsaState(OnlyOne(d), m, 0), versions, CState(ZeroRegs(), m))
  {
  }

  /** With the destination's new version set, an address that mentions it moves away from where it was. */
  lemma AddressDiffers(op: Operand, d: VarId, m: Memory)
    requires op.Mem? && Scaled(op) && d in IdsOf(op)
    ensures SsaState(OnlyOne(d), m, 0).Address(op) != ToWord(op.disp)
  {
    var k := (if op.base == Some(d) then 1 else 0) + (if op.index == Some(d) then op.scale as int else 0);
    assert 1 <= k <= 256;
    assert SsaState(OnlyOne(d), m, 0).Address(op) == ToWord(k + op.disp);
  }

  lemma ZeroAddress(op: Operand, m: Memory)
    requires op.Mem? && Scaled(op)
    ensures Word(EmitAddr(op), CState(ZeroRegs(), m)) == Some(ToWord(op.disp))
  {
    AddressMeans(op.base, op.index, op.scale, op.disp, CState(ZeroRegs(), m));
  }

  lemma ReadsDiffer(a: word, b: word)
    requires a != b
    ensures Read64(Divergence.ByteAt(a), a) != Read64(Divergence.ByteAt(a), b)
  {
    Divergence.FirstByte(Divergence.ByteAt(a), a);
    Divergence.FirstByte(Divergence.ByteAt(a), b);
  }

  lemma AssignedDiffers(d: VarId, e: CExpr, v: word, w: word, s: SsaState, versions: Versions, c: CState, callee: Callee)
    requires Word(e, c) == Some(w) && v != w && d == Fresh(versions, d.base) && d.base != RFlags
    ensures !ErasureAgrees(Some(s.Define(d, v)), Bump(versions, d.base), ExecLine([CAssign(d.base, e)], c, callee))
  {
    AssignLine(d.base, e, w, c, callee);
    assert CurrentVar(Bump(versions, d.base), d.base) == d;
  }

  function ErasedAddress(op: Operand): word {
    if op.Mem? then ToWord(op.disp) else 0
  }

  lemma OperandDiffers(op: Operand, d: VarId, m: Memory)
    requires Scaled(op) && d in IdsOf(op)
    ensures SsaState(OnlyOne(d), m, 0).Address(op) != ErasedAddress(op)
    ensures Word(EmitAddr(op), CState(ZeroRegs(), m)) == Some(ErasedAddress(op))
    ensures op.Var? ==> Word(EmitOperand(op), CState(ZeroRegs(), m)) == Some(0)
  {
    if op.Mem? {
      AddressDiffers(op, d, m);
      ZeroAddress(op, m);
    } else {
      assert Eval(CReg(op.id.base), CState(ZeroRegs(), m)) == Some(U(0));
    }
  }

  /** The operand that a move, load or address computation reads. */
  function Source(op: Opcode): Operand
    requires ReadsLate(op)
  {
    if op.Mov? then op.src else op.addr
  }

  lemma AddressIgnoresMemory(op: Operand, d: VarId, m: Memory, m': Memory)
    requires !op.Imm?
    ensures SsaState(OnlyOne(d), m, 0).Address(op) == SsaState(OnlyOne(d), m', 0).Address(op)
  {
  }

  lemma MisreadsItself(op: Opcode, versions: Versions, names: Names, callee: Callee)
    requires Typed(op) && Fits(op, versions) && ReadsItself(op)
    ensures !KeepsMeaning(op, versions, names, callee)
  {
    hide Latest, EmitMemAddr, Read64, KeepsMeaning, EmitAddr, EmitOperand, SsaState.Address, Fits;
    var d, operand := op.dst, Source(op);
    var a := SsaState(OnlyOne(d), Divergence.NoMemory(), 0).Address(operand);
    var m := Divergence.ByteAt(a);
    var s, c := SsaState(OnlyOne(d), m, 0), CState(ZeroRegs(), m);
    FitsFresh(op, versions);
    ZeroLatest(d, m, versions);
    OperandDiffers(operand, d, m);
    AddressIgnoresMemory(operand, d, m, Divergence.NoMemory());
    ReadsDiffer(a, ErasedAddress(operand));
    MisreadLine(op, s, c, versions, names, callee);
    NotKept(op, s, c, versions, names, callee);
  }

  lemma FitsFresh(op: Opcode, versions: Versions)
    requires Fits(op, versions) && ReadsLate(op)
    ensures op.dst == Fresh(versions, op.dst.base)
  {
  }

  lemma NotKept(op: Opcode, s: SsaState, c: CState, versions: Versions, names: Names, callee: Callee)
    requires Latest(s, versions, c)
    requires !ErasureAgrees(SsaStep(op, s), After(op, versions), ExecLine(EmitOpcode(op, names), c, callee))
    ensures !KeepsMeaning(op, versions, names, callee)
  {
  }

  lemma MisreadLine(op: Opcode, s: SsaState, c: CState, versions: Versions, names: Names, callee: Callee)
    requires ReadsLate(op) && Typed(op) && op.dst == Fresh(versions, op.dst.base) && s.mem == c.mem
    requires var v, w := s.Address(Source(op)), ErasedAddress(Source(op));
      && !Source(op).Imm? && v != w && Read64(s.mem, v) != Read64(s.mem, w) && Word(EmitAddr(Source(op)), c) == Some(w)
      && (Source(op).Var? ==> Word(EmitOperand(Source(op)), c) == Some(w))
    ensures !ErasureAgrees(SsaStep(op, s), After(op, versions), ExecLine(EmitOpcode(op, names), c, callee))
  {
    hide Latest, Read64, EmitMemAddr;
    var d, operand := op.dst, Source(op);
    var v, w := s.Address(operand), ErasedAddress(operand);
    LoadWord(EmitAddr(operand), c, w);
    CastWord(EmitAddr(operand), c);
    match op
    case Mov(_, _) =>
      if operand.Mem? {
        AssignedDiffers(d, EmitOperand(operand), Read64(s.mem, v), Read64(s.mem, w), s, versions, c, callee);
      } else {
        AssignedDiffers(d, EmitOperand(operand), v, w, s, versions, c, callee);
      }
    case Load(_, _) =>
      AssignedDiffers(d, CDeref(EmitAddr(operand)), Read64(s.mem, v), Read64(s.mem, w), s, versions, c, callee);
    case Lea(_, _) =>
      AssignedDiffers(d, CToUnsigned(EmitAddr(operand)), v, w, s, versions, c, callee);
  }

  /** Dropping the versions of a lifted opcode keeps its meaning exactly when it does not read itself. */
  lemma ErasureExactly(op: Opcode, versions: Versions, names: Names, callee: Callee)
    requires Straight(op) && Typed(op) && Fits(op, versions)
    ensures KeepsMeaning(op, versions, names, callee) <==> !ReadsItself(op)
  {
    if ReadsItself(op) {
      MisreadsItself(op, versions, names, callee);
    } else {
      forall s: SsaState, c: CState | Latest(s, versions, c)
        ensures ErasureAgrees(SsaStep(op, s), After(op, versions), ExecLine(EmitOpcode(op, names), c, callee))
      {
        OpcodeErased(op, s, versions, c, names, callee);
      }
    }
  }
}
