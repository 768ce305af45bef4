/** Lifting the instructions of a block into the versioned IR. */
module Lifter {
  import opened Words
  import opened Text
  import opened Ir
  import opened Operands
  import opened Frontend
  import Cfg

  // Mnemonics.

  function ConditionNamed(suffix: string): Condition {
    if suffix in ["e", "z"] then Equal
    else if suffix in ["ne", "nz"] then NotEqual
    else if suffix in ["l", "nge"] then Less
    else if suffix in ["le", "ng"] then LessEqual
    else if suffix in ["g", "nle"] then Greater
    else if suffix in ["ge", "nl"] then GreaterEqual
    else if suffix in ["b", "nae", "c"] then Below
    else if suffix in ["be", "na"] then BelowEqual
    else if suffix in ["a", "nbe"] then Above
    else if suffix in ["ae", "nb", "nc"] then AboveEqual
    else if suffix == "s" then Sign
    else if suffix == "ns" then NotSign
    else if suffix == "o" then Overflow
    else if suffix == "no" then NotOverflow
    else if suffix in ["p", "pe"] then Parity
    else if suffix in ["np", "po"] then NotParity
    else Equal
  }

  function ParseConditionSuffix(mn: string): Condition {
    ConditionNamed(if "j" <= mn then mn[1..] else mn)
  }

  /** The arms of the lifter's match on the mnemonic. */
  datatype Form =
    | FNop | FMov | FLea | FAlu(op: AluOp) | FMul | FNot | FNeg | FCmp | FTest
    | FPush | FPop | FCall | FRet | FJmp | FAtomic
    | FCmov(condition: Condition) | FSet(condition: Condition) | FJcc(condition: Condition)
    | FInc | FDec | FLeave | FSyscall | FUnknown

  /** The arm chosen for a mnemonic; earlier arms win. */
  function FormOf(m: string, isLock: bool): Form {
    if m in ["nop", "endbr64", "endbr32", "fnop", "pause"] then FNop
    else if m in ["mov", "movabs", "movzx", "movsx", "movsxd", "movq", "movd"] then FMov
    else if m == "lea" then FLea
    else if m == "add" then FAlu(AddOp)
    else if m == "sub" then FAlu(SubOp)
    else if m == "imul" then FAlu(MulOp)
    else if m == "and" then FAlu(AndOp)
    else if m == "or" then FAlu(OrOp)
    else if m == "xor" then FAlu(XorOp)
    else if m in ["shl", "sal"] then FAlu(ShlOp)
    else if m in ["shr", "sar"] then FAlu(ShrOp)
    else if m == "mul" then FMul
    else if m == "not" then FNot
    else if m == "neg" then FNeg
    else if m == "cmp" then FCmp
    else if m == "test" then FTest
    else if m == "push" then FPush
    else if m == "pop" then FPop
    else if m == "call" then FCall
    else if m in ["ret", "retn", "retf"] then FRet
    else if m == "jmp" then FJmp
    else if isLock then FAtomic
    else if "cmov" <= m then FCmov(ParseConditionSuffix(m[4..]))
    else if "set" <= m then FSet(ParseConditionSuffix(m[3..]))
    else if "j" <= m then FJcc(ParseConditionSuffix(m))
    else if m == "inc" then FInc
    else if m == "dec" then FDec
    else if m == "leave" then FLeave
    else if m in ["xchg", "cdq", "cdqe", "cqo", "cwd", "cbw", "cwde"] then FUnknown
    else if m in ["int3", "ud2", "hlt", "int"] then FRet
    else if m == "syscall" then FSyscall
    else FUnknown
  }

  function StripLock(m: string): string {
    if "lock " <= m then StripLock(m[5..]) else m
  }

  // The arms.

  /** What an arm yields: the IR opcodes and the version map it leaves behind. */
  datatype Lifted = Lifted(ops: seq<Opcode>, versions: Versions)

  function Fresh(versions: Versions, base: VarBase): VarId {
    VarId(base, CurrentVar(versions, base).version + 1)
  }

  function Bump(versions: Versions, base: VarBase): Versions {
    versions[base := Fresh(versions, base).version]
  }

  function DstBase(s: string): VarBase {
    DstRegister(s).GetOr(RAX)
  }

  function Unlifted(mn: string, addr: nat, versions: Versions): Lifted {
    Lifted([Unknown(mn, addr)], versions)
  }

  function LiftMov(operands: seq<string>, mn: string, addr: nat, versions: Versions): Lifted {
    if |operands| < 2 then Unlifted(mn, addr, versions)
    else
      var dst, src := operands[0], operands[1];
      if IsMemoryOperand(dst) && !IsMemoryOperand(src) then
        Lifted([Store(ParseMemoryOperandSpec(dst, versions), ParseSingleOperand(src, versions))], versions)
      else
        var base := DstBase(dst);
        var after := Bump(versions, base);
        if !IsMemoryOperand(dst) && IsMemoryOperand(src) then
          Lifted([Load(Fresh(versions, base), ParseMemoryOperandSpec(src, after))], after)
        else
          Lifted([Mov(Fresh(versions, base), ParseSingleOperand(src, after))], after)
  }

  function LiftLea(operands: seq<string>, mn: string, addr: nat, versions: Versions): Lifted {
    if |operands| < 2 then Unlifted(mn, addr, versions)
    else
      var base := DstBase(operands[0]);
      var after := Bump(versions, base);
      Lifted([Lea(Fresh(versions, base), ParseMemoryOperandSpec(operands[1], after))], after)
  }

  function LiftBinaryAlu(op: AluOp, operands: seq<string>, mn: string, addr: nat, versions: Versions): Lifted {
    if |operands| < 2 then Unlifted(mn, addr, versions)
    else
      var rhs := ParseSingleOperand(operands[|operands| - 1], versions);
      var lhs := ParseSingleOperand(operands[if |operands| >= 3 then 1 else 0], versions);
      var base := DstBase(operands[0]);
      Lifted([Alu(op, Fresh(versions, base), lhs, rhs)], Bump(versions, base))
  }

  function LiftMul(operands: seq<string>, addr: nat, versions: Versions): Lifted {
    if |operands| == 1 then
      Lifted([Alu(MulOp, Fresh(versions, RAX), Var(CurrentVar(versions, RAX)), ParseSingleOperand(operands[0], versions))],
             Bump(versions, RAX))
    else LiftBinaryAlu(MulOp, operands, "imul", addr, versions)
  }

  function LiftUnaryReg(isNot: bool, operands: seq<string>, addr: nat, versions: Versions): Lifted {
    if operands == [] || IsMemoryOperand(operands[0]) then Unlifted(if isNot then "not" else "neg", addr, versions)
    else
      var base := DstBase(operands[0]);
      var dst, src := Fresh(versions, base), Var(CurrentVar(versions, base));
      Lifted([if isNot then Not(dst, src) else Neg(dst, src)], Bump(versions, base))
  }

  function LiftStepByOne(op: AluOp, operands: seq<string>, mn: string, addr: nat, versions: Versions): Lifted {
    if operands == [] then Unlifted(mn, addr, versions)
    else
      var base := DstBase(operands[0]);
      Lifted([Alu(op, Fresh(versions, base), Var(CurrentVar(versions, base)), Imm(1))], Bump(versions, base))
  }

  function LiftLeave(versions: Versions): (r: Lifted)
    ensures |r.ops| == 2
  {
    var rbp, after := CurrentVar(versions, RBP), Bump(versions, RSP);
    Lifted([Mov(Fresh(versions, RSP), Var(rbp)), Pop(Fresh(after, RBP))], Bump(after, RBP))
  }

  function LiftCall(text: string, versions: Versions, fallthrough: nat): Opcode {
    var s := Trim(text);
    if IsMemoryOperand(s) then Call(Indirect(ParseMemoryOperandSpec(s, versions)), fallthrough)
    else
      var reg := ParseRegister(s);
      if reg.Some? then Call(Indirect(Var(CurrentVar(versions, reg.value))), 0)
      else
        var a := ParseImmediate(s);
        if a.Some? then Call(Direct(ToWord(a.value)), fallthrough) else Call(External(s), fallthrough)
  }

  function LiftJmp(text: string, versions: Versions): Opcode {
    var s := Trim(text);
    var a := ParseImmediate(s);
    if a.Some? then Jmp(ToWord(a.value))
    else if IsMemoryOperand(s) then Call(Indirect(ParseMemoryOperandSpec(s, versions)), 0)
    else
      var reg := ParseRegister(s);
      if reg.Some? then Call(Indirect(Var(CurrentVar(versions, reg.value))), 0) else Jmp(0)
  }

  function BranchTarget(operands: seq<string>): word {
    if operands == [] then 0
    else
      var a := ParseImmediate(Trim(operands[0]));
      if a.Some? then ToWord(a.value) else 0
  }

  function LiftForm(form: Form, mn: string, operands: seq<string>, addr: nat, next: nat, versions: Versions): Lifted {
    match form
    case FNop => Lifted([Nop], versions)
    case FMov => LiftMov(operands, mn, addr, versions)
    case FLea => LiftLea(operands, mn, addr, versions)
    case FAlu(op) => LiftBinaryAlu(op, operands, mn, addr, versions)
    case FMul => LiftMul(operands, addr, versions)
    case FNot => LiftUnaryReg(true, operands, addr, versions)
    case FNeg => LiftUnaryReg(false, operands, addr, versions)
    case FCmp =>
      if |operands| < 2 then Unlifted(mn, addr, versions)
      else Lifted([Cmp(ParseSingleOperand(operands[0], versions), ParseSingleOperand(operands[1], versions))], versions)
    case FTest =>
      if |operands| < 2 then Unlifted(mn, addr, versions)
      else Lifted([Test(ParseSingleOperand(operands[0], versions), ParseSingleOperand(operands[1], versions))], versions)
    case FPush =>
      if operands == [] then Unlifted(mn, addr, versions)
      else Lifted([Push(ParseSingleOperand(operands[0], versions))], versions)
    case FPop =>
      if operands == [] then Unlifted(mn, addr, versions)
      else
        var base := DstBase(operands[0]);
        Lifted([Pop(Fresh(versions, base))], Bump(versions, base))
    case FCall =>
      if operands == [] then Unlifted(mn, addr, versions)
      else Lifted([LiftCall(operands[0], versions, next)], versions)
    case FRet => Lifted([Ret], versions)
    case FJmp =>
      if operands == [] then Unlifted(mn, addr, versions)
      else Lifted([LiftJmp(operands[0], versions)], versions)
    case FAtomic =>
      if |operands| < 2 then Unlifted(mn, addr, versions)
      else Lifted([AtomicRMW(mn, ParseSingleOperand(operands[0], versions), ParseSingleOperand(operands[1], versions))],
                  versions)
    case FCmov(c) =>
      if |operands| < 2 then Unlifted(mn, addr, versions)
      else
        var src, base := ParseSingleOperand(operands[1], versions), DstBase(operands[0]);
        Lifted([Cmovcc(c, Fresh(versions, base), src)], Bump(versions, base))
    case FSet(c) =>
      if operands == [] then Unlifted(mn, addr, versions)
      else
        var base := DstBase(operands[0]);
        Lifted([Setcc(c, Fresh(versions, base))], Bump(versions, base))
    case FJcc(c) => Lifted([Jcc(c, BranchTarget(operands), next)], versions)
    case FInc => LiftStepByOne(AddOp, operands, mn, addr, versions)
    case FDec => LiftStepByOne(SubOp, operands, mn, addr, versions)
    case FLeave => LiftLeave(versions)
    case FSyscall => Lifted([Call(External("syscall"), next)], versions)
    case FUnknown => Unlifted(mn, addr, versions)
  }

  function Mnemonic(insn: DisassembledInsn): string {
    StripLock(ToLower(insn.mnemonic))
  }

  function LiftInsn(insn: DisassembledInsn, versions: Versions): Lifted {
    var m := Mnemonic(insn);
    LiftForm(FormOf(m, "lock " <= ToLower(insn.mnemonic)), m, ParseOperandsSpec(insn.opStr),
             insn.address, insn.address + insn.size, versions)
  }

  function Located(addr: nat, ops: seq<Opcode>): seq<IRInstruction> {
    seq(|ops|, i requires 0 <= i < |ops| => IRInstruction(addr, ops[i]))
  }

  // Blocks and functions.

  datatype LiftedBlock = LiftedBlock(code: seq<IRInstruction>, versions: Versions)

  function AppendLifted(before: LiftedBlock, insn: DisassembledInsn): LiftedBlock {
    var here := LiftInsn(insn, before.versions);
    LiftedBlock(before.code + Located(insn.address, here.ops), here.versions)
  }

  /** The instructions lifted in order from the empty version map. */
  function LiftInsns(insns: seq<DisassembledInsn>): LiftedBlock {
    if insns == [] then LiftedBlock([], map[])
    else
      AppendLifted(LiftInsns(insns[..|insns| - 1]), insns[|insns| - 1])
  }

  function LiftBlock(block: Cfg.BasicBlock): IRBlock {
    IRBlock(block.id, block.startAddr, LiftInsns(block.instructions).code)
  }

  function LiftBlocks(blocks: seq<Cfg.BasicBlock>): (r: seq<IRBlock>)
    ensures |r| == |blocks|
  {
    if blocks == [] then [] else LiftBlocks(blocks[..|blocks| - 1]) + [LiftBlock(blocks[|blocks| - 1])]
  }

  function LiftFunction(cfg: Cfg.ControlFlowGraph): IRFunction {
    IRFunction(cfg.funcName, cfg.funcAddr, LiftBlocks(cfg.blocks), cfg.entryBlock)
  }
}
