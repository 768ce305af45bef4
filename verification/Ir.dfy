/** The versioned intermediate representation. */
module Ir {
  import opened Wrappers
  import opened Words

  datatype VarBase =
    | RAX | RBX | RCX | RDX | RSI | RDI | RSP | RBP
    | R8 | R9 | R10 | R11 | R12 | R13 | R14 | R15
    | RFlags

  datatype VarId = VarId(base: VarBase, version: nat)

  datatype Operand =
    | Var(id: VarId)
    | Imm(value: int64)
    | Mem(base: Option<VarId>, index: Option<VarId>, scale: byte, disp: int64)

  datatype Condition =
    | Equal | NotEqual | Less | LessEqual | Greater | GreaterEqual
    | Below | BelowEqual | Above | AboveEqual
    | Sign | NotSign | Overflow | NotOverflow | Parity | NotParity

  datatype CallTarget =
    | Direct(addr: word)
    | Indirect(op: Operand)
    | External(name: string)

  /** The two-operand opcodes `Add` .. `Shr`. */
  datatype AluOp = AddOp | SubOp | MulOp | AndOp | OrOp | XorOp | ShlOp | ShrOp

  datatype Opcode =
    | Mov(dst: VarId, src: Operand)
    | Load(dst: VarId, addr: Operand)
    | Store(addr: Operand, src: Operand)
    | Alu(op: AluOp, dst: VarId, lhs: Operand, rhs: Operand)
    | Not(dst: VarId, src: Operand)
    | Neg(dst: VarId, src: Operand)
    | Lea(dst: VarId, addr: Operand)
    | Cmp(lhs: Operand, rhs: Operand)
    | Test(lhs: Operand, rhs: Operand)
    | Jmp(target: word)
    | Jcc(condition: Condition, target: word, fallthrough: nat)
    | Cmovcc(condition: Condition, dst: VarId, src: Operand)
    | Setcc(condition: Condition, dst: VarId)
    | Call(callee: CallTarget, fallthrough: nat)
    | Ret
    | Nop
    | Push(src: Operand)
    | Pop(dst: VarId)
    | AtomicRMW(kind: string, addr: Operand, src: Operand)
    | Unknown(mnemonic: string, at: nat)

  datatype IRInstruction = IRInstruction(addr: nat, opcode: Opcode)

  datatype IRBlock = IRBlock(id: nat, startAddr: nat, instructions: seq<IRInstruction>)

  /** The id of a block is its index in `blocks`. */
  datatype IRFunction = IRFunction(name: string, addr: nat, blocks: seq<IRBlock>, entryBlock: nat)
}
