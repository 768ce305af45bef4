/** Emitting C from the IR; registers lose their versions here. */
module Backend {
  import opened Wrappers
  import opened Words
  import opened Text
  import opened Ir
  import opened CLang

  /** Symbols, and the names of the functions being emitted, by address. */
  datatype Names = Names(symbols: map<nat, string>, functions: map<nat, string>)

  function SanitiseChar(c: char): char {
    if 'A' <= c <= 'Z' || 'a' <= c <= 'z' || '0' <= c <= '9' || c == '_' then c else '_'
  }

  function SanitiseChars(s: string): string {
    seq(|s|, i requires 0 <= i < |s| => SanitiseChar(s[i]))
  }

  function SanitiseIdent(name: string): string {
    var r := SanitiseChars(name);
    if r == "" then "_anon" else if '0' <= r[0] <= '9' then "_" + r else r
  }

  method SanitiseIdentLoop(name: string) returns (result: string)
    ensures result == SanitiseIdent(name)
  {
    result := "";
    for i := 0 to |name|
      invariant result == SanitiseChars(name[..i])
    {
      result := result + [SanitiseChar(name[i])];
    }
    assert name[..|name|] == name;
    if result == "" {
      return "_anon";
    }
    if '0' <= result[0] <= '9' {
      result := "_" + result;
    }
  }

  function ResolveCallName(addr: nat, names: Names): string {
    if addr in names.functions then names.functions[addr]
    else if addr in names.symbols then SanitiseIdent(names.symbols[addr])
    else "stub_0x" + Hex(addr)
  }

  function Magnitude(n: int64): word {
    if n < 0 then 0 - n as int else n
  }

  // Operands.

  function BaseParts(base: Option<VarId>): seq<CExpr> {
    if base.Some? then [CToUnsigned(CReg(base.value.base))] else []
  }

  function IndexParts(index: Option<VarId>, scale: byte): seq<CExpr> {
    if index.None? then []
    else if scale > 1 then [CBin(CMul, CToUnsigned(CReg(index.value.base)), CInt(scale))]
    else [CToUnsigned(CReg(index.value.base))]
  }

  function DispParts(disp: int64): seq<CExpr> {
    if disp > 0 then [CInt(disp)] else if disp < 0 then [CNegHex(Magnitude(disp))] else []
  }

  function MemAddrParts(base: Option<VarId>, index: Option<VarId>, scale: byte, disp: int64): seq<CExpr> {
    BaseParts(base) + IndexParts(index, scale) + DispParts(disp)
  }

  function EmitMemAddr(base: Option<VarId>, index: Option<VarId>, scale: byte, disp: int64): CExpr {
    SumOf(MemAddrParts(base, index, scale, disp))
  }

  /** The parts joined by " + ", or 0 when there are none. */
  function SumOf(parts: seq<CExpr>): CExpr {
    if parts == [] then CInt(0)
    else if |parts| == 1 then parts[0]
    else CBin(CAdd, SumOf(parts[..|parts| - 1]), parts[|parts| - 1])
  }

  method BuildMemAddrExpr(base: Option<VarId>, index: Option<VarId>, scale: byte, disp: int64) returns (e: CExpr)
    ensures e == EmitMemAddr(base, index, scale, disp)
  {
    var parts: seq<CExpr> := [];
    if base.Some? {
      parts := parts + [CToUnsigned(CReg(base.value.base))];
    }
    if index.Some? {
      if scale > 1 {
        parts := parts + [CBin(CMul, CToUnsigned(CReg(index.value.base)), CInt(scale))];
      } else {
        parts := parts + [CToUnsigned(CReg(index.value.base))];
      }
    }
    if disp > 0 {
      parts := parts + [CInt(disp)];
    } else if disp < 0 {
      parts := parts + [CNegHex(Magnitude(disp))];
    }
    assert parts == MemAddrParts(base, index, scale, disp);
    e := SumOf(parts);
  }

  function EmitOperand(op: Operand): CExpr {
    match op
    case Var(v) => CReg(v.base)
    case Imm(n) => if n >= 0 then CHexU(n) else CNegHex(Magnitude(n))
    case Mem(base, index, scale, disp) => CDeref(EmitMemAddr(base, index, scale, disp))
  }

  function EmitAddr(op: Operand): CExpr {
    match op
    case Mem(base, index, scale, disp) => EmitMemAddr(base, index, scale, disp)
    case _ => CToUnsigned(EmitOperand(op))
  }

  // Conditions.

  function FlagBit(bit: word): CExpr {
    CBin(CAnd, CReg(RFlags), CInt(bit))
  }

  function EmitCondition(c: Condition): CExpr {
    match c
    case Equal => FlagBit(1)
    case NotEqual => CLogNot(FlagBit(1))
    case Less => FlagBit(4)
    case GreaterEqual => CLogNot(FlagBit(4))
    case Below => FlagBit(2)
    case AboveEqual => CLogNot(FlagBit(2))
    case Greater => CLogAnd(CLogNot(FlagBit(1)), CLogNot(FlagBit(4)))
    case LessEqual => CLogOr(FlagBit(1), FlagBit(4))
    case Above => CLogAnd(CLogNot(FlagBit(1)), CLogNot(FlagBit(2)))
    case BelowEqual => CLogOr(FlagBit(1), FlagBit(2))
    case Sign | Overflow | Parity => CReg(RFlags)
    case NotSign | NotOverflow | NotParity => CLogNot(CReg(RFlags))
  }

  // Instructions.

  function OperatorOf(op: AluOp): CBinOp {
    match op
    case AddOp => CAdd
    case SubOp => CSub
    case MulOp => CMul
    case AndOp => CAnd
    case OrOp => COr
    case XorOp => CXor
    case ShlOp => CShl
    case ShrOp => CShr
  }

  function Packed(equal: CExpr, below: CExpr, less: CExpr): CExpr {
    CBin(COr, CBin(COr, equal, CBin(CShl, below, CInt(1))), CBin(CShl, less, CInt(2)))
  }

  function PackedCompare(l: CExpr, r: CExpr): CExpr {
    Packed(CBin(CEq, CToUnsigned(l), CToUnsigned(r)), CBin(CLt, CToUnsigned(l), CToUnsigned(r)),
           CBin(CLt, CToSigned(l), CToSigned(r)))
  }

  const PUSH_SLOT: CStmt := CAssign(RSP, CBin(CSub, CReg(RSP), CInt(8)))
  const POP_SLOT: CStmt := CAssign(RSP, CBin(CAdd, CReg(RSP), CInt(8)))
  const STACK_TOP: CExpr := CToUnsigned(CReg(RSP))
  const CALL_ARGS: seq<CExpr> := [CReg(RDI), CReg(RSI), CReg(RDX), CReg(RCX), CReg(R8), CReg(R9)]

  function AtomicOp(kind: string): Option<AluOp> {
    if kind == "add" then Some(AddOp)
    else if kind == "sub" then Some(SubOp)
    else if kind == "and" then Some(AndOp)
    else if kind == "or" then Some(OrOp)
    else if kind == "xor" then Some(XorOp)
    else None
  }

  function EmitCall(target: CallTarget, names: Names): CStmt {
    match target
    case Direct(addr) => CCallNamed(ResolveCallName(addr, names), [])
    case External(name) => CCallNamed(SanitiseIdent(name), CALL_ARGS)
    case Indirect(op) => CCallThrough(EmitOperand(op))
  }

  function EmitOpcode(op: Opcode, names: Names): CLine {
    match op
    case Mov(dst, src) => [CAssign(dst.base, EmitOperand(src))]
    case Load(dst, addr) => [CAssign(dst.base, CDeref(EmitAddr(addr)))]
    case Store(addr, src) => [CStore(EmitAddr(addr), EmitOperand(src))]
    case Alu(kind, dst, lhs, rhs) => [CAssign(dst.base, CBin(OperatorOf(kind), EmitOperand(lhs), EmitOperand(rhs)))]
    case Not(dst, src) => [CAssign(dst.base, CInvert(EmitOperand(src)))]
    case Neg(dst, src) => [CAssign(dst.base, CToUnsigned(CNegate(CToSigned(EmitOperand(src)))))]
    case Lea(dst, addr) => [CAssign(dst.base, CToUnsigned(EmitAddr(addr)))]
    case Cmp(lhs, rhs) => [CAssign(RFlags, PackedCompare(EmitOperand(lhs), EmitOperand(rhs)))]
    case Test(lhs, rhs) =>
      [CAssign(RFlags, CCond(CBin(CEq, CBin(CAnd, EmitOperand(lhs), EmitOperand(rhs)), CInt(0)), CInt(1), CInt(0)))]
    case Jmp(target) => [CGoto(target)]
    case Jcc(c, target, _) => [CIfGoto(EmitCondition(c), target)]
    case Cmovcc(c, dst, src) => [CAssign(dst.base, CCond(EmitCondition(c), EmitOperand(src), CReg(dst.base)))]
    case Setcc(c, dst) => [CAssign(dst.base, CCond(EmitCondition(c), CInt(1), CInt(0)))]
    case Call(target, fallthrough) =>
      [PUSH_SLOT, CStore(STACK_TOP, CInt(ToWord(fallthrough))), EmitCall(target, names)]
    case Ret => [CReturnRax]
    case Nop => [CComment]
    case Push(src) => [PUSH_SLOT, CStore(STACK_TOP, EmitOperand(src))]
    case Pop(dst) => [CAssign(dst.base, CDeref(STACK_TOP)), POP_SLOT]
    // an operation outside the five prints a parenthesised comma expression without effect
    case AtomicRMW(kind, addr, src) =>
      if AtomicOp(kind).Some? then [CFetch(AtomicOp(kind).value, EmitAddr(addr), EmitOperand(src))] else [CComment]
    case Unknown(_, _) => [CComment]
  }

  // Functions.

  function EmitOpcodes(code: seq<IRInstruction>, names: Names): seq<CItem> {
    seq(|code|, i requires 0 <= i < |code| => CCode(EmitOpcode(code[i].opcode, names)))
  }

  function EmitBlock(block: IRBlock, names: Names): seq<CItem> {
    [CLabel(block.startAddr)] + EmitOpcodes(block.instructions, names)
  }

  /** Blocks sorted by start address, keeping the order of equal ones. */
  function SortBlocks(blocks: seq<IRBlock>): seq<IRBlock> {
    if blocks == [] then []
    else InsertBlock(SortBlocks(blocks[..|blocks| - 1]), blocks[|blocks| - 1])
  }

  function InsertBlock(sorted: seq<IRBlock>, b: IRBlock): seq<IRBlock> {
    if sorted == [] || sorted[|sorted| - 1].startAddr <= b.startAddr then sorted + [b]
    else InsertBlock(sorted[..|sorted| - 1], b) + [sorted[|sorted| - 1]]
  }

  function EmitBlocks(blocks: seq<IRBlock>, names: Names): seq<CItem> {
    if blocks == [] then []
    else EmitBlocks(blocks[..|blocks| - 1], names) + EmitBlock(blocks[|blocks| - 1], names)
  }

  /** The body of the C function: the blocks in address order, then the default return. */
  function EmitFunction(f: IRFunction, names: Names): seq<CItem> {
    EmitBlocks(SortBlocks(f.blocks), names) + [CCode([CReturnRax])]
  }

  method EmitFunctionLoop(f: IRFunction, names: Names) returns (items: seq<CItem>)
    ensures items == EmitFunction(f, names)
  {
    hide EmitOpcode, SortBlocks;
    var sorted := SortBlocks(f.blocks);
    items := [];
    for b := 0 to |sorted|
      invariant items == EmitBlocks(sorted[..b], names)
    {
      ghost var before := items;
      var block := sorted[b];
      items := items + [CLabel(block.startAddr)];
      for i := 0 to |block.instructions|
        invariant items == before + [CLabel(block.startAddr)] + EmitOpcodes(block.instructions[..i], names)
      {
        items := items + [CCode(EmitOpcode(block.instructions[i].opcode, names))];
      }
      assert block.instructions[..|block.instructions|] == block.instructions;
      assert sorted[..b + 1][..b] == sorted[..b];
    }
    assert sorted[..|sorted|] == sorted;
    items := items + [CCode([CReturnRax])];
  }
}
