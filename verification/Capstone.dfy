/** How Capstone prints the subset: Intel syntax, numbers above nine in hexadecimal. */
module Capstone {
  import opened Words
  import opened Text
  import opened Ir
  import opened Frontend
  import opened X86

  function RegName(r: Gpr): string {
    match r
    case RAX => "rax" case RBX => "rbx" case RCX => "rcx" case RDX => "rdx"
    case RSI => "rsi" case RDI => "rdi" case RSP => "rsp" case RBP => "rbp"
    case R8 => "r8" case R9 => "r9" case R10 => "r10" case R11 => "r11"
    case R12 => "r12" case R13 => "r13" case R14 => "r14" case R15 => "r15"
  }

  function NatText(n: nat): string {
    if n <= 9 then Hex(n) else "0x" + Hex(n)
  }

  function ImmText(v: int): string {
    if v >= 0 then NatText(v) else "-" + NatText(-v)
  }

  function IndexText(m: XMem): string
    requires m.index.Some?
  {
    if m.scale == 1 then RegName(m.index.value) else RegName(m.index.value) + "*" + NatText(m.scale)
  }

  function RegTerms(m: XMem): seq<string> {
    (if m.base.Some? then [RegName(m.base.value)] else []) + (if m.index.Some? then [IndexText(m)] else [])
  }

  /** The text between the brackets; an absolute address is printed as the 64-bit pattern. */
  function MemInner(m: XMem): string {
    if RegTerms(m) == [] then NatText(ToWord(m.disp))
    else if m.disp == 0 then Join(RegTerms(m), " + ")
    else if m.disp > 0 then Join(RegTerms(m), " + ") + " + " + NatText(m.disp)
    else Join(RegTerms(m), " + ") + " - " + NatText(-m.disp)
  }

  function MemText(m: XMem): string {
    "[" + MemInner(m) + "]"
  }

  function OpText(op: XOp): string {
    match op
    case XReg(r) => RegName(r)
    case XImm(v) => ImmText(v)
    case XMemory(m) => "qword ptr " + MemText(m)
  }

  function ConditionText(c: Condition): string {
    match c
    case Equal => "e" case NotEqual => "ne"
    case Less => "l" case LessEqual => "le" case Greater => "g" case GreaterEqual => "ge"
    case Below => "b" case BelowEqual => "be" case Above => "a" case AboveEqual => "ae"
    case Sign => "s" case NotSign => "ns" case Overflow => "o" case NotOverflow => "no"
    case Parity => "p" case NotParity => "np"
  }

  /** The 64-bit pattern is the sign extension of a 32-bit one; other immediates need the wide move. */
  predicate FitsInt32(v: int) {
    -0x8000_0000 <= Signed(ToWord(v)) < 0x8000_0000
  }

  function MnemonicText(i: XInsn): string {
    match i
    case XNop => "nop"
    case XMov(d, s) => if d.XReg? && s.XImm? && !FitsInt32(s.imm) then "movabs" else "mov"
    case XLea(_, _) => "lea"
    case XAlu(op, _, _) =>
      (match op case AddOp => "add" case SubOp => "sub" case AndOp => "and" case OrOp => "or" case _ => "xor")
    case XImul(_, _) => "imul"
    case XImul3(_, _, _) => "imul"
    case XShift(left, _, _) => if left then "shl" else "shr"
    case XNot(_) => "not"
    case XNeg(_) => "neg"
    case XInc(_) => "inc"
    case XDec(_) => "dec"
    case XCmp(_, _) => "cmp"
    case XTest(_, _) => "test"
    case XCmov(c, _, _) => "cmov" + ConditionText(c)
    case XJmp(_) => "jmp"
    case XJcc(c, _) => "j" + ConditionText(c)
    case XPush(_) => "push"
    case XPop(_) => "pop"
    case XLeave => "leave"
    case XRet => "ret"
  }

  function OperandTexts(i: XInsn): seq<string> {
    match i
    case XMov(d, s) => [OpText(d), OpText(s)]
    case XLea(to, m) => [RegName(to), MemText(m)]
    case XAlu(_, d, s) => [OpText(d), OpText(s)]
    case XImul(to, s) => [RegName(to), OpText(s)]
    case XImul3(to, s, v) => [RegName(to), OpText(s), ImmText(v)]
    case XShift(_, d, n) => [OpText(d), NatText(n)]
    case XNot(d) => [OpText(d)]
    case XNeg(d) => [OpText(d)]
    case XInc(d) => [OpText(d)]
    case XDec(d) => [OpText(d)]
    case XCmp(l, r) => [OpText(l), OpText(r)]
    case XTest(l, r) => [OpText(l), OpText(r)]
    case XCmov(_, to, s) => [RegName(to), OpText(s)]
    case XJmp(t) => [NatText(t)]
    case XJcc(_, t) => [NatText(t)]
    case XPush(s) => [OpText(s)]
    case XPop(d) => [OpText(d)]
    case _ => []
  }

  /** An instruction placed in memory. */
  datatype XLine = XLine(address: nat, size: nat, insn: XInsn)

  function Disassemble(line: XLine): DisassembledInsn {
    DisassembledInsn(line.address, line.size, MnemonicText(line.insn), Join(OperandTexts(line.insn), ", "), [])
  }

  function Disassembly(p: seq<XLine>): (r: seq<DisassembledInsn>)
    ensures |r| == |p| && forall i :: 0 <= i < |p| ==> r[i] == Disassemble(p[i])
  {
    seq(|p|, i requires 0 <= i < |p| => Disassemble(p[i]))
  }
}
