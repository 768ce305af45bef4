/** The 64-bit register and memory subset of x86-64 that the decompiler is meant for: syntax,
    execution (Intel SDM, Vol. 2) and condition codes (Appendix B, Intel SDM Vol. 1). */
module X86 {
  import opened Wrappers
  import opened Words
  import opened Ir
  import opened CLang

  type Gpr = b: VarBase | b != RFlags witness RAX

  datatype XMem = XMem(base: Option<Gpr>, index: Option<Gpr>, scale: nat, disp: int) {
    /** A scaled index other than rsp, and a 32-bit displacement. */
    predicate Valid() {
      && scale in {1, 2, 4, 8}
      && (index.None? ==> scale == 1)
      && index != Some(RSP)
      && -0x8000_0000 <= disp < 0x8000_0000
    }

    /** Section 3.7.5 of the Intel SDM, Vol. 1: base + index * scale + displacement. */
    function Address(regs: RegFile): word {
      ToWord((if base.Some? then regs(base.value) else 0)
             + (if index.Some? then regs(index.value) * scale else 0)
             + disp)
    }

    predicate Uses(r: Gpr) {
      base == Some(r) || index == Some(r)
    }
  }

  /** An immediate is given as Capstone prints it: signed, or as the unsigned 64-bit pattern. */
  datatype XOp = XReg(reg: Gpr) | XImm(imm: int) | XMemory(mem: XMem) {
    predicate Valid() {
      match this
      case XReg(_) => true
      case XImm(v) => -0x8000_0000_0000_0000 < v < 0x1_0000_0000_0000_0000
      case XMemory(m) => m.Valid()
    }

    function Value(s: XState): word {
      match this
      case XReg(r) => s.regs(r)
      case XImm(v) => ToWord(v)
      case XMemory(m) => Read64(s.mem, m.Address(s.regs))
    }

    predicate Uses(r: Gpr) {
      match this
      case XReg(q) => q == r
      case XImm(_) => false
      case XMemory(m) => m.Uses(r)
    }
  }

  datatype XInsn =
    | XNop
    | XMov(dst: XOp, src: XOp)
    | XLea(to: Gpr, mem: XMem)
    | XAlu(op: AluOp, dst: XOp, src: XOp)
    | XImul(to: Gpr, src: XOp)
    | XImul3(to: Gpr, src: XOp, imm: int)
    | XShift(left: bool, dst: XOp, count: nat)
    | XNot(dst: XOp)
    | XNeg(dst: XOp)
    | XInc(dst: XOp)
    | XDec(dst: XOp)
    | XCmp(l: XOp, r: XOp)
    | XTest(l: XOp, r: XOp)
    | XCmov(c: Condition, to: Gpr, src: XOp)
    | XJmp(target: word)
    | XJcc(c: Condition, target: word)
    | XPush(src: XOp)
    | XPop(dst: XOp)
    | XLeave
    | XRet
  {
    /** The operand combinations that have an encoding. */
    predicate Encodable() {
      match this
      case XMov(d, s) => d.Valid() && s.Valid() && !d.XImm? && !(d.XMemory? && s.XMemory?)
      case XLea(_, m) => m.Valid()
      case XAlu(op, d, s) =>
        op in {AddOp, SubOp, AndOp, OrOp, XorOp} && d.Valid() && s.Valid() && !d.XImm? && !(d.XMemory? && s.XMemory?)
      case XImul(_, s) => s.Valid() && !s.XImm?
      case XImul3(_, s, v) => s.Valid() && !s.XImm? && XImm(v).Valid()
      case XShift(_, d, n) => d.Valid() && !d.XImm? && n < 256
      case XNot(d) => d.Valid() && !d.XImm?
      case XNeg(d) => d.Valid() && !d.XImm?
      case XInc(d) => d.Valid() && !d.XImm?
      case XDec(d) => d.Valid() && !d.XImm?
      case XCmp(l, r) => l.Valid() && r.Valid() && !l.XImm? && !(l.XMemory? && r.XMemory?)
      case XTest(l, r) => l.Valid() && r.Valid() && !l.XImm? && !(l.XMemory? && r.XMemory?)
      case XCmov(_, _, s) => s.Valid() && !s.XImm?
      case XPush(s) => s.Valid()
      case XPop(d) => d.Valid() && !d.XImm?
      case _ => true
    }
  }

  // State.

  datatype XFlags = XFlags(zf: bool, cf: bool, sf: bool, of: bool, pf: bool)

  datatype XState = XState(regs: RegFile, mem: Memory, flags: XFlags) {
    function SetReg(r: Gpr, w: word): XState {
      XState(Updated(regs, r, w), mem, flags)
    }

    function Put(dst: XOp, w: word): XState {
      match dst
      case XReg(r) => SetReg(r, w)
      case XMemory(m) => XState(regs, Write64(mem, m.Address(regs), w), flags)
      case XImm(_) => this
    }

    function SetFlags(f: XFlags): XState {
      XState(regs, mem, f)
    }
  }

  // Flags.

  function Ones(n: nat): nat {
    if n == 0 then 0 else n % 2 + Ones(n / 2)
  }

  function ResultFlags(w: word, cf: bool, of: bool): XFlags {
    XFlags(w == 0, cf, w >= 0x8000_0000_0000_0000, of, Ones(w % 256) % 2 == 0)
  }

  predicate SignedOverflow(n: int) {
    !(-0x8000_0000_0000_0000 <= n < 0x8000_0000_0000_0000)
  }

  function AddFlags(a: word, b: word): XFlags {
    ResultFlags(ToWord(a + b), a + b >= 0x1_0000_0000_0000_0000, SignedOverflow(Signed(a) + Signed(b)))
  }

  function SubFlags(a: word, b: word): XFlags {
    ResultFlags(ToWord(a - b), a < b, SignedOverflow(Signed(a) - Signed(b)))
  }

  function LogicFlags(w: word): XFlags {
    ResultFlags(w, false, false)
  }

  ghost function AluFlags(op: AluOp, a: word, b: word): XFlags {
    match op
    case AddOp => AddFlags(a, b)
    case SubOp => SubFlags(a, b)
    case AndOp => LogicFlags(BitWord(BAnd, a, b))
    case OrOp => LogicFlags(BitWord(BOr, a, b))
    case _ => LogicFlags(BitWord(BXor, a, b))
  }

  ghost function AluResult(op: AluOp, a: word, b: word): word {
    match op
    case AddOp => ToWord(a + b)
    case SubOp => ToWord(a - b)
    case AndOp => BitWord(BAnd, a, b)
    case OrOp => BitWord(BOr, a, b)
    case _ => BitWord(BXor, a, b)
  }

  predicate Holds(c: Condition, f: XFlags) {
    match c
    case Equal => f.zf
    case NotEqual => !f.zf
    case Less => f.sf != f.of
    case LessEqual => f.zf || f.sf != f.of
    case Greater => !f.zf && f.sf == f.of
    case GreaterEqual => f.sf == f.of
    case Below => f.cf
    case BelowEqual => f.cf || f.zf
    case Above => !f.cf && !f.zf
    case AboveEqual => !f.cf
    case Sign => f.sf
    case NotSign => !f.sf
    case Overflow => f.of
    case NotOverflow => !f.of
    case Parity => f.pf
    case NotParity => !f.pf
  }

  // Execution.

  datatype XNext = XOnward | XGoto(target: nat) | XReturn

  datatype XOutcome = XOutcome(state: XState, next: XNext)

  function Product(a: word, b: word): int {
    Signed(a) * Signed(b)
  }

  /** One instruction. The flags that the manual leaves undefined take their values from `stray`. */
  ghost function XExec(i: XInsn, s: XState, stray: XFlags): XOutcome {
    match i
    case XNop => XOutcome(s, XOnward)
    case XMov(d, src) => XOutcome(s.Put(d, src.Value(s)), XOnward)
    case XLea(to, m) => XOutcome(s.SetReg(to, m.Address(s.regs)), XOnward)
    case XAlu(op, d, src) =>
      var a, b := d.Value(s), src.Value(s);
      XOutcome(s.Put(d, AluResult(op, a, b)).SetFlags(AluFlags(op, a, b)), XOnward)
    case XImul(to, src) =>
      XOutcome(Multiply(s, to, s.regs(to), src.Value(s), stray), XOnward)
    case XImul3(to, src, v) =>
      XOutcome(Multiply(s, to, src.Value(s), ToWord(v), stray), XOnward)
    case XShift(left, d, n) =>
      var a, k := d.Value(s), n % 64;
      var w := if left then ShiftLeft(a, k) else ShiftRight(a, k);
      XOutcome(if k == 0 then s else s.Put(d, w).SetFlags(ResultFlags(w, stray.cf, stray.of)), XOnward)
    case XNot(d) => XOutcome(s.Put(d, 0xffff_ffff_ffff_ffff - d.Value(s)), XOnward)
    case XNeg(d) =>
      var a := d.Value(s);
      XOutcome(s.Put(d, ToWord(0 - a as int)).SetFlags(SubFlags(0, a)), XOnward)
    case XInc(d) =>
      var a := d.Value(s);
      XOutcome(s.Put(d, ToWord(a + 1)).SetFlags(AddFlags(a, 1).(cf := s.flags.cf)), XOnward)
    case XDec(d) =>
      var a := d.Value(s);
      XOutcome(s.Put(d, ToWord(a - 1)).SetFlags(SubFlags(a, 1).(cf := s.flags.cf)), XOnward)
    case XCmp(l, r) => XOutcome(s.SetFlags(SubFlags(l.Value(s), r.Value(s))), XOnward)
    case XTest(l, r) => XOutcome(s.SetFlags(LogicFlags(BitWord(BAnd, l.Value(s), r.Value(s)))), XOnward)
    case XCmov(c, to, src) => XOutcome(if Holds(c, s.flags) then s.SetReg(to, src.Value(s)) else s, XOnward)
    case XJmp(t) => XOutcome(s, XGoto(t))
    case XJcc(c, t) => XOutcome(s, if Holds(c, s.flags) then XGoto(t) else XOnward)
    case XPush(src) =>
      var top := ToWord(s.regs(RSP) - 8);
      XOutcome(XState(Updated(s.regs, RSP, top), Write64(s.mem, top, src.Value(s)), s.flags), XOnward)
    case XPop(d) =>
      var w := Read64(s.mem, s.regs(RSP));
      XOutcome(s.SetReg(RSP, ToWord(s.regs(RSP) + 8)).Put(d, w), XOnward)
    case XLeave =>
      var frame := s.regs(RBP);
      XOutcome(s.SetReg(RSP, ToWord(frame + 8)).SetReg(RBP, Read64(s.mem, frame)), XOnward)
    case XRet => XOutcome(s.SetReg(RSP, ToWord(s.regs(RSP) + 8)), XReturn)
  }

  function Multiply(s: XState, to: Gpr, a: word, b: word, stray: XFlags): XState {
    var lost := SignedOverflow(Product(a, b));
    s.SetReg(to, ToWord(Product(a, b))).SetFlags(stray.(cf := lost, of := lost))
  }
}
