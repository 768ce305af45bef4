/** The fragment of C99 that the emitter prints, with its meaning on the simulated machine state.
    `None` is undefined behaviour. */
module CLang {
  import opened Wrappers
  import opened Words
  import opened Ir

  datatype CBinOp = CAdd | CSub | CMul | CAnd | COr | CXor | CShl | CShr | CEq | CLt

  datatype CExpr =
    | CReg(base: VarBase)                       // cpu.<name>
    | CHexU(n: word)                            // 0x<n>ULL
    | CNegHex(n: word)                          // (-0x<n>LL)
    | CInt(n: word)                             // 0x<n> or <n>, no suffix
    | CDeref(addr: CExpr)                       // *(uint64_t*)(addr)
    | CToUnsigned(e: CExpr)                     // (uint64_t)e and (uintptr_t)e
    | CToSigned(e: CExpr)                       // (int64_t)e
    | CBin(op: CBinOp, l: CExpr, r: CExpr)
    | CInvert(e: CExpr)                         // ~e
    | CNegate(e: CExpr)                         // -e
    | CLogNot(e: CExpr)
    | CLogAnd(l: CExpr, r: CExpr)
    | CLogOr(l: CExpr, r: CExpr)
    | CCond(c: CExpr, t: CExpr, f: CExpr)

  datatype CStmt =
    | CAssign(dst: VarBase, e: CExpr)
    | CStore(addr: CExpr, e: CExpr)
    | CGoto(target: nat)
    | CIfGoto(c: CExpr, target: nat)
    | CReturnRax
    | CCallNamed(callee: string, args: seq<CExpr>)   // cpu.rax = callee(args);
    | CCallThrough(e: CExpr)                         // cpu.rax = ((uint64_t(*)(void))(e))();
    | CFetch(op: AluOp, addr: CExpr, e: CExpr)       // __sync_fetch_and_<op>((uint64_t*)(addr), e);
    | CComment

  /** One printed line: the statements emitted for one IR instruction. */
  type CLine = seq<CStmt>

  datatype CItem = CLabel(addr: nat) | CCode(line: CLine)

  // Values.

  type RegFile = VarBase -> word

  function Updated(regs: RegFile, base: VarBase, w: word): RegFile {
    (x: VarBase) => if x == base then w else regs(x)
  }

  /** `cpu` and the memory; the IR's rflags base names `cpu.rflags`. */
  datatype CState = CState(regs: RegFile, mem: Memory)

  /** A value with the signedness of its type; the narrower integer types of the emitted code are
      merged into the signed 64-bit one, which holds all their values. */
  datatype CVal = U(bits: word) | I(num: int64)

  function Bits(v: CVal): word {
    match v
    case U(w) => w
    case I(n) => ToWord(n)
  }

  function Num(v: CVal): int {
    match v
    case U(w) => w
    case I(n) => n
  }

  function Truth(b: bool): CVal {
    I(if b then 1 else 0)
  }

  function InInt64(n: int): Option<CVal> {
    if -0x8000_0000_0000_0000 <= n < 0x8000_0000_0000_0000 then Some(I(n)) else None
  }

  function MathOp(op: CBinOp, a: int, b: int): int
    requires op in {CAdd, CSub, CMul}
  {
    match op
    case CAdd => a + b
    case CSub => a - b
    case CMul => a * b
  }

  function ApplyMath(op: CBinOp, a: CVal, b: CVal): Option<CVal>
    requires op in {CAdd, CSub, CMul}
  {
    if a.I? && b.I? then InInt64(MathOp(op, a.num, b.num)) else Some(U(ToWord(MathOp(op, Bits(a), Bits(b)))))
  }

  ghost function ApplyBits(op: BitOp, a: CVal, b: CVal): CVal {
    var w := BitWord(op, Bits(a), Bits(b));
    if a.I? && b.I? then I(Signed(w)) else U(w)
  }

  function ApplyLeft(a: CVal, n: nat): Option<CVal> {
    if n >= 64 then None
    else if a.U? then Some(U(ShiftLeft(a.bits, n)))
    else if a.num < 0 then None
    else InInt64(a.num * Pow2(n))
  }

  function ApplyRight(a: CVal, n: nat): Option<CVal> {
    if n >= 64 then None
    else if a.U? then Some(U(ShiftRight(a.bits, n)))
    else if a.num < 0 then None
    else InInt64(ShiftRight(a.num, n))
  }

  /** Binary operators after the usual arithmetic conversions: unsigned arithmetic wraps, signed
      overflow and out-of-range shifts are undefined. */
  ghost function Apply(op: CBinOp, a: CVal, b: CVal): Option<CVal> {
    match op
    case CAdd | CSub | CMul => ApplyMath(op, a, b)
    case CAnd => Some(ApplyBits(BAnd, a, b))
    case COr => Some(ApplyBits(BOr, a, b))
    case CXor => Some(ApplyBits(BXor, a, b))
    case CShl => if Num(b) < 0 then None else ApplyLeft(a, Num(b))
    case CShr => if Num(b) < 0 then None else ApplyRight(a, Num(b))
    case CEq => Some(Truth(if a.I? && b.I? then a.num == b.num else Bits(a) == Bits(b)))
    case CLt => Some(Truth(if a.I? && b.I? then a.num < b.num else Bits(a) < Bits(b)))
  }

  ghost function Eval(e: CExpr, s: CState): Option<CVal> {
    match e
    case CReg(base) => Some(U(s.regs(base)))
    case CHexU(n) => Some(U(n))
    // a hexadecimal constant too large for long long is unsigned
    case CNegHex(n) => Some(if n < 0x8000_0000_0000_0000 then I(-(n as int)) else U(ToWord(-(n as int))))
    case CInt(n) => Some(if n < 0x8000_0000_0000_0000 then I(n) else U(n))
    case CDeref(a) =>
      var v := Eval(a, s);
      if v.Some? then Some(U(Read64(s.mem, Bits(v.value)))) else None
    case CToUnsigned(x) =>
      var v := Eval(x, s);
      if v.Some? then Some(U(Bits(v.value))) else None
    case CToSigned(x) =>
      var v := Eval(x, s);
      if v.Some? then Some(I(Signed(Bits(v.value)))) else None
    case CBin(op, l, r) =>
      var a, b := Eval(l, s), Eval(r, s);
      if a.Some? && b.Some? then Apply(op, a.value, b.value) else None
    case CInvert(x) =>
      var v := Eval(x, s);
      if v.None? then None
      else if v.value.U? then Some(U(0xffff_ffff_ffff_ffff - v.value.bits))
      else Some(I(-1 - v.value.num))
    case CNegate(x) =>
      var v := Eval(x, s);
      if v.None? then None
      else if v.value.U? then Some(U(ToWord(0 - v.value.bits as int)))
      else InInt64(0 - v.value.num as int)
    case CLogNot(x) =>
      var v := Eval(x, s);
      if v.Some? then Some(Truth(Bits(v.value) == 0)) else None
    case CLogAnd(l, r) =>
      var a := Eval(l, s);
      if a.None? then None
      else if Bits(a.value) == 0 then Some(Truth(false))
      else
        var b := Eval(r, s);
        if b.Some? then Some(Truth(Bits(b.value) != 0)) else None
    case CLogOr(l, r) =>
      var a := Eval(l, s);
      if a.None? then None
      else if Bits(a.value) != 0 then Some(Truth(true))
      else
        var b := Eval(r, s);
        if b.Some? then Some(Truth(Bits(b.value) != 0)) else None
    case CCond(c, t, f) =>
      var v := Eval(c, s);
      if v.None? then None else Eval(if Bits(v.value) != 0 then t else f, s)
  }

  /** The value as it is stored in a 64-bit unsigned object. */
  ghost function Word(e: CExpr, s: CState): Option<word> {
    var v := Eval(e, s);
    if v.Some? then Some(Bits(v.value)) else None
  }

  // Statements.

  function SetReg(s: CState, base: VarBase, w: word): CState {
    CState(Updated(s.regs, base, w), s.mem)
  }

  ghost function AluWord(op: AluOp, a: word, b: word): Option<word> {
    match op
    case AddOp => Some(ToWord(a + b))
    case SubOp => Some(ToWord(a - b))
    case MulOp => Some(ToWord(a * b))
    case AndOp => Some(BitWord(BAnd, a, b))
    case OrOp => Some(BitWord(BOr, a, b))
    case XorOp => Some(BitWord(BXor, a, b))
    case ShlOp => if b < 64 then Some(ShiftLeft(a, b)) else None
    case ShrOp => if b < 64 then Some(ShiftRight(a, b)) else None
  }

  /** Where control goes after a statement or a line. */
  datatype CNext = Onward | ToLabel(target: nat) | Leaves

  datatype COutcome = Defined(state: CState, next: CNext) | Undefined

  /** The effect of a callee on the shared state; it returns the value of rax. */
  type Callee = (CStmt, CState) -> CState

  ghost function ExecStmt(st: CStmt, s: CState, callee: Callee): COutcome {
    match st
    case CAssign(dst, e) =>
      var w := Word(e, s);
      if w.Some? then Defined(SetReg(s, dst, w.value), Onward) else Undefined
    case CStore(addr, e) =>
      var a, w := Word(addr, s), Word(e, s);
      if a.Some? && w.Some? then Defined(s.(mem := Write64(s.mem, a.value, w.value)), Onward) else Undefined
    case CGoto(target) => Defined(s, ToLabel(target))
    case CIfGoto(c, target) =>
      var w := Word(c, s);
      if w.None? then Undefined else Defined(s, if w.value != 0 then ToLabel(target) else Onward)
    case CReturnRax => Defined(s, Leaves)
    case CCallNamed(_, _) => Defined(callee(st, s), Onward)
    case CCallThrough(_) => Defined(callee(st, s), Onward)
    case CFetch(op, addr, e) =>
      var a, w := Word(addr, s), Word(e, s);
      if a.None? || w.None? then Undefined
      else
        var r := AluWord(op, Read64(s.mem, a.value), w.value);
        if r.Some? then Defined(s.(mem := Write64(s.mem, a.value, r.value)), Onward) else Undefined
    case CComment => Defined(s, Onward)
  }

  ghost function ExecLine(line: CLine, s: CState, callee: Callee): COutcome {
    if line == [] then Defined(s, Onward)
    else
      var r := ExecStmt(line[0], s, callee);
      if r.Defined? && r.next.Onward? then ExecLine(line[1..], r.state, callee) else r
  }

  // The goto program: a flat list of labels and lines.

  function LabelAt(items: seq<CItem>, a: nat): (r: Option<nat>)
    ensures r.Some? ==> r.value < |items| && items[r.value] == CLabel(a)
    ensures r.None? ==> CLabel(a) !in items
  {
    if items == [] then None
    else if items[0] == CLabel(a) then Some(0)
    else
      var r := LabelAt(items[1..], a);
      if r.Some? then Some(r.value + 1) else None
  }

  datatype CConfig =
    | Running(pos: nat, state: CState)
    | Returned(value: word, state: CState)
    | NoSuchLabel
    | Stuck

  /** One item. Control that runs past the last item returns, as the trailing return statement does. */
  ghost function CStep(items: seq<CItem>, callee: Callee, c: CConfig): CConfig {
    if !c.Running? then c
    else if c.pos >= |items| then Returned(c.state.regs(RAX), c.state)
    else
      match items[c.pos]
      case CLabel(_) => Running(c.pos + 1, c.state)
      case CCode(line) =>
        match ExecLine(line, c.state, callee)
        case Undefined => Stuck
        case Defined(s, next) =>
          match next
          case Onward => Running(c.pos + 1, s)
          case Leaves => Returned(s.regs(RAX), s)
          case ToLabel(t) =>
            var l := LabelAt(items, t);
            if l.Some? then Running(l.value, s) else NoSuchLabel
  }

  ghost function CRun(items: seq<CItem>, callee: Callee, c: CConfig, n: nat): CConfig {
    if n == 0 then c else CStep(items, callee, CRun(items, callee, c, n - 1))
  }

  lemma {:induction false} CRunSplit(items: seq<CItem>, callee: Callee, c: CConfig, m: nat, n: nat)
    ensures CRun(items, callee, c, m + n) == CRun(items, callee, CRun(items, callee, c, m), n)
  {
    if n > 0 {
      CRunSplit(items, callee, c, m, n - 1);
      assert m + n - 1 == m + (n - 1);
    }
  }
}
