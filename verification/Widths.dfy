/** Moves, extensions, multiplications and byte sets outside the 64-bit subset: what is lifted from their
    text, and exactly when the plain 64-bit operation is right. */
module Widths {
  import opened Wrappers
  import opened Words
  import opened Text
  import opened Ir
  import opened Operands
  import opened Frontend
  import opened Lifter
  import opened CLang
  import opened Backend
  import opened X86
  import opened Capstone
  import opened OperandProofs
  import LiftProofs
  import opened OperandMeaning
  import opened Flags
  import opened Instructions
  import opened Execution
  import opened Gotos
  import opened FlatMachine
  import opened Spellings

  // Reading an instruction's text.

  /** The text of two operands splits into them. */
  lemma TwoOperands(a: string, b: string)
    requires WellFormedOperand(a) && WellFormedOperand(b)
    ensures ParseOperandsSpec(a + ", " + b) == [a, b]
  {
    hide WellFormedOperand, ParseOperandsSpec;
    SplitInvertsJoin([a, b]);
    assert [a, b][1..] == [b];
    assert Join([a, b], ", ") == a + ", " + b;
  }

  lemma OneOperand(a: string)
    requires WellFormedOperand(a)
    ensures ParseOperandsSpec(a) == [a]
  {
    hide WellFormedOperand, ParseOperandsSpec;
    SplitInvertsJoin([a]);
    assert Join([a], ", ") == a;
  }

  lemma SpellingWellFormed(s: string, r: Gpr)
    requires Spells(s, r)
    ensures WellFormedOperand(s)
  {
    hide SpellingsOf, Table, WellFormedOperand;
    TableIsRight(r);
    TablePlain(s, r);
    LiftProofs.PlainWellFormed(s);
  }

  lemma SizeLacks(size: string)
    requires size in SIZES
    ensures Lacks(size, '[') && Lacks(size, ']') && Lacks(size, ',')
  {
  }

  lemma SizedWellFormed(m: XMem, size: string)
    requires size in SIZES
    ensures WellFormedOperand(size + MemText(m))
  {
    hide MemText, Clean, SIZES, Lacks;
    SizeLacks(size);
    SizedClean(m, size);
    LiftProofs.DepthWithoutBrackets(size, 0);
    LiftProofs.MemTextWellFormed(m, "");
    assert "" + MemText(m) == MemText(m);
    LiftProofs.DepthAppend(size, MemText(m), 0);
  }

  lemma SizedClean(m: XMem, size: string)
    requires size in SIZES
    ensures Clean(size + MemText(m))
  {
    hide MemInner;
    var s := size + MemText(m);
    assert size != "" && !IsSpace(size[0]) && s[|s| - 1] == ']';
  }

  // The family of moves.

  const MOVES: seq<string> := ["mov", "movabs", "movzx", "movsx", "movsxd", "movq", "movd"]

  lemma MoveForm(mn: string)
    requires mn in MOVES
    ensures FormOf(mn, false) == FMov
  {
  }

  lemma MovePlain(mn: string)
    requires mn in MOVES
    ensures NoUpper(mn) && !("lock " <= mn)
  {
    assert mn != "" && mn[0] == 'm';
  }

  lemma MoveFormOf(insn: DisassembledInsn)
    requires insn.mnemonic in MOVES
    ensures FormOfInsn(insn) == FMov && Mnemonic(insn) == insn.mnemonic
  {
    hide FormOf, MOVES;
    MovePlain(insn.mnemonic);
    ToLowerFixed(insn.mnemonic);
    MoveForm(insn.mnemonic);
  }

  lemma MoveLinesAlike(operands: seq<string>, mn: string, addr: nat, names: Names)
    ensures LinesOf(LiftMov(operands, mn, addr, map[]).ops, names) == LinesOf(LiftMov(operands, "mov", addr, map[]).ops, names)
    ensures LiftMov(operands, mn, addr, map[]).versions == LiftMov(operands, "mov", addr, map[]).versions
  {
    hide ParseSingleOperand, ParseMemoryOperandSpec, DstBase, EmitOperand, EmitAddr;
  }

  lemma MoveLifted(insn: DisassembledInsn, versions: Versions)
    requires insn.mnemonic in MOVES
    ensures LiftInsn(insn, versions) == LiftMov(ParseOperandsSpec(insn.opStr), insn.mnemonic, insn.address, versions)
  {
    hide FormOf, Mnemonic, ParseOperandsSpec, LiftMov, MOVES;
    MoveFormOf(insn);
  }

  /** Whatever its operands, each of the seven moves prints the lines of mov. */
  lemma MovesAlike(insn: DisassembledInsn, names: Names)
    requires insn.mnemonic in MOVES
    ensures InsnLines(insn, names) == InsnLines(insn.(mnemonic := "mov"), names)
  {
    hide LiftInsn, LiftMov, ParseOperandsSpec, LinesOf;
    var plain := insn.(mnemonic := "mov");
    assert "mov" in MOVES by {
      assert MOVES[0] == "mov";
    }
    MoveLifted(insn, map[]);
    MoveLifted(plain, map[]);
    MoveLinesAlike(ParseOperandsSpec(insn.opStr), insn.mnemonic, insn.address, names);
  }

  /** A source: a part of a register, or memory of some size. */
  datatype Narrow = Part(r: Gpr, text: string) | Sized(m: XMem, size: string) {
    predicate Valid() {
      match this
      case Part(r, text) => Spells(text, r)
      case Sized(m, size) => m.Valid() && size in SIZES
    }

    function Text(): string {
      match this
      case Part(_, text) => text
      case Sized(m, size) => size + MemText(m)
    }

    /** The 64 bits from which the processor takes its part. */
    function Whole(s: XState): word {
      match this
      case Part(r, _) => s.regs(r)
      case Sized(m, _) => Read64(s.mem, m.Address(s.regs))
    }
  }

  lemma SourceWellFormed(src: Narrow)
    requires src.Valid()
    ensures WellFormedOperand(src.Text())
  {
    hide WellFormedOperand, Spells, SIZES;
    match src
    case Part(r, text) => SpellingWellFormed(text, r);
    case Sized(m, size) => SizedWellFormed(m, size);
  }

  /** The operand that a source is read as. */
  function Canonical(src: Narrow): XOp {
    match src
    case Part(r, _) => XReg(r)
    case Sized(m, _) => XMemory(m)
  }

  lemma CanonicalValue(src: Narrow, x: XState)
    requires src.Valid()
    ensures Canonical(src).Valid() && Canonical(src).Value(x) == src.Whole(x)
  {
    hide Spells, SIZES;
  }

  lemma SourceReads(src: Narrow, versions: Versions)
    requires src.Valid()
    ensures Canonical(src).Valid() && LiftProofs.Reads(src.Text(), Canonical(src), versions)
  {
    hide Spells, SIZES, ParseSingleOperand, ParseMemoryOperandSpec, IsMemoryOperand, DstBase, MemText;
    match src
    case Part(r, text) => SpellingRead(text, r, versions);
    case Sized(m, size) =>
      MemorySized(m, size, versions);
      SizedDestination(m, size);
  }

  lemma SizedDestination(m: XMem, size: string)
    requires size in SIZES
    ensures DstBase(size + MemText(m)) == RAX
  {
    hide MemInner, StripSizePrefix, RegisterNamed, Trim;
    SizedShape(m, size);
    SizeStripped(size, MemText(m));
    assert ToLower(MemText(m))[0] == '[';
    MemTextShape(m);
    NotARegister(ToLower(MemText(m)));
  }

  /** A move of the family from a source to a register of any spelling. */
  predicate IsMove(insn: DisassembledInsn, d: Gpr, dst: string, src: Narrow) {
    insn.mnemonic in MOVES && Spells(dst, d) && src.Valid() && insn.opStr == dst + ", " + src.Text()
  }

  lemma MoveOpcode(insn: DisassembledInsn, d: Gpr, dst: string, src: Narrow)
    requires IsMove(insn, d, dst, src)
    ensures Canonical(src).Valid()
    ensures LiftInsn(insn, map[]).ops == LiftProofs.Lowered(XMov(XReg(d), Canonical(src)), insn.mnemonic, insn.address, 0, map[])
  {
    hide LiftInsn, ParseOperandsSpec, LiftProofs.Reads, Spells, MOVES, LiftMov, LiftForm, WellFormedOperand, Narrow.Valid, Narrow.Text;
    MoveLifted(insn, map[]);
    SpellingWellFormed(dst, d);
    SourceWellFormed(src);
    TwoOperands(dst, src.Text());
    PartText(d, dst);
    SourceReads(Part(d, dst), map[]);
    SourceReads(src, map[]);
    SourceReads(src, Bump(map[], d));
    LiftProofs.MovLifted(XReg(d), Canonical(src), dst, src.Text(), insn.mnemonic, insn.address, 0, map[]);
    LiftProofs.MovArm(dst, src.Text(), insn.mnemonic, insn.address, 0, map[]);
  }

  lemma PartText(d: Gpr, dst: string)
    requires Spells(dst, d)
    ensures Part(d, dst).Valid() && Part(d, dst).Text() == dst && Canonical(Part(d, dst)) == XReg(d)
  {
  }

  /** What the printed lines of such a move do: the whole 64 bits go to the whole register. */
  lemma MoveRuns(insn: DisassembledInsn, d: Gpr, dst: string, src: Narrow, names: Names, x: XState, c: CState, callee: Callee)
    requires IsMove(insn, d, dst, src) && Agree(x, c)
    ensures ExecLines(InsnLines(insn, names), c, callee) == Defined(SetReg(c, d, src.Whole(x)), Onward)
  {
    hide LiftInsn, LiftProofs.Lowered, IsMove, EmitOperand, OperandOf, ExecLine, ExecLines, Word, Lines, LinesOf, XOp.Value;
    var op := Canonical(src);
    MoveOpcode(insn, d, dst, src);
    SourceOfMove(insn, d, dst, src);
    CanonicalValue(src, x);
    LinesOfMove(d, op, insn.mnemonic, insn.address, names);
    var after := Bump(map[], d);
    OperandEmitted(op, after, x, c);
    OneStatement(CAssign(d, EmitOperand(OperandOf(op, after))), c, callee);
    AssignStmt(d, EmitOperand(OperandOf(op, after)), c, op.Value(x), callee);
  }

  lemma SourceOfMove(insn: DisassembledInsn, d: Gpr, dst: string, src: Narrow)
    requires IsMove(insn, d, dst, src)
    ensures src.Valid()
  {
  }

  lemma LinesOfMove(d: Gpr, s: XOp, mn: string, addr: nat, names: Names)
    requires s.Valid()
    ensures LinesOf(LiftProofs.Lowered(XMov(XReg(d), s), mn, addr, 0, map[]), names)
            == [[CAssign(d, EmitOperand(OperandOf(s, Bump(map[], d))))]]
  {
    hide EmitMemAddr;
    OneOp(LiftProofs.Lowered(XMov(XReg(d), s), mn, addr, 0, map[])[0], names);
  }

  // Extensions.

  /** 2 to the power of a width in bits. */
  function Size(n: nat): nat {
    if n == 8 then 0x100 else if n == 16 then 0x1_0000 else if n == 32 then 0x1_0000_0000 else 0x1_0000_0000_0000_0000
  }

  /** The low n bits of v, extended to m bits with zeros or with the sign; the bits above are cleared. */
  function Extended(v: word, n: nat, signed: bool, m: nat): word
    requires n in {8, 16, 32} && m in {32, 64} && n <= m
  {
    var low := v % Size(n);
    if signed && low >= Size(n) / 2 then low + (Size(m) - Size(n)) else low
  }

  /** The values that an extension leaves alone. */
  predicate Unextended(v: word, n: nat, signed: bool, m: nat) {
    if !signed then v < Size(n)
    else if m == 64 then -(Size(n) / 2) <= Signed(v) < Size(n) / 2
    else v < Size(n) / 2 || Size(32) - Size(n) / 2 <= v < Size(32)
  }

  lemma ByteExactly(v: word, signed: bool, m: nat)
    requires m == 32 || m == 64
    ensures Extended(v, 8, signed, m) == v <==> Unextended(v, 8, signed, m)
  {
  }

  lemma HalfExactly(v: word, signed: bool, m: nat)
    requires m == 32 || m == 64
    ensures Extended(v, 16, signed, m) == v <==> Unextended(v, 16, signed, m)
  {
  }

  lemma WideExactly(v: word, signed: bool, m: nat)
    requires m == 32 || m == 64
    ensures Extended(v, 32, signed, m) == v <==> Unextended(v, 32, signed, m)
  {
  }

  lemma ExtensionExactly(v: word, n: nat, signed: bool, m: nat)
    requires n in {8, 16, 32} && m in {32, 64} && n <= m
    ensures Extended(v, n, signed, m) == v <==> Unextended(v, n, signed, m)
  {
    hide Extended, Unextended;
    if n == 8 {
      ByteExactly(v, signed, m);
    } else if n == 16 {
      HalfExactly(v, signed, m);
    } else {
      WideExactly(v, signed, m);
    }
  }

  lemma Unrolled(m: Memory, a: int)
    ensures ReadBytes(m, a, 1) == m(ToWord(a))
    ensures ReadBytes(m, a, 2) == m(ToWord(a)) + 0x100 * m(ToWord(a + 1))
    ensures ReadBytes(m, a, 4) == ReadBytes(m, a, 2) + 0x1_0000 * ReadBytes(m, a + 2, 2)
    ensures ReadBytes(m, a, 8) == ReadBytes(m, a, 4) + 0x1_0000_0000 * ReadBytes(m, a + 4, 4)
  {
    hide ToWord;
    assert ReadBytes(m, a + 4, 4) == m(ToWord(a + 4)) + 256 * ReadBytes(m, a + 5, 3);
    assert ReadBytes(m, a, 8) == m(ToWord(a)) + 256 * ReadBytes(m, a + 1, 7);
    assert ReadBytes(m, a + 1, 7) == m(ToWord(a + 1)) + 256 * ReadBytes(m, a + 2, 6);
    assert ReadBytes(m, a + 2, 6) == m(ToWord(a + 2)) + 256 * ReadBytes(m, a + 3, 5);
    assert ReadBytes(m, a + 3, 5) == m(ToWord(a + 3)) + 256 * ReadBytes(m, a + 4, 4);
    assert ReadBytes(m, a, 4) == m(ToWord(a)) + 256 * ReadBytes(m, a + 1, 3);
    assert ReadBytes(m, a + 1, 3) == m(ToWord(a + 1)) + 256 * ReadBytes(m, a + 2, 2);
    assert ReadBytes(m, a + 2, 2) == m(ToWord(a + 2)) + 256 * m(ToWord(a + 3));
  }

  lemma LowPart(x: nat, low: nat, high: nat, n: nat)
    requires n in {8, 16, 32} && x == low + Size(n) * high && low < Size(n)
    ensures x % Size(n) == low
  {
  }

  lemma Bounds(m: Memory, a: int)
    ensures ReadBytes(m, a, 1) < 0x100 && ReadBytes(m, a, 2) < 0x1_0000 && ReadBytes(m, a, 4) < 0x1_0000_0000
  {
    hide ToWord, ReadBytes;
    Unrolled(m, a);
    Unrolled(m, a + 2);
  }

  /** The narrow value in memory is the low part of the 64 bits read there. */
  lemma NarrowRead(m: Memory, a: word, n: nat)
    requires n in {8, 16, 32}
    ensures Read64(m, a) % Size(n) == ReadBytes(m, a, n / 8)
  {
    hide ToWord, ReadBytes;
    var x, two, four := Read64(m, a), ReadBytes(m, a, 2), ReadBytes(m, a, 4);
    Bounds(m, a);
    Unrolled(m, a);
    var third, high := ReadBytes(m, a + 2, 2), ReadBytes(m, a + 4, 4);
    assert x == two + 0x1_0000 * (third + 0x1_0000 * high);
    if n == 32 {
      LowPart(x, four, high, 32);
    } else if n == 16 {
      LowPart(x, two, third + 0x1_0000 * high, 16);
    } else {
      var second: nat := m(ToWord(a + 1));
      LowPart(x, ReadBytes(m, a, 1), second + 0x100 * (third + 0x1_0000 * high), 8);
    }
  }

  /** movzx, movsx, movsxd and narrow mov, from their text: the emitted plain move gives the destination the
      value the processor does exactly when the extension leaves the 64 bits alone. */
  lemma PlainMoveExactly(insn: DisassembledInsn, d: Gpr, dst: string, src: Narrow, n: nat, signed: bool, m: nat,
                         names: Names, x: XState, c: CState, callee: Callee)
    requires IsMove(insn, d, dst, src) && Agree(x, c) && n in {8, 16, 32} && m in {32, 64} && n <= m
    ensures var r := ExecLines(InsnLines(insn, names), c, callee);
      && r.Defined? && r.next.Onward? && r.state == SetReg(c, d, src.Whole(x))
      && (r.state.regs(d) == Extended(src.Whole(x), n, signed, m) <==> Unextended(src.Whole(x), n, signed, m))
  {
    hide ExecLines, InsnLines, IsMove, Narrow.Whole, Extended, Unextended;
    MoveRuns(insn, d, dst, src, names, x, c, callee);
    ExtensionExactly(src.Whole(x), n, signed, m);
  }
}
