/** What emitted operands evaluate to: addresses, registers and literals mean in C what they mean
    on the machine. */
module OperandMeaning {
  import opened Wrappers
  import opened Words
  import opened Ir
  import opened Operands
  import opened CLang
  import opened Backend
  import opened X86
  import opened OperandProofs

  /** The registers and the memory of the two machines are the same; flags are related separately. */
  ghost predicate Agree(x: XState, c: CState) {
    x.mem == c.mem && forall r: VarBase :: r != RFlags ==> x.regs(r) == c.regs(r)
  }

  // Sums of unsigned parts.

  /** The part evaluates to a value congruent to n. */
  ghost predicate Means(e: CExpr, s: CState, n: int) {
    Eval(e, s).Some? && Bits(Eval(e, s).value) == ToWord(n)
  }

  ghost predicate MeansUnsigned(e: CExpr, s: CState, n: int) {
    Means(e, s, n) && Eval(e, s).value.U?
  }

  lemma SumTwo(a: CExpr, b: CExpr, s: CState, m: int, n: int)
    requires MeansUnsigned(a, s, m) && Means(b, s, n)
    ensures MeansUnsigned(CBin(CAdd, a, b), s, m + n)
  {
    SumCongruence(m, n);
  }

  lemma SumOfOne(a: CExpr)
    ensures SumOf([a]) == a
  {
  }

  lemma SumOfMore(parts: seq<CExpr>, b: CExpr)
    requires parts != []
    ensures SumOf(parts + [b]) == CBin(CAdd, SumOf(parts), b)
  {
    var all := parts + [b];
    assert all[..|all| - 1] == parts && all[|all| - 1] == b;
  }

  lemma RegPart(r: VarBase, s: CState)
    ensures MeansUnsigned(CToUnsigned(CReg(r)), s, s.regs(r))
  {
  }

  lemma ScaledPart(r: VarBase, scale: nat, s: CState)
    requires scale < 256
    ensures MeansUnsigned(CBin(CMul, CToUnsigned(CReg(r)), CInt(scale)), s, s.regs(r) * scale)
  {
    var a, b := U(s.regs(r)), I(scale);
    assert Eval(CReg(r), s) == Some(a);
    assert Eval(CToUnsigned(CReg(r)), s) == Some(a);
    assert Eval(CInt(scale), s) == Some(b);
    assert Bits(b) == scale;
    assert Apply(CMul, a, b) == Some(U(ToWord(s.regs(r) * scale)));
  }

  lemma DispPart(d: int64, s: CState)
    ensures d > 0 ==> Means(CInt(d), s, d)
    ensures d < 0 ==> Means(CNegHex(Magnitude(d)), s, d)
  {
  }

  lemma LiteralMeans(n: int64, s: CState)
    ensures Means(EmitOperand(Imm(n)), s, n)
  {
  }

  /** What base and index parts sum to. */
  function RegSum(base: Option<VarId>, index: Option<VarId>, scale: byte, s: CState): int {
    (if base.Some? then s.regs(base.value.base) else 0) + (if index.Some? then s.regs(index.value.base) * scale else 0)
  }

  lemma IndexPartMeans(index: VarId, scale: byte, s: CState)
    requires scale > 0
    ensures MeansUnsigned(IndexParts(Some(index), scale)[0], s, s.regs(index.base) * scale)
  {
    if scale > 1 {
      ScaledPart(index.base, scale, s);
    } else {
      RegPart(index.base, s);
    }
  }

  lemma RegPartsMean(base: Option<VarId>, index: Option<VarId>, scale: byte, s: CState)
    requires scale > 0 && (base.Some? || index.Some?)
    ensures MeansUnsigned(SumOf(BaseParts(base) + IndexParts(index, scale)), s, RegSum(base, index, scale, s))
  {
    if index.Some? {
      IndexPartMeans(index.value, scale, s);
      var part := IndexParts(index, scale)[0];
      if base.Some? {
        RegPart(base.value.base, s);
        SumOfOne(CToUnsigned(CReg(base.value.base)));
        SumOfMore(BaseParts(base), part);
        SumTwo(SumOf(BaseParts(base)), part, s, s.regs(base.value.base), s.regs(index.value.base) * scale);
      } else {
        SumOfOne(part);
        assert BaseParts(base) + IndexParts(index, scale) == [part];
      }
    } else {
      RegPart(base.value.base, s);
      SumOfOne(CToUnsigned(CReg(base.value.base)));
      assert BaseParts(base) + IndexParts(index, scale) == BaseParts(base);
    }
  }

  lemma NoRegisters(disp: int64, scale: byte, s: CState)
    ensures Means(EmitMemAddr(None, None, scale, disp), s, disp)
  {
    DispPart(disp, s);
    var part := if disp == 0 then CInt(0) else DispParts(disp)[0];
    assert MemAddrParts(None, None, scale, disp) == if disp == 0 then [] else [part];
    SumOfOne(part);
  }

  lemma UnsignedMeans(e: CExpr, s: CState, n: int)
    requires MeansUnsigned(e, s, n)
    ensures Means(e, s, n)
  {
  }

  /** An emitted address is base + index * scale + displacement modulo 2^64. */
  lemma AddressMeans(base: Option<VarId>, index: Option<VarId>, scale: byte, disp: int64, s: CState)
    requires scale > 0
    ensures Means(EmitMemAddr(base, index, scale, disp), s, RegSum(base, index, scale, s) + disp)
  {
    hide SumOf, BaseParts, IndexParts, Means, MeansUnsigned;
    var regs := BaseParts(base) + IndexParts(index, scale);
    DispPart(disp, s);
    if base.None? && index.None? {
      NoRegisters(disp, scale, s);
    } else {
      RegPartsMean(base, index, scale, s);
      if disp == 0 {
        assert regs + DispParts(disp) == regs;
        UnsignedMeans(SumOf(regs), s, RegSum(base, index, scale, s));
      } else {
        SomeRegisters(base, index, scale);
        SumOfMore(regs, DispParts(disp)[0]);
        SumTwo(SumOf(regs), DispParts(disp)[0], s, RegSum(base, index, scale, s), disp);
        UnsignedMeans(CBin(CAdd, SumOf(regs), DispParts(disp)[0]), s, RegSum(base, index, scale, s) + disp);
        assert DispParts(disp) == [DispParts(disp)[0]];
      }
    }
  }

  lemma SomeRegisters(base: Option<VarId>, index: Option<VarId>, scale: byte)
    requires base.Some? || index.Some?
    ensures BaseParts(base) + IndexParts(index, scale) != []
  {
  }

  lemma OperandSum(m: XMem, versions: Versions, x: XState, s: CState)
    requires m.Valid() && Agree(x, s)
    ensures var op := MemOperandOf(m, versions);
      ToWord(RegSum(op.base, op.index, op.scale, s) + op.disp) == m.Address(x.regs)
  {
  }

  /** The address of a memory operand, from its printed text to its value in C, is the effective
      address of section 3.7.5 of the Intel SDM, Vol. 1. */
  lemma EffectiveAddress(m: XMem, text: string, versions: Versions, x: XState, s: CState)
    requires m.Valid() && IsMemText(text, m) && Agree(x, s)
    ensures Word(EmitAddr(ParseMemoryOperandSpec(text, versions)), s) == Some(m.Address(x.regs))
  {
    MemoryOperandRead(m, text, versions);
    AddressEmitted(m, versions, x, s);
  }

  lemma AddressEmitted(m: XMem, versions: Versions, x: XState, s: CState)
    requires m.Valid() && Agree(x, s)
    ensures Word(EmitAddr(MemOperandOf(m, versions)), s) == Some(m.Address(x.regs))
  {
    var op := MemOperandOf(m, versions);
    AddressMeans(op.base, op.index, op.scale, op.disp, s);
    OperandSum(m, versions, x, s);
  }

  /** An emitted operand evaluates to the operand's value; registers and memory are unsigned. */
  lemma OperandEmitted(op: XOp, versions: Versions, x: XState, s: CState)
    requires op.Valid() && Agree(x, s)
    ensures Word(EmitOperand(OperandOf(op, versions)), s) == Some(op.Value(x))
    ensures !op.XImm? ==> Eval(EmitOperand(OperandOf(op, versions)), s) == Some(U(op.Value(x)))
  {
    match op
    case XReg(r) =>
    case XImm(v) => LiteralMeans(AsInt64(v), s);
    case XMemory(m) => AddressEmitted(m, versions, x, s);
  }
}
