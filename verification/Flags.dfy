/** Condition codes: the packed word that emitted comparisons leave in cpu.rflags, against the
    processor's flags (Appendix B, Intel SDM Vol. 1). */
module Flags {
  import opened Wrappers
  import opened Words
  import opened Ir
  import opened CLang
  import opened Backend
  import opened X86

  /** The word left by an emitted cmp: equality, unsigned less and signed less in bits 0, 1 and 2. */
  function PackCmp(l: word, r: word): word {
    (if l == r then 1 else 0) + (if l < r then 2 else 0) + (if Signed(l) < Signed(r) then 4 else 0)
  }

  ghost function PackTest(l: word, r: word): word {
    if BitWord(BAnd, l, r) == 0 then 1 else 0
  }

  /** The truth of an emitted condition on a given cpu.rflags. */
  ghost predicate Taken(c: Condition, rflags: word) {
    match c
    case Equal => Bit(rflags, 1)
    case NotEqual => !Bit(rflags, 1)
    case Less => Bit(rflags, 4)
    case GreaterEqual => !Bit(rflags, 4)
    case Below => Bit(rflags, 2)
    case AboveEqual => !Bit(rflags, 2)
    case Greater => !Bit(rflags, 1) && !Bit(rflags, 4)
    case LessEqual => Bit(rflags, 1) || Bit(rflags, 4)
    case Above => !Bit(rflags, 1) && !Bit(rflags, 2)
    case BelowEqual => Bit(rflags, 1) || Bit(rflags, 2)
    case Sign | Overflow | Parity => rflags != 0
    case NotSign | NotOverflow | NotParity => rflags == 0
  }

  ghost predicate Bit(w: word, bit: word) {
    BitWord(BAnd, w, bit) != 0
  }

  /** The values cpu.rflags can hold after a comparison. */
  const PACKED: set<word> := {0, 1, 2, 4, 6}

  lemma AndSmall(w: word, bit: word)
    requires w in {0, 1, 2} && bit in {1, 2, 4}
    ensures Bitwise(BAnd, w, bit) == if w == bit then bit else 0
  {
    assert Bitwise(BAnd, 0, 1) == 0 && Bitwise(BAnd, 0, 2) == 0 && Bitwise(BAnd, 0, 4) == 0;
    assert Bitwise(BAnd, 1, 1) == 1 && Bitwise(BAnd, 1, 2) == 0 && Bitwise(BAnd, 1, 4) == 0;
    assert Bitwise(BAnd, 2, 1) == 0 && Bitwise(BAnd, 2, 2) == 2 && Bitwise(BAnd, 2, 4) == 0;
  }

  lemma AndFour(bit: word)
    requires bit in {1, 2, 4}
    ensures Bitwise(BAnd, 4, bit) == if bit == 4 then 4 else 0
  {
    assert Bitwise(BAnd, 4, 1) == 0 && Bitwise(BAnd, 4, 2) == 0 && Bitwise(BAnd, 4, 4) == 4;
  }

  lemma AndSix(bit: word)
    requires bit in {1, 2, 4}
    ensures Bitwise(BAnd, 6, bit) == if bit == 1 then 0 else bit
  {
    assert Bitwise(BAnd, 6, 1) == 0 && Bitwise(BAnd, 6, 2) == 2 && Bitwise(BAnd, 6, 4) == 4;
  }

  lemma AndLiteral(w: word, bit: word)
    requires w in PACKED && bit in {1, 2, 4}
    ensures BitWord(BAnd, w, bit) == if w == bit || (w == 6 && bit != 1) then bit else 0
  {
    hide Bitwise, BitWord;
    if w in {0, 1, 2} {
      AndSmall(w, bit);
    } else if w == 4 {
      AndFour(bit);
    } else {
      AndSix(bit);
    }
    BitWordIs(BAnd, w, bit, if w == bit || (w == 6 && bit != 1) then bit else 0);
  }

  lemma BitsOfPacked(w: word)
    requires w in PACKED
    ensures Bit(w, 1) <==> w == 1
    ensures Bit(w, 2) <==> w == 2 || w == 6
    ensures Bit(w, 4) <==> w == 4 || w == 6
  {
    AndLiteral(w, 1);
    AndLiteral(w, 2);
    AndLiteral(w, 4);
  }

  lemma FlagBitEmitted(bit: word, s: CState)
    requires bit < 8
    ensures Eval(FlagBit(bit), s) == Some(U(BitWord(BAnd, s.regs(RFlags), bit)))
  {
    assert Eval(CInt(bit), s) == Some(I(bit)) && Bits(I(bit)) == bit;
  }

  lemma NoFlagBitEmitted(bit: word, s: CState)
    requires bit < 8
    ensures Eval(CLogNot(FlagBit(bit)), s) == Some(Truth(!Bit(s.regs(RFlags), bit)))
  {
    FlagBitEmitted(bit, s);
  }

  lemma NeitherEmitted(bit: word, bit': word, s: CState)
    requires bit < 8 && bit' < 8
    ensures Eval(CLogAnd(CLogNot(FlagBit(bit)), CLogNot(FlagBit(bit'))), s)
            == Some(Truth(!Bit(s.regs(RFlags), bit) && !Bit(s.regs(RFlags), bit')))
  {
    NoFlagBitEmitted(bit, s);
    NoFlagBitEmitted(bit', s);
  }

  lemma EitherEmitted(bit: word, bit': word, s: CState)
    requires bit < 8 && bit' < 8
    ensures Eval(CLogOr(FlagBit(bit), FlagBit(bit')), s)
            == Some(Truth(Bit(s.regs(RFlags), bit) || Bit(s.regs(RFlags), bit')))
  {
    FlagBitEmitted(bit, s);
    FlagBitEmitted(bit', s);
  }

  /** An emitted condition never gets stuck, and evaluates to its truth. */
  lemma ConditionEmitted(c: Condition, s: CState)
    ensures Word(EmitCondition(c), s).Some?
    ensures Word(EmitCondition(c), s).value != 0 <==> Taken(c, s.regs(RFlags))
  {
    match c
    case Equal => FlagBitEmitted(1, s);
    case NotEqual => NoFlagBitEmitted(1, s);
    case Less => FlagBitEmitted(4, s);
    case GreaterEqual => NoFlagBitEmitted(4, s);
    case Below => FlagBitEmitted(2, s);
    case AboveEqual => NoFlagBitEmitted(2, s);
    case Greater => NeitherEmitted(1, 4, s);
    case LessEqual => EitherEmitted(1, 4, s);
    case Above => NeitherEmitted(1, 2, s);
    case BelowEqual => EitherEmitted(1, 2, s);
    case _ => assert Eval(CReg(RFlags), s) == Some(U(s.regs(RFlags)));
  }

  lemma OrLow(x: word, y: word)
    requires x <= 1 && y in {0, 2}
    ensures Bitwise(BOr, x, y) == x + y
  {
    assert Bitwise(BOr, 0, 0) == 0 && Bitwise(BOr, 1, 0) == 1;
    assert Bitwise(BOr, 0, 2) == 2 && Bitwise(BOr, 1, 2) == 3;
  }

  lemma OrZero(x: word)
    requires x <= 3
    ensures Bitwise(BOr, x, 0) == x
  {
    assert Bitwise(BOr, 0, 0) == 0 && Bitwise(BOr, 1, 0) == 1 && Bitwise(BOr, 2, 0) == 2 && Bitwise(BOr, 3, 0) == 3;
  }

  lemma OrFour(x: word)
    requires x <= 3
    ensures Bitwise(BOr, x, 4) == x + 4
  {
    assert Bitwise(BOr, 0, 4) == 4 && Bitwise(BOr, 1, 4) == 5 && Bitwise(BOr, 2, 4) == 6 && Bitwise(BOr, 3, 4) == 7;
  }

  lemma OrOfBits(x: word, y: word)
    requires (x <= 1 && y in {0, 2}) || (x <= 3 && y in {0, 4})
    ensures BitWord(BOr, x, y) == x + y
  {
    hide Bitwise, BitWord;
    if x <= 1 && y in {0, 2} {
      OrLow(x, y);
    } else if y == 0 {
      OrZero(x);
    } else {
      OrFour(x);
    }
    BitWordIs(BOr, x, y, x + y);
  }

  lemma OrApplied(a: int64, b: int64)
    requires 0 <= a < 8 && 0 <= b < 8 && BitWord(BOr, a, b) == a + b
    ensures Apply(COr, I(a), I(b)) == Some(I(a + b))
  {
    assert Bits(I(a)) == a && Bits(I(b)) == b;
  }

  lemma OrEmitted(x: CExpr, y: CExpr, s: CState, a: int64, b: int64)
    requires Eval(x, s) == Some(I(a)) && Eval(y, s) == Some(I(b))
    requires 0 <= a < 8 && 0 <= b < 8 && BitWord(BOr, a, b) == a + b
    ensures Eval(CBin(COr, x, y), s) == Some(I(a + b)) && Word(CBin(COr, x, y), s) == Some(a + b)
  {
    hide BitWord;
    OrApplied(a, b);
    NonNegativeBits(a + b);
  }

  lemma NonNegativeBits(n: int64)
    requires n >= 0
    ensures Bits(I(n)) == n
  {
  }

  lemma ShiftedTruth(x: CExpr, n: word, b: bool, s: CState, v: int64)
    requires Eval(x, s) == Some(Truth(b)) && n < 8 && v == if b then Pow2(n) else 0
    ensures Eval(CBin(CShl, x, CInt(n)), s) == Some(I(v))
  {
    assert Eval(CInt(n), s) == Some(I(n));
  }

  /** The three comparisons of an emitted cmp. */
  lemma ComparisonsEmitted(l: CExpr, r: CExpr, s: CState, a: word, b: word)
    requires Word(l, s) == Some(a) && Word(r, s) == Some(b)
    ensures Eval(CBin(CEq, CToUnsigned(l), CToUnsigned(r)), s) == Some(Truth(a == b))
    ensures Eval(CBin(CLt, CToUnsigned(l), CToUnsigned(r)), s) == Some(Truth(a < b))
    ensures Eval(CBin(CLt, CToSigned(l), CToSigned(r)), s) == Some(Truth(Signed(a) < Signed(b)))
  {
    assert Eval(CToUnsigned(l), s) == Some(U(a)) && Eval(CToUnsigned(r), s) == Some(U(b));
    assert Eval(CToSigned(l), s) == Some(I(Signed(a))) && Eval(CToSigned(r), s) == Some(I(Signed(b)));
  }

  lemma SmallPowers()
    ensures Pow2(1) == 2 && Pow2(2) == 4
  {
  }

  lemma PackEmitted(eq: CExpr, lt: CExpr, sl: CExpr, s: CState, e: bool, u: bool, g: bool)
    requires Eval(eq, s) == Some(Truth(e)) && Eval(lt, s) == Some(Truth(u)) && Eval(sl, s) == Some(Truth(g))
    ensures Word(Packed(eq, lt, sl), s) == Some((if e then 1 else 0) + (if u then 2 else 0) + (if g then 4 else 0))
  {
    hide Eval, BitWord, Pow2;
    var x: int64, y: int64, z: int64 := if e then 1 else 0, if u then 2 else 0, if g then 4 else 0;
    SmallPowers();
    ShiftedTruth(lt, 1, u, s, y);
    ShiftedTruth(sl, 2, g, s, z);
    OrOfBits(x, y);
    OrEmitted(eq, CBin(CShl, lt, CInt(1)), s, x, y);
    OrOfBits(x + y, z);
    OrEmitted(CBin(COr, eq, CBin(CShl, lt, CInt(1))), CBin(CShl, sl, CInt(2)), s, x + y, z);
  }

  lemma PackCmpSum(a: word, b: word)
    ensures PackCmp(a, b)
            == (if a == b then 1 else 0) + (if a < b then 2 else 0) + (if Signed(a) < Signed(b) then 4 else 0)
  {
  }

  /** An emitted cmp packs equality, unsigned less and signed less of its operands. */
  lemma CompareEmitted(l: CExpr, r: CExpr, s: CState, a: word, b: word)
    requires Word(l, s) == Some(a) && Word(r, s) == Some(b)
    ensures Word(PackedCompare(l, r), s) == Some(PackCmp(a, b))
  {
    var eq, lt, sl := CBin(CEq, CToUnsigned(l), CToUnsigned(r)),
                      CBin(CLt, CToUnsigned(l), CToUnsigned(r)), CBin(CLt, CToSigned(l), CToSigned(r));
    var e, u, g := a == b, a < b, Signed(a) < Signed(b);
    assert Word(Packed(eq, lt, sl), s) == Some(PackCmp(a, b)) by {
      ComparisonsEmitted(l, r, s, a, b);
      PackEmitted(eq, lt, sl, s, e, u, g);
      PackCmpSum(a, b);
    }
  }

  lemma CmpIsPacked(l: word, r: word)
    ensures PackCmp(l, r) in PACKED
  {
  }

  // Agreement of conditions.

  const UNSIGNED_CONDITIONS := {Equal, NotEqual, Below, BelowEqual, Above, AboveEqual}
  const SIGNED_CONDITIONS := {Less, LessEqual, Greater, GreaterEqual}

  /** SF != OF is signed less-than. */
  lemma SignedLess(l: word, r: word)
    ensures var f := SubFlags(l, r); f.sf != f.of <==> Signed(l) < Signed(r)
  {
  }

  /** What a cmp leaves in the flags and in the packed word, in terms of the comparisons. */
  lemma CmpFlagsMean(l: word, r: word)
    ensures var f := SubFlags(l, r); (f.zf <==> l == r) && (f.cf <==> l < r)
  {
    hide Ones;
    assert ToWord(l - r) == 0 <==> l == r;
  }

  lemma CmpBitsMean(l: word, r: word)
    ensures var w := PackCmp(l, r);
      (Bit(w, 1) <==> l == r) && (Bit(w, 2) <==> l < r) && (Bit(w, 4) <==> Signed(l) < Signed(r))
  {
    hide Bit;
    BitsOfPacked(PackCmp(l, r));
  }

  /** After a cmp the ten equality, unsigned and signed conditions are the architectural ones. */
  lemma CmpConditions(l: word, r: word, c: Condition)
    requires c in UNSIGNED_CONDITIONS + SIGNED_CONDITIONS
    ensures Taken(c, PackCmp(l, r)) <==> Holds(c, SubFlags(l, r))
  {
    hide Bit, PackCmp, SubFlags, Signed;
    CmpBitsMean(l, r);
    CmpFlagsMean(l, r);
    SignedLess(l, r);
  }

  /** After a test the equality and unsigned conditions are the architectural ones. */
  lemma TestConditions(l: word, r: word, c: Condition)
    requires c in UNSIGNED_CONDITIONS
    ensures Taken(c, PackTest(l, r)) <==> Holds(c, LogicFlags(BitWord(BAnd, l, r)))
  {
    BitsOfPacked(PackTest(l, r));
  }

  /** After a test a signed condition is right exactly when the sign bit of the result is clear. */
  lemma TestSignedConditions(l: word, r: word, c: Condition)
    requires c in SIGNED_CONDITIONS
    ensures (Taken(c, PackTest(l, r)) <==> Holds(c, LogicFlags(BitWord(BAnd, l, r))))
            <==> BitWord(BAnd, l, r) < 0x8000_0000_0000_0000
  {
    BitsOfPacked(PackTest(l, r));
  }

  // Which comparison the flags come from, as far as the code before an instruction tells.

  datatype Source = FromCmp | FromTest | Stale

  /** The conditions that may be read from each source. */
  function Readable(source: Source): set<Condition> {
    match source
    case FromCmp => UNSIGNED_CONDITIONS + SIGNED_CONDITIONS
    case FromTest => UNSIGNED_CONDITIONS
    case Stale => {}
  }

  /** The flags of the two machines answer every readable condition alike. */
  ghost predicate FlagsAgree(source: Source, f: XFlags, rflags: word) {
    forall c :: c in Readable(source) ==> (Taken(c, rflags) <==> Holds(c, f))
  }

  lemma OnesOfThree()
    ensures Ones(3) == 2
  {
    assert Ones(0) == 0 && Ones(1) == 1;
  }

  lemma ParityMisread()
    ensures SubFlags(3, 0).pf && PackCmp(3, 0) == 0
  {
    hide Ones;
    OnesOfThree();
  }

  lemma EqualOperands()
    ensures PackCmp(0, 0) == 1 && SubFlags(0, 0) == XFlags(true, false, false, false, true)
  {
    assert Ones(0) == 0;
  }

  lemma CmpMisread(c: Condition) returns (l: word, r: word)
    requires c !in Readable(FromCmp)
    ensures Taken(c, PackCmp(l, r)) <==> !Holds(c, SubFlags(l, r))
  {
    hide SubFlags, PackCmp;
    if c == Parity || c == NotParity {
      l, r := 3, 0;
      ParityMisread();
    } else {
      l, r := 0, 0;
      EqualOperands();
    }
  }

  lemma TestMisread(c: Condition) returns (w: word)
    requires c !in Readable(FromTest)
    ensures Taken(c, PackTest(w, w)) <==> !Holds(c, LogicFlags(BitWord(BAnd, w, w)))
  {
    if c in SIGNED_CONDITIONS {
      w := HALF;
      TestSignedConditions(w, w, c);
    } else if c == Parity || c == NotParity {
      w := 3;
      assert LogicFlags(3).pf;
    } else {
      w := 0;
      AndSelf(0);
      assert LogicFlags(0) == XFlags(true, false, false, false, true);
    }
    AndSelf(w);
  }

  /** Exactly the readable conditions are right for all operands of a cmp. */
  lemma CmpReadableExactly(c: Condition)
    ensures (forall l: word, r: word :: Taken(c, PackCmp(l, r)) <==> Holds(c, SubFlags(l, r)))
            <==> c in Readable(FromCmp)
  {
    if c in Readable(FromCmp) {
      forall l: word, r: word ensures Taken(c, PackCmp(l, r)) <==> Holds(c, SubFlags(l, r)) {
        CmpConditions(l, r, c);
      }
    } else {
      var l, r := CmpMisread(c);
    }
  }

  /** Exactly the readable conditions are right for all operands of a test. */
  lemma TestReadableExactly(c: Condition)
    ensures (forall l: word, r: word :: Taken(c, PackTest(l, r)) <==> Holds(c, LogicFlags(BitWord(BAnd, l, r))))
            <==> c in Readable(FromTest)
  {
    if c in Readable(FromTest) {
      forall l: word, r: word ensures Taken(c, PackTest(l, r)) <==> Holds(c, LogicFlags(BitWord(BAnd, l, r))) {
        TestConditions(l, r, c);
      }
    } else {
      var w := TestMisread(c);
    }
  }

  // The packed values on their own.

  function Opposite(c: Condition): Condition {
    match c
    case Equal => NotEqual case NotEqual => Equal
    case Less => GreaterEqual case GreaterEqual => Less
    case LessEqual => Greater case Greater => LessEqual
    case Below => AboveEqual case AboveEqual => Below
    case BelowEqual => Above case Above => BelowEqual
    case Sign => NotSign case NotSign => Sign
    case Overflow => NotOverflow case NotOverflow => Overflow
    case Parity => NotParity case NotParity => Parity
  }

  /** Exactly one of less, equal and greater holds, signed and unsigned alike. */
  ghost predicate Trichotomous(w: word) {
    && (Taken(Less, w) || Taken(Equal, w) || Taken(Greater, w))
    && !(Taken(Less, w) && Taken(Equal, w)) && !(Taken(Less, w) && Taken(Greater, w))
    && !(Taken(Equal, w) && Taken(Greater, w))
    && (Taken(Below, w) || Taken(Equal, w) || Taken(Above, w))
    && !(Taken(Below, w) && Taken(Equal, w)) && !(Taken(Below, w) && Taken(Above, w))
    && !(Taken(Equal, w) && Taken(Above, w))
  }

  /** Each condition is the negation of its opposite, and packed values are trichotomous. */
  lemma Trichotomy(c: Condition, w: word)
    ensures Taken(c, w) <==> !Taken(Opposite(c), w)
    ensures w in PACKED ==> Trichotomous(w)
  {
    if w in PACKED {
      BitsOfPacked(w);
    }
  }
}
