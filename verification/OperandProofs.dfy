/** Parsing what Capstone prints: registers, immediates and memory operands are read back exactly. */
module OperandProofs {
  import opened Wrappers
  import opened Words
  import opened Text
  import opened Ir
  import opened Operands
  import opened X86
  import opened Capstone

  // Characters.

  /** Lower-case letters and digits only: nothing that any parser treats specially. */
  predicate Plain(s: string) {
    s != "" && forall i :: 0 <= i < |s| ==> 'a' <= s[i] <= 'z' || '0' <= s[i] <= '9'
  }

  lemma PlainFacts(s: string)
    requires Plain(s)
    ensures Clean(s) && NoUpper(s) && Trim(s) == s && ToLower(s) == s
    ensures Lacks(s, '+') && Lacks(s, '*') && Lacks(s, '-') && Lacks(s, ' ') && Lacks(s, '[') && Lacks(s, ']')
  {
    TrimPadded(s);
    ToLowerFixed(s);
  }

  lemma RegNamePlain(r: Gpr)
    ensures Plain(RegName(r)) && 'a' <= RegName(r)[0] <= 'z'
  {
  }

  lemma LegacyRegisterRead(r: Gpr)
    requires r in {RAX, RBX, RCX, RDX, RSI, RDI, RSP, RBP}
    ensures RegisterNamed(RegName(r)) == Some(r)
  {
  }

  lemma ExtendedRegisterRead(r: Gpr)
    requires r in {R8, R9, R10, R11}
    ensures RegisterNamed(RegName(r)) == Some(r)
  {
  }

  lemma LastRegisterRead(r: Gpr)
    requires r in {R12, R13}
    ensures RegisterNamed(RegName(r)) == Some(r)
  {
  }

  lemma FinalRegisterRead(r: Gpr)
    requires r in {R14, R15}
    ensures RegisterNamed(RegName(r)) == Some(r)
  {
  }

  lemma RegNameParsed(r: Gpr)
    ensures ParseRegister(RegName(r)) == Some(r)
  {
    hide RegisterNamed, RegName;
    RegNamePlain(r);
    PlainFacts(RegName(r));
    if r in {RAX, RBX, RCX, RDX, RSI, RDI, RSP, RBP} {
      LegacyRegisterRead(r);
    } else if r in {R8, R9, R10, R11} {
      ExtendedRegisterRead(r);
    } else if r in {R12, R13} {
      LastRegisterRead(r);
    } else {
      FinalRegisterRead(r);
    }
  }

  /** Only a name that starts with a letter is a register. */
  lemma NotARegister(s: string)
    requires s == "" || !('a' <= s[0] <= 'z')
    ensures RegisterNamed(s) == None
  {
  }

  // Immediates.

  lemma NatTextPlain(n: nat)
    ensures Plain(NatText(n)) && '0' <= NatText(n)[0] <= '9'
  {
  }

  lemma DecimalDigit(n: nat)
    requires n <= 9
    ensures ParseI64(Hex(n), 10) == Some(n)
  {
    var s := Hex(n);
    assert s[..0] == "" && |s| == 1;
    assert DigitsValue(s, 10) == Some(n);
  }

  lemma HexParsed(n: nat)
    ensures n < 0x1_0000_0000_0000_0000 ==> ParseU64(Hex(n), 16) == Some(n)
    ensures ParseI64(Hex(n), 16) == if n < 0x8000_0000_0000_0000 then Some(n) else None
  {
    HexValue(n);
  }

  lemma DigitRead(n: nat)
    requires n <= 9
    ensures PositiveOf(NatText(n)) == Some(n) && NegativeOf(NatText(n)) == Some(-(n as int))
    ensures HexTargetOf(NatText(n)) == Some(n)
  {
    DecimalDigit(n);
    HexParsed(n);
  }

  /** The prefixed form of a hexadecimal numeral, whichever it is. */
  lemma PrefixedRead(h: string, t: string)
    requires t == "0x" + h
    ensures HexTargetOf(t) == ParseU64(h, 16)
    ensures PositiveOf(t) == if ParseU64(h, 16).Some? then Some(AsInt64(ParseU64(h, 16).value)) else None
    ensures NegativeOf(t) == if ParseI64(h, 16).Some? then Some(AsInt64(-(ParseI64(h, 16).value as int))) else None
  {
    assert t[2..] == h;
  }

  lemma NegatedPattern(n: nat)
    ensures n < 0x8000_0000_0000_0000 ==> AsInt64(-(n as int)) == -(n as int)
  {
  }

  lemma HexRead(n: nat, t: string)
    requires n > 9 && t == NatText(n)
    ensures n < 0x1_0000_0000_0000_0000 ==> HexTargetOf(t) == Some(n) && PositiveOf(t) == Some(AsInt64(n))
    ensures NegativeOf(t) == if n < 0x8000_0000_0000_0000 then Some(-(n as int)) else None
  {
    hide HexTargetOf, PositiveOf, NegativeOf, ParseU64, ParseI64, Hex, AsInt64;
    var h := Hex(n);
    PrefixedRead(h, t);
    HexParsed(n);
    NegatedPattern(n);
  }

  lemma NatTextTrimmed(n: nat)
    ensures Trim(NatText(n)) == NatText(n) && NatText(n) != "" && NatText(n)[0] != '-'
    ensures Trim("-" + NatText(n)) == "-" + NatText(n)
  {
    NatTextPlain(n);
    PlainFacts(NatText(n));
    TrimPadded("-" + NatText(n));
  }

  /** A number in the signed range is its own signed pattern. */
  lemma PatternKept(v: int64)
    ensures AsInt64(v) == v && AsInt64(ToWord(v)) == v
  {
  }

  lemma NatTextRead(n: nat, t: string)
    requires t == NatText(n)
    ensures n < 0x1_0000_0000_0000_0000 ==> HexTargetOf(t) == Some(n) && PositiveOf(t) == Some(AsInt64(n))
    ensures NegativeOf(t) == if n < 0x8000_0000_0000_0000 then Some(-(n as int)) else None
  {
    hide HexTargetOf, PositiveOf, NegativeOf, Hex, NatText, AsInt64;
    if n <= 9 {
      DigitRead(n);
      PatternKept(n);
    } else {
      HexRead(n, t);
    }
  }

  /** A printed natural number, as the bit pattern of an immediate and as an address. */
  lemma NatTextParsed(n: word, t: string)
    requires t == NatText(n)
    ensures ParseImmediate(t) == Some(AsInt64(n)) && ParseHexTarget(t) == Some(n)
  {
    hide HexTargetOf, PositiveOf, NegativeOf, NatText, Trim, AsInt64;
    NatTextTrimmed(n);
    NatTextRead(n, t);
  }

  lemma NegativeParsed(n: nat, t: string)
    requires n > 0 && t == NatText(n)
    ensures ParseImmediate("-" + t) == if n < 0x8000_0000_0000_0000 then Some(-(n as int)) else None
  {
    hide PositiveOf, NegativeOf, NatText, Trim;
    NatTextTrimmed(n);
    NatTextRead(n, t);
    assert ("-" + t)[1..] == t;
  }

  /** Printing a signed 64-bit number and parsing it gives it back, except for the least one. */
  lemma ImmediateRoundTrip(v: int64)
    ensures ParseImmediate(ImmText(v)) == Some(v) <==> v != -0x8000_0000_0000_0000
  {
    hide ParseImmediate, NatText;
    if v >= 0 {
      NatTextParsed(v, ImmText(v));
      PatternKept(v);
    } else {
      var n := -(v as int);
      NegativeParsed(n, NatText(n));
    }
  }

  lemma ImmTextParsed(v: int)
    requires XImm(v).Valid()
    ensures ParseImmediate(ImmText(v)) == Some(AsInt64(v))
  {
    hide ParseImmediate, NatText, AsInt64, ParseHexTarget;
    if v >= 0 {
      NatTextParsed(v, ImmText(v));
    } else {
      NegativeParsed(-v, NatText(-v));
      NegatedPattern(-v);
    }
  }

  /** A branch target reads the same in the CFG and in the lifter. */
  lemma TargetTextParsed(t: word)
    ensures ParseHexTarget(NatText(t)) == Some(t)
    ensures ParseImmediate(NatText(t)) == Some(AsInt64(t)) && ToWord(AsInt64(t)) == t
  {
    hide ParseImmediate, ParseHexTarget, NatText;
    NatTextParsed(t, NatText(t));
  }

  // Memory operands.

  /** The operand that the text of m denotes: a lone unscaled index is read as the base. */
  function MemOperandOf(m: XMem, versions: Versions): Operand
    requires m.Valid()
  {
    var indexIsBase := m.base.None? && m.index.Some? && m.scale == 1;
    var base := if indexIsBase then m.index else m.base;
    var index := if indexIsBase then None else m.index;
    Mem(if base.Some? then Some(CurrentVar(versions, base.value)) else None,
        if index.Some? then Some(CurrentVar(versions, index.value)) else None,
        m.scale, m.disp)
  }

  function DispTerms(m: XMem): seq<string> {
    if RegTerms(m) == [] then [NatText(ToWord(m.disp))]
    else if m.disp == 0 then []
    else [ImmText(m.disp)]
  }

  function Terms(m: XMem): seq<string> {
    RegTerms(m) + DispTerms(m)
  }

  /** The text is one clean term: nothing to split, no sign, no bracket. */
  predicate IsTerm(s: string) {
    Clean(s) && Lacks(s, '+') && Lacks(s, '[') && Lacks(s, ']')
  }

  lemma NatTextIsTerm(n: nat)
    ensures IsTerm(NatText(n)) && Lacks(NatText(n), '-') && Lacks(NatText(n), ' ') && IsTerm("-" + NatText(n))
  {
    NatTextPlain(n);
    PlainFacts(NatText(n));
  }

  lemma RegNameIsTerm(r: Gpr)
    ensures IsTerm(RegName(r)) && Lacks(RegName(r), '-')
  {
    RegNamePlain(r);
    PlainFacts(RegName(r));
  }

  lemma IndexTextIsTerm(m: XMem)
    requires m.index.Some?
    ensures IsTerm(IndexText(m)) && Lacks(IndexText(m), '-')
  {
    RegNameIsTerm(m.index.value);
    NatTextIsTerm(m.scale);
  }

  predicate AllTerms(ps: seq<string>) {
    forall i :: 0 <= i < |ps| ==> IsTerm(ps[i])
  }

  lemma RegTermsShape(m: XMem)
    ensures AllTerms(RegTerms(m))
    ensures forall i :: 0 <= i < |RegTerms(m)| ==> Lacks(RegTerms(m)[i], '-')
  {
    if m.base.Some? {
      RegNameIsTerm(m.base.value);
    }
    if m.index.Some? {
      IndexTextIsTerm(m);
    }
  }

  lemma TermsShape(m: XMem)
    ensures AllTerms(Terms(m)) && Terms(m) != []
  {
    RegTermsShape(m);
    NatTextIsTerm(ToWord(m.disp));
    NatTextIsTerm(if m.disp < 0 then -m.disp else m.disp);
  }

  lemma FirstPass(a: string, mag: string)
    requires Lacks(a, '-') && Lacks(mag, ' ')
    ensures Replace(a + (" - " + mag), " - ", " + -") == a + (" + -" + mag)
  {
    var tail := " - " + mag;
    ReplaceSkipSecond(a, tail, " - ", " + -");
    assert tail[3..] == mag;
    ReplaceAbsent(mag, " - ", " + -");
  }

  lemma SecondPass(a: string, mag: string)
    requires Lacks(a, '-') && Lacks(mag, '-') && Lacks(mag, ' ')
    ensures Replace(a + ("-" + mag), "- ", "+ -") == a + ("-" + mag)
  {
    var rest := "-" + mag;
    ReplaceSkip(a, rest, "- ", "+ -");
    assert rest[1..] == mag && rest[0] == '-';
    assert mag != "" ==> rest[1] == mag[0] != ' ' && !("- " <= rest);
    ReplaceAbsent(mag, "- ", "+ -");
  }

  lemma MinusNormalised(a: string, mag: string)
    requires Lacks(a, '-') && Lacks(mag, '-') && Lacks(mag, ' ')
    ensures NormaliseSigns(a + " - " + mag) == a + " + " + ("-" + mag)
  {
    assert a + " - " + mag == a + (" - " + mag);
    FirstPass(a, mag);
    assert a + (" + -" + mag) == (a + " + ") + ("-" + mag);
    SecondPass(a + " + ", mag);
  }

  lemma PlusNormalised(s: string)
    requires Lacks(s, '-')
    ensures NormaliseSigns(s) == s
  {
    ReplaceSkipSecond(s, "", " - ", " + -");
    assert s + "" == s;
    ReplaceAbsent(s, "- ", "+ -");
  }

  /** Normalising the signs turns the printed text into its terms joined by " + ". */
  lemma InnerNormalised(m: XMem)
    ensures NormaliseSigns(MemInner(m)) == Join(Terms(m), " + ")
  {
    hide NormaliseSigns, NatText, RegTerms, Lacks, IsTerm, ToWord;
    var regs, k := RegTerms(m), if m.disp < 0 then -m.disp else m.disp;
    RegTermsShape(m);
    JoinLacks(regs, " + ", '-');
    NatTextIsTerm(k);
    if regs == [] {
      NatTextIsTerm(ToWord(m.disp));
      PlusNormalised(MemInner(m));
      assert Terms(m) == [NatText(ToWord(m.disp))];
    } else if m.disp == 0 {
      PlusNormalised(MemInner(m));
      assert Terms(m) == regs;
    } else if m.disp > 0 {
      PlusNormalised(MemInner(m));
      JoinSnoc(regs, NatText(k), " + ");
    } else {
      MinusNormalised(Join(regs, " + "), NatText(k));
      JoinSnoc(regs, "-" + NatText(k), " + ");
    }
  }

  lemma {:induction false} JoinClean(ps: seq<string>, sep: string)
    requires ps != [] && forall i :: 0 <= i < |ps| ==> Clean(ps[i])
    ensures Clean(Join(ps, sep))
  {
    if |ps| > 1 {
      JoinClean(ps[1..], sep);
      var s, t := Join(ps, sep), Join(ps[1..], sep);
      assert s[0] == ps[0][0] && s[|s| - 1] == t[|t| - 1];
    }
  }

  predicate IsInner(s: string) {
    Clean(s) && Lacks(s, '[') && Lacks(s, ']')
  }

  lemma InnerAppend(a: string, sep: string, b: string)
    requires IsInner(a) && IsInner(b) && (sep == " + " || sep == " - ")
    ensures IsInner(a + sep + b)
  {
    var s := a + sep + b;
    assert s[0] == a[0] && s[|s| - 1] == b[|b| - 1];
  }

  /** The inner text has no bracket and no white space at its ends. */
  lemma InnerShape(m: XMem)
    ensures IsInner(MemInner(m))
  {
    hide NatText, RegTerms, Lacks, Clean, Join, ToWord;
    var regs, k := RegTerms(m), if m.disp < 0 then -m.disp else m.disp;
    RegTermsShape(m);
    NatTextIsTerm(k);
    NatTextIsTerm(ToWord(m.disp));
    if regs != [] {
      JoinClean(regs, " + ");
      JoinLacks(regs, " + ", '[');
      JoinLacks(regs, " + ", ']');
      InnerAppend(Join(regs, " + "), if m.disp > 0 then " + " else " - ", NatText(k));
    }
  }

  // The brackets and the size prefix.

  lemma {:induction false} LastIndexAtEnd(s: string, c: char)
    ensures LastIndexOf(s + [c], c) == Some(|s|)
  {
  }

  lemma BracketsRemoved(inner: string)
    requires Clean(inner)
    ensures BracketContents("[" + inner + "]") == inner
  {
    var s := "[" + inner + "]";
    LastIndexAtEnd("[" + inner, ']');
    assert s == ("[" + inner) + [']'];
    assert s[1..|s| - 1] == inner;
    TrimPadded(inner);
  }

  /** A 64-bit memory operand loses its size prefix. */
  lemma SizePrefixStripped(t: string)
    ensures StripSizePrefix("qword ptr " + t) == t
  {
    var s := "qword ptr " + t;
    var lower := ToLower(s);
    assert lower[0] == 'q' && lower[..10] == "qword ptr ";
    assert s[10..] == t;
  }

  /** Bracketed text has no size prefix. */
  lemma NoSizePrefix(t: string)
    ensures StripSizePrefix("[" + t) == "[" + t
  {
    assert ToLower("[" + t)[0] == '[';
  }

  predicate IsMemText(s: string, m: XMem) {
    s == MemText(m) || s == "qword ptr " + MemText(m)
  }

  /** Both printed forms of a memory operand yield its terms. */
  lemma MemoryTermsRead(m: XMem, s: string)
    requires IsMemText(s, m)
    ensures MemoryTerms(s) == Terms(m)
  {
    InnerShape(m);
    TrimPadded(s);
    NoSizePrefix(MemInner(m) + "]");
    assert "[" + (MemInner(m) + "]") == MemText(m);
    SizePrefixStripped(MemText(m));
    BracketsRemoved(MemInner(m));
    InnerNormalised(m);
    TermsShape(m);
    SplitJoined(Terms(m));
  }

  // Reading the terms.

  lemma BaseTermAdded(r: Gpr, versions: Versions, parts: MemParts)
    requires parts.base.None? || parts.index.None?
    ensures AddTerm(RegName(r), versions, parts)
            == if parts.base.None? then parts.(base := Some(CurrentVar(versions, r)))
               else parts.(index := Some(CurrentVar(versions, r)))
  {
    RegNamePlain(r);
    PlainFacts(RegName(r));
    RegNameParsed(r);
  }

  lemma FactorsAdded(term: string, name: string, factor: string, r: Gpr, scale: byte, versions: Versions, parts: MemParts)
    requires HasChar(term, '*') && SplitOn(term, '*') == [name, factor] && Trim(name) == name && Trim(factor) == factor
    requires ParseRegister(name) == Some(r) && ParseImmediate(factor) == Some(scale)
    ensures AddTerm(term, versions, parts) == parts.(index := Some(CurrentVar(versions, r)), scale := scale)
  {
    hide HasChar, SplitOn, Trim, ParseRegister, ParseImmediate;
  }

  lemma ScaledTermAdded(r: Gpr, scale: nat, versions: Versions, parts: MemParts)
    requires scale in {2, 4, 8}
    ensures AddTerm(RegName(r) + "*" + NatText(scale), versions, parts)
            == parts.(index := Some(CurrentVar(versions, r)), scale := scale)
  {
    hide RegName, NatText, AddTerm, ParseRegister, ParseImmediate, Trim, SplitOn, AsInt64, ParseHexTarget;
    var name, factor := RegName(r), NatText(scale);
    var term := name + "*" + factor;
    RegNamePlain(r);
    PlainFacts(name);
    NatTextPlain(scale);
    PlainFacts(factor);
    assert term == name + ['*'] + factor && term[|name|] == '*';
    SplitOnFirst(name, '*', factor);
    SplitOnLacking(factor, '*');
    RegNameParsed(r);
    NatTextParsed(scale, factor);
    PatternKept(scale);
    FactorsAdded(term, name, factor, r, scale, versions, parts);
  }

  /** A term that reads as the number v and as no register. */
  predicate IsNumber(term: string, v: int64) {
    && IsTerm(term) && Lacks(term, '*') && ParseImmediate(term) == Some(v)
    && ParseRegister(TrimStartChar(term, '-')) == None
  }

  lemma NumberTermAdded(term: string, v: int64, versions: Versions, parts: MemParts)
    requires IsNumber(term, v) && parts.disp == 0
    ensures AddTerm(term, versions, parts) == parts.(disp := v)
  {
  }

  lemma NumberIsNoRegister(n: nat)
    ensures Lacks(NatText(n), '*') && Lacks("-" + NatText(n), '*')
    ensures ParseRegister(TrimStartChar(NatText(n), '-')) == None
    ensures ParseRegister(TrimStartChar("-" + NatText(n), '-')) == None
  {
    hide NatText, RegisterNamed;
    var t := NatText(n);
    NatTextPlain(n);
    PlainFacts(t);
    NotARegister(t);
    assert TrimStartChar(t, '-') == t;
    assert ("-" + t)[1..] == t;
  }

  lemma DispIsNumber(v: int)
    requires -0x8000_0000 <= v < 0x8000_0000
    ensures IsNumber(ImmText(v), v)
  {
    hide ParseImmediate, ParseRegister, NatText, TrimStartChar, IsTerm, Lacks, AsInt64;
    var n := if v < 0 then -v else v;
    NatTextIsTerm(n);
    NumberIsNoRegister(n);
    ImmTextParsed(v);
    PatternKept(v);
  }

  /** An absolute address is printed as a bit pattern and read back as the displacement. */
  lemma AbsoluteIsNumber(v: int)
    requires -0x8000_0000 <= v < 0x8000_0000
    ensures IsNumber(NatText(ToWord(v)), v)
  {
    hide ParseImmediate, ParseRegister, NatText, TrimStartChar, IsTerm, Lacks, AsInt64, ParseHexTarget;
    var n := ToWord(v);
    NatTextIsTerm(n);
    NumberIsNoRegister(n);
    NatTextParsed(n, NatText(n));
    PatternKept(v);
  }

  /** What the register terms contribute. */
  function RegParts(m: XMem, versions: Versions): MemParts
    requires m.Valid()
  {
    var op := MemOperandOf(m, versions);
    MemParts(op.base, op.index, op.scale, 0)
  }

  lemma AddOneTerm(t: string, versions: Versions, parts: MemParts)
    ensures AddTerms([t], versions, parts) == AddTerm(t, versions, parts)
  {
  }

  lemma BaseAdded(m: XMem, versions: Versions)
    requires m.Valid() && m.base.Some?
    ensures AddTerms([RegName(m.base.value)], versions, NO_PARTS)
            == NO_PARTS.(base := Some(CurrentVar(versions, m.base.value)))
  {
    AddOneTerm(RegName(m.base.value), versions, NO_PARTS);
    BaseTermAdded(m.base.value, versions, NO_PARTS);
  }

  lemma IndexAdded(m: XMem, versions: Versions, parts: MemParts)
    requires m.Valid() && m.index.Some? && parts.index.None? && parts.scale == 1
    requires parts.base.Some? <==> m.base.Some?
    ensures AddTerms([IndexText(m)], versions, parts)
            == (var v := Some(CurrentVar(versions, m.index.value));
                if m.scale == 1 && parts.base.None? then parts.(base := v) else parts.(index := v, scale := m.scale))
  {
    AddOneTerm(IndexText(m), versions, parts);
    if m.scale == 1 {
      BaseTermAdded(m.index.value, versions, parts);
    } else {
      ScaledTermAdded(m.index.value, m.scale, versions, parts);
    }
  }

  lemma RegTermsAdded(m: XMem, versions: Versions)
    requires m.Valid()
    ensures AddTerms(RegTerms(m), versions, NO_PARTS) == RegParts(m, versions)
  {
    var first := if m.base.Some? then [RegName(m.base.value)] else [];
    var second := if m.index.Some? then [IndexText(m)] else [];
    AddTermsAppend(first, second, versions, NO_PARTS);
    if m.base.Some? {
      BaseAdded(m, versions);
    }
    if m.index.Some? {
      IndexAdded(m, versions, AddTerms(first, versions, NO_PARTS));
    }
  }

  lemma {:induction false} AddTermsAppend(a: seq<string>, b: seq<string>, versions: Versions, parts: MemParts)
    ensures AddTerms(a + b, versions, parts) == AddTerms(b, versions, AddTerms(a, versions, parts))
  {
    if a == [] {
      assert a + b == b;
    } else {
      assert (a + b)[0] == a[0] && (a + b)[1..] == a[1..] + b;
      AddTermsAppend(a[1..], b, versions, AddTerm(a[0], versions, parts));
    }
  }

  /** `parse_memory_operand` reads back exactly the operand that was printed. */
  lemma MemoryOperandRead(m: XMem, s: string, versions: Versions)
    requires m.Valid() && IsMemText(s, m)
    ensures ParseMemoryOperandSpec(s, versions) == MemOperandOf(m, versions)
  {
    MemoryTermsRead(m, s);
    RegTermsAdded(m, versions);
    AddTermsAppend(RegTerms(m), DispTerms(m), versions, NO_PARTS);
    var parts := RegParts(m, versions);
    if RegTerms(m) == [] {
      AbsoluteIsNumber(m.disp);
      AddOneTerm(NatText(ToWord(m.disp)), versions, parts);
      NumberTermAdded(NatText(ToWord(m.disp)), m.disp, versions, parts);
    } else if m.disp != 0 {
      DispIsNumber(m.disp);
      AddOneTerm(ImmText(m.disp), versions, parts);
      NumberTermAdded(ImmText(m.disp), m.disp, versions, parts);
    }
  }

  // Single operands.

  function OperandOf(op: XOp, versions: Versions): Operand
    requires op.Valid()
  {
    match op
    case XReg(r) => Var(CurrentVar(versions, r))
    case XImm(v) => Imm(AsInt64(v))
    case XMemory(m) => MemOperandOf(m, versions)
  }

  lemma MemTextShape(m: XMem)
    ensures var s := "qword ptr " + MemText(m); Clean(s) && Trim(s) == s && IsMemoryOperand(s)
    ensures var s := MemText(m); Clean(s) && Trim(s) == s && IsMemoryOperand(s)
  {
    var s, t := "qword ptr " + MemText(m), MemText(m);
    assert s[10] == '[' && t[0] == '[';
    TrimPadded(s);
    TrimPadded(t);
  }

  lemma ImmTextShape(v: int)
    ensures IsTerm(ImmText(v)) && Trim(ImmText(v)) == ImmText(v)
    ensures ParseRegister(ImmText(v)) == None
  {
    var n := if v < 0 then -v else v;
    NatTextIsTerm(n);
    TrimPadded(ImmText(v));
    var t := ToLower(ImmText(v));
    NatTextPlain(n);
    assert v >= 0 ==> '0' <= ImmText(v)[0] <= '9';
    assert v < 0 ==> ImmText(v)[0] == '-';
    assert t[0] == ImmText(v)[0];
    NotARegister(t);
  }

  /** `parse_single_operand` reads back every printed operand. */
  lemma OperandRead(op: XOp, versions: Versions)
    requires op.Valid()
    ensures ParseSingleOperand(OpText(op), versions) == OperandOf(op, versions)
  {
    match op
    case XReg(r) =>
      RegNamePlain(r);
      PlainFacts(RegName(r));
      RegNameParsed(r);
    case XImm(v) =>
      ImmTextShape(v);
      ImmTextParsed(v);
    case XMemory(m) =>
      MemTextShape(m);
      MemoryOperandRead(m, OpText(op), versions);
  }

  /** The register that a destination is taken to be: a memory destination falls back on rax. */
  function DestinationOf(op: XOp): VarBase
    requires !op.XImm?
  {
    match op
    case XReg(r) => r
    case XMemory(_) => RAX
  }

  lemma ShortHasNoPrefix(s: string)
    requires |s| < 9
    ensures StripSizePrefix(s) == s
  {
    assert |ToLower(s)| < 9;
  }

  lemma DestinationRead(op: XOp)
    requires !op.XImm?
    ensures IsMemoryOperand(OpText(op)) <==> op.XMemory?
    ensures DstRegister(OpText(op)).GetOr(RAX) == DestinationOf(op)
  {
    match op
    case XReg(r) =>
      RegNamePlain(r);
      PlainFacts(RegName(r));
      ShortHasNoPrefix(RegName(r));
      RegNameParsed(r);
    case XMemory(m) =>
      MemTextShape(m);
      SizePrefixStripped(MemText(m));
      NotARegister(ToLower(MemText(m)));
  }
}
