/** The other spellings of registers, memory operands and conditions: each is read as its 64-bit or canonical
    form. */
module Spellings {
  import opened Wrappers
  import opened Words
  import opened Text
  import opened Ir
  import opened Operands
  import opened Lifter
  import opened X86
  import opened Capstone
  import opened OperandProofs
  import opened Flags

  // Registers.

  /** The names of a register's parts. The first eight registers have a 16-bit name, widened by e and r, and
      one or two byte names made from it; the others have a suffix for each width. */
  function SpellingsOf(r: Gpr): seq<string> {
    var name := RegName(r);
    if r in {RAX, RBX, RCX, RDX} then
      ["r" + name[1..], "e" + name[1..], name[1..], name[1..2] + "l", name[1..2] + "h"]
    else if r in {RSI, RDI, RSP, RBP} then
      ["r" + name[1..], "e" + name[1..], name[1..], name[1..] + "l"]
    else [name, name + "d", name + "w", name + "b"]
  }

  predicate Spells(s: string, r: Gpr) {
    s in SpellingsOf(r)
  }

  /** The spellings, written out. */
  function Table(r: Gpr): seq<string> {
    match r
    case RAX => ["rax", "eax", "ax", "al", "ah"]
    case RBX => ["rbx", "ebx", "bx", "bl", "bh"]
    case RCX => ["rcx", "ecx", "cx", "cl", "ch"]
    case RDX => ["rdx", "edx", "dx", "dl", "dh"]
    case RSI => ["rsi", "esi", "si", "sil"]
    case RDI => ["rdi", "edi", "di", "dil"]
    case RSP => ["rsp", "esp", "sp", "spl"]
    case RBP => ["rbp", "ebp", "bp", "bpl"]
    case R8 => ["r8", "r8d", "r8w", "r8b"]
    case R9 => ["r9", "r9d", "r9w", "r9b"]
    case R10 => ["r10", "r10d", "r10w", "r10b"]
    case R11 => ["r11", "r11d", "r11w", "r11b"]
    case R12 => ["r12", "r12d", "r12w", "r12b"]
    case R13 => ["r13", "r13d", "r13w", "r13b"]
    case R14 => ["r14", "r14d", "r14w", "r14b"]
    case R15 => ["r15", "r15d", "r15w", "r15b"]
  }

  lemma LegacyTable(r: Gpr)
    requires r in {RAX, RBX, RCX, RDX}
    ensures SpellingsOf(r) == Table(r)
  {
    var name, n := RegName(r), RegName(r)[1..];
    assert n == Table(r)[2] && name[1..2] == [n[0]];
    assert "r" + n == Table(r)[0] && "e" + n == Table(r)[1];
    assert name[1..2] + "l" == Table(r)[3] && name[1..2] + "h" == Table(r)[4];
  }

  lemma PointerTable(r: Gpr)
    requires r in {RSI, RDI, RSP, RBP}
    ensures SpellingsOf(r) == Table(r)
  {
    var n := RegName(r)[1..];
    assert n == Table(r)[2] && "r" + n == Table(r)[0] && "e" + n == Table(r)[1] && n + "l" == Table(r)[3];
  }

  lemma NumberedTable(r: Gpr)
    requires r in {R8, R9, R10, R11, R12, R13, R14, R15}
    ensures SpellingsOf(r) == Table(r)
  {
    var n := RegName(r);
    assert n == Table(r)[0] && n + "d" == Table(r)[1] && n + "w" == Table(r)[2] && n + "b" == Table(r)[3];
  }

  lemma TableIsRight(r: Gpr)
    ensures SpellingsOf(r) == Table(r)
  {
    hide SpellingsOf, Table;
    if r in {RAX, RBX, RCX, RDX} {
      LegacyTable(r);
    } else if r in {RSI, RDI, RSP, RBP} {
      PointerTable(r);
    } else {
      NumberedTable(r);
    }
  }

  lemma FirstNamed(s: string, r: Gpr)
    requires r in {RAX, RBX, RCX, RDX} && s in Table(r)
    ensures RegisterNamed(s) == Some(r)
  {
  }

  lemma IndexNamed(s: string, r: Gpr)
    requires r in {RSI, RDI} && s in Table(r)
    ensures RegisterNamed(s) == Some(r)
  {
  }

  lemma PointerNamed(s: string, r: Gpr)
    requires r in {RSP, RBP} && s in Table(r)
    ensures RegisterNamed(s) == Some(r)
  {
  }

  lemma EighthNamed(s: string, r: Gpr)
    requires r in {R8, R9} && s in Table(r)
    ensures RegisterNamed(s) == Some(r)
  {
  }

  lemma TenthNamed(s: string)
    requires s in Table(R10)
    ensures RegisterNamed(s) == Some(R10)
  {
  }

  lemma EleventhNamed(s: string)
    requires s in Table(R11)
    ensures RegisterNamed(s) == Some(R11)
  {
  }

  lemma TwelfthNamed(s: string)
    requires s in Table(R12)
    ensures RegisterNamed(s) == Some(R12)
  {
  }

  lemma ThirteenthNamed(s: string)
    requires s in Table(R13)
    ensures RegisterNamed(s) == Some(R13)
  {
  }

  lemma FourteenthNamed(s: string)
    requires s in Table(R14)
    ensures RegisterNamed(s) == Some(R14)
  {
  }

  lemma FifteenthNamed(s: string)
    requires s in Table(R15)
    ensures RegisterNamed(s) == Some(R15)
  {
  }

  lemma NamedIsSpelled(s: string, r: Gpr)
    requires RegisterNamed(s) == Some(r)
    ensures s in Table(r)
  {
  }

  /** A lower-case text names a register exactly when it is one of that register's spellings. */
  lemma SpellingsExactly(s: string, r: Gpr)
    ensures RegisterNamed(s) == Some(r) <==> Spells(s, r)
  {
    hide RegisterNamed, Table, SpellingsOf;
    TableIsRight(r);
    if RegisterNamed(s) == Some(r) {
      NamedIsSpelled(s, r);
    }
    if s in Table(r) {
      if r in {RAX, RBX, RCX, RDX} {
        FirstNamed(s, r);
      } else if r in {RSI, RDI} {
        IndexNamed(s, r);
      } else if r in {RSP, RBP} {
        PointerNamed(s, r);
      } else if r in {R8, R9} {
        EighthNamed(s, r);
      } else if r == R10 {
        TenthNamed(s);
      } else if r == R11 {
        EleventhNamed(s);
      } else if r == R12 {
        TwelfthNamed(s);
      } else if r == R13 {
        ThirteenthNamed(s);
      } else if r == R14 {
        FourteenthNamed(s);
      } else {
        FifteenthNamed(s);
      }
    }
  }

  lemma LegacyPlain(s: string, r: Gpr)
    requires r in {RAX, RBX, RCX, RDX, RSI, RDI, RSP, RBP} && s in Table(r)
    ensures Plain(s) && |s| < 9
  {
  }

  lemma NumberedPlain(s: string, r: Gpr)
    requires r in {R8, R9, R10, R11, R12, R13, R14, R15} && s in Table(r)
    ensures Plain(s) && |s| < 9
  {
  }

  lemma TablePlain(s: string, r: Gpr)
    requires s in Table(r)
    ensures Plain(s) && |s| < 9
  {
    hide Table, Plain;
    if r in {RAX, RBX, RCX, RDX, RSI, RDI, RSP, RBP} {
      LegacyPlain(s, r);
    } else {
      NumberedPlain(s, r);
    }
  }

  /** Every spelling of a register lifts an operand to the variable of its 64-bit name, and is that register
      as a destination. */
  lemma SpellingRead(s: string, r: Gpr, versions: Versions)
    requires Spells(s, r)
    ensures ParseSingleOperand(s, versions) == Var(CurrentVar(versions, r))
    ensures !IsMemoryOperand(s) && DstBase(s) == r && ParseRegister(s) == Some(r)
  {
    hide RegisterNamed, Table, SpellingsOf, StripSizePrefix, Trim, ToLower;
    TableIsRight(r);
    TablePlain(s, r);
    PlainFacts(s);
    SpellingsExactly(s, r);
    ShortHasNoPrefix(s);
  }

  // Sizes.

  const SIZES: seq<string> := [
    "xmmword ptr ", "ymmword ptr ", "zmmword ptr ", "tbyte ptr ", "tword ptr ", "oword ptr ", "qword ptr ",
    "dword ptr ", "word ptr ", "byte ptr "
  ]

  lemma LowerPrefix(size: string, t: string)
    requires NoUpper(size)
    ensures size <= ToLower(size + t)
  {
    var s := size + t;
    assert forall i :: 0 <= i < |size| ==> s[i] == size[i];
    assert ToLower(s)[..|size|] == size;
  }

  /** The first character and the length tell the size words apart. */
  lemma SizeStripped(size: string, t: string)
    requires size in SIZES
    ensures StripSizePrefix(size + t) == t
  {
    assert NoUpper(size);
    LowerPrefix(size, t);
    var s := size + t;
    var lower := ToLower(s);
    assert s[|size|..] == t;
    assert lower[0] == size[0] && lower[1] == size[1];
    hide ToLower;
  }

  /** A memory operand of any size is read as the same operand. */
  lemma MemorySized(m: XMem, size: string, versions: Versions)
    requires m.Valid() && size in SIZES
    ensures ParseMemoryOperandSpec(size + MemText(m), versions) == MemOperandOf(m, versions)
    ensures ParseSingleOperand(size + MemText(m), versions) == MemOperandOf(m, versions)
    ensures IsMemoryOperand(size + MemText(m))
  {
    hide StripSizePrefix, NormaliseSigns, TrimmedPieces, SplitOn, AddTerms, Trim, MemOperandOf, MemInner, ParseRegister;
    SizedShape(m, size);
    SizeStripped(size, MemText(m));
    NoSizePrefix(MemInner(m) + "]");
    assert "[" + (MemInner(m) + "]") == MemText(m);
    MemTextShape(m);
    MemoryOperandRead(m, MemText(m), versions);
  }

  lemma SizedShape(m: XMem, size: string)
    requires size in SIZES
    ensures Trim(size + MemText(m)) == size + MemText(m) && HasChar(size + MemText(m), '[')
  {
    hide MemInner, Trim;
    var s := size + MemText(m);
    assert size[0] != ' ' && !IsSpace(size[0]);
    assert s[|size|] == '[' && s[|s| - 1] == ']';
    TrimPadded(s);
  }

  // Scaled terms.

  lemma FactorsSwapped(term: string, factor: string, name: string, r: Gpr, scale: byte, versions: Versions, parts: MemParts)
    requires HasChar(term, '*') && SplitOn(term, '*') == [factor, name] && Trim(name) == name && Trim(factor) == factor
    requires ParseRegister(name) == Some(r) && ParseRegister(factor) == None && ParseImmediate(factor) == Some(scale)
    ensures AddTerm(term, versions, parts) == parts.(index := Some(CurrentVar(versions, r)), scale := scale)
  {
    hide HasChar, SplitOn, Trim, ParseRegister, ParseImmediate;
  }

  /** The scale may come before the register. */
  lemma ScaleFirst(r: Gpr, scale: nat, versions: Versions, parts: MemParts)
    requires scale in {2, 4, 8}
    ensures AddTerm(NatText(scale) + "*" + RegName(r), versions, parts)
            == AddTerm(RegName(r) + "*" + NatText(scale), versions, parts)
  {
    hide RegName, NatText, AddTerm, ParseRegister, ParseImmediate, Trim, SplitOn, AsInt64, ParseHexTarget, TrimStartChar;
    var name, factor := RegName(r), NatText(scale);
    var term := factor + "*" + name;
    RegNamePlain(r);
    PlainFacts(name);
    NatTextPlain(scale);
    PlainFacts(factor);
    assert term == factor + ['*'] + name && term[|factor|] == '*';
    SplitOnFirst(factor, '*', name);
    SplitOnLacking(name, '*');
    RegNameParsed(r);
    NatTextParsed(scale, factor);
    PatternKept(scale);
    DigitIsNoRegister(factor);
    FactorsSwapped(term, factor, name, r, scale, versions, parts);
    ScaledTermAdded(r, scale, versions, parts);
  }

  lemma DigitIsNoRegister(s: string)
    requires Plain(s) && '0' <= s[0] <= '9'
    ensures ParseRegister(s) == None
  {
    hide RegisterNamed;
    PlainFacts(s);
    NotARegister(s);
  }

  // Conditions.

  const POSITIVE_SUFFIXES: seq<string> := ["e", "z", "l", "le", "g", "ge", "b", "c", "be", "a", "ae", "s", "o", "p"]

  lemma EarlySuffixes()
    ensures ConditionNamed("e") == ConditionNamed("z") == Equal && ConditionNamed("ne") == ConditionNamed("nz") == NotEqual
    ensures ConditionNamed("l") == Less && ConditionNamed("nl") == GreaterEqual
    ensures ConditionNamed("le") == LessEqual && ConditionNamed("nle") == Greater
    ensures ConditionNamed("g") == Greater && ConditionNamed("ng") == LessEqual
    ensures ConditionNamed("ge") == GreaterEqual && ConditionNamed("nge") == Less
  {
  }

  lemma BelowSuffixes()
    ensures ConditionNamed("b") == ConditionNamed("c") == Below && ConditionNamed("nb") == ConditionNamed("nc") == AboveEqual
  {
  }

  lemma BelowEqualSuffixes()
    ensures ConditionNamed("be") == BelowEqual && ConditionNamed("nbe") == Above
  {
  }

  lemma AboveSuffixes()
    ensures ConditionNamed("a") == Above && ConditionNamed("na") == BelowEqual
    ensures ConditionNamed("ae") == AboveEqual && ConditionNamed("nae") == Below
  {
  }

  lemma SignSuffixes()
    ensures ConditionNamed("s") == Sign && ConditionNamed("ns") == NotSign
  {
  }

  lemma OverflowSuffixes()
    ensures ConditionNamed("o") == Overflow && ConditionNamed("no") == NotOverflow
  {
  }

  lemma ParitySuffixes()
    ensures ConditionNamed("p") == ConditionNamed("pe") == Parity
  {
  }

  lemma NoParitySuffixes()
    ensures ConditionNamed("np") == ConditionNamed("po") == NotParity
  {
  }

  lemma Suffixes()
    ensures ConditionNamed("e") == ConditionNamed("z") == Equal && ConditionNamed("ne") == ConditionNamed("nz") == NotEqual
    ensures ConditionNamed("l") == Less && ConditionNamed("nl") == GreaterEqual && ConditionNamed("le") == LessEqual && ConditionNamed("nle") == Greater
    ensures ConditionNamed("g") == Greater && ConditionNamed("ng") == LessEqual && ConditionNamed("ge") == GreaterEqual && ConditionNamed("nge") == Less
    ensures ConditionNamed("b") == ConditionNamed("c") == Below && ConditionNamed("nb") == ConditionNamed("nc") == AboveEqual && ConditionNamed("be") == BelowEqual && ConditionNamed("nbe") == Above
    ensures ConditionNamed("a") == Above && ConditionNamed("na") == BelowEqual && ConditionNamed("ae") == AboveEqual && ConditionNamed("nae") == Below
    ensures ConditionNamed("s") == Sign && ConditionNamed("ns") == NotSign && ConditionNamed("o") == Overflow && ConditionNamed("no") == NotOverflow
    ensures ConditionNamed("p") == ConditionNamed("pe") == Parity && ConditionNamed("np") == ConditionNamed("po") == NotParity
  {
    hide ConditionNamed;
    EarlySuffixes();
    BelowSuffixes();
    BelowEqualSuffixes();
    AboveSuffixes();
    SignSuffixes();
    OverflowSuffixes();
    ParitySuffixes();
    NoParitySuffixes();
  }

  /** Before a suffix, n negates the condition. */
  lemma NegatedSuffix(t: string)
    requires t in POSITIVE_SUFFIXES
    ensures ConditionNamed("n" + t) == Opposite(ConditionNamed(t))
  {
    hide ConditionNamed;
    Suffixes();
    assert "n" + "e" == "ne" && "n" + "z" == "nz" && "n" + "l" == "nl" && "n" + "le" == "nle" && "n" + "g" == "ng";
    assert "n" + "ge" == "nge" && "n" + "b" == "nb" && "n" + "c" == "nc" && "n" + "be" == "nbe" && "n" + "a" == "na";
    assert "n" + "ae" == "nae" && "n" + "s" == "ns" && "n" + "o" == "no" && "n" + "p" == "np";
  }

  /** The remaining synonyms. */
  lemma SuffixSynonyms()
    ensures ConditionNamed("z") == ConditionNamed("e") && ConditionNamed("c") == ConditionNamed("b")
    ensures ConditionNamed("pe") == ConditionNamed("p") && ConditionNamed("po") == Opposite(ConditionNamed("pe"))
  {
    hide ConditionNamed;
    Suffixes();
  }
}
