/** Direct calls across the pipeline: from the text of a call to the emitted function it names. */
module CallClosure {
  import opened Wrappers
  import opened Words
  import opened Text
  import opened Orders
  import opened Ir
  import opened Operands
  import opened Frontend
  import Cfg
  import opened Lifter
  import opened Backend
  import opened OperandProofs
  import opened Gotos
  import opened Declarations

  /** The IR functions of a program. */
  function LiftAll(functions: seq<DisassembledFunction>): (r: seq<IRFunction>)
    ensures |r| == |functions|
    ensures forall i :: 0 <= i < |r| ==> r[i].name == functions[i].name && r[i].addr == functions[i].startAddr
  {
    seq(|functions|, i requires 0 <= i < |functions| => LiftFunction(Cfg.CfgOf(functions[i])))
  }

  lemma HexFormFacts(text: string)
    requires HexForm(text)
    ensures !IsMemoryOperand(Trim(text)) && ParseRegister(Trim(text)) == None
  {
    var s := Trim(text);
    TrimCleans(text);
    NumberLacks(s[2..], '[');
    assert s == s[..2] + s[2..];
    assert ToLower(s)[0] == '0';
    NotARegister(ToLower(s));
  }

  lemma CallForm(insn: DisassembledInsn)
    requires insn.mnemonic == "call"
    ensures Mnemonic(insn) == "call" && FormOfInsn(insn) == FCall
  {
    ToLowerFixed("call");
    assert "lock "[0] == 'l';
  }

  /** A direct call in the 0x form is lifted with the target that the front end sees. */
  lemma CallLifted(insn: DisassembledInsn, versions: Versions)
    requires insn.mnemonic == "call" && HexForm(insn.opStr)
    ensures LiftInsn(insn, versions).ops == [Call(Direct(ParseHexTarget(insn.opStr).value), insn.address + insn.size)]
  {
    hide FormOf, Mnemonic, ParseOperandsSpec, ParseImmediate, ParseRegister, ParseMemoryOperandSpec, IsMemoryOperand;
    hide ParseHexTarget;
    var s := Trim(insn.opStr);
    TrimCleans(insn.opStr);
    CallForm(insn);
    TargetsAgree(insn.opStr);
    HexFormFacts(insn.opStr);
    AddressKept(ParseHexTarget(insn.opStr).value);
  }

  lemma FunctionStartsAt(info: BinaryInfo, insns: seq<DisassembledInsn>, starts: seq<nat>, n: nat, f: DisassembledFunction)
    returns (i: nat)
    requires n <= |starts| && f in FunctionsAt(info, insns, starts, n)
    ensures i < n && FunctionAt(info, insns, starts, i) == [f] && f.startAddr == starts[i]
    decreases n
  {
    if f in FunctionAt(info, insns, starts, n - 1) {
      i := n - 1;
    } else {
      i := FunctionStartsAt(info, insns, starts, n - 1, f);
    }
  }

  /** No two discovered functions start at the same address. */
  lemma StartsAreUnique(info: BinaryInfo, insns: seq<DisassembledInsn>, starts: seq<nat>, f: DisassembledFunction, g: DisassembledFunction)
    requires Increasing(starts) && f.startAddr == g.startAddr
    requires f in FunctionsAt(info, insns, starts, |starts|) && g in FunctionsAt(info, insns, starts, |starts|)
    ensures f == g
  {
    hide FunctionsAt, FunctionAt;
    var i := FunctionStartsAt(info, insns, starts, |starts|, f);
    var j := FunctionStartsAt(info, insns, starts, |starts|, g);
    assert i == j;
    assert [f][0] == [g][0];
  }

  lemma LiftedAt(functions: seq<DisassembledFunction>, i: nat)
    requires i < |functions|
    ensures var irs := LiftAll(functions); irs[i] in irs && irs[i].addr in EmittedAddrs(irs)
  {
    hide LiftAll;
    var irs := LiftAll(functions);
    assert irs[i] in irs;
  }

  lemma LiftedFrom(functions: seq<DisassembledFunction>, g: IRFunction) returns (j: nat)
    requires g in LiftAll(functions)
    ensures j < |functions| && g.addr == functions[j].startAddr && g.name == functions[j].name && functions[j] in functions
  {
    hide LiftAll;
    var irs := LiftAll(functions);
    j :| 0 <= j < |irs| && irs[j] == g;
  }

  lemma ResolvedInside(functions: seq<DisassembledFunction>, f: DisassembledFunction, symbols: map<nat, string>)
    requires f in functions && forall g :: g in functions && g.startAddr == f.startAddr ==> g == f
    ensures ResolveCallName(f.startAddr, NamesOf(LiftAll(functions), symbols)) == SanitiseIdent(f.name)
  {
    hide LiftAll, SanitiseIdent, EmittedAddrs, ResolveCallName, FunctionNames;
    var i :| 0 <= i < |functions| && functions[i] == f;
    LiftedAt(functions, i);
    var g := EmittedName(LiftAll(functions), symbols, f.startAddr);
    var j := LiftedFrom(functions, g);
  }

  predicate CallsAddress(op: Opcode, a: nat) {
    op.Call? && op.callee.Direct? && op.callee.addr == a
  }

  /** A direct call to a disassembled instruction of the text section is lifted to a call of the address of
      the emitted function that begins with that instruction, and its name is resolved to that function's
      name, not to a symbol or a stub. Whether the name means that function alone is the subject of
      `NameDeterminesExactly`. */
  lemma CallsReachFunctions(info: BinaryInfo, insns: seq<DisassembledInsn>, starts: seq<nat>, c: nat, t: nat,
                            symbols: map<nat, string>, versions: Versions)
    returns (f: DisassembledFunction)
    requires AscendingAddresses(insns) && AllInText(info, insns) && StartsOf(info, insns, starts)
    requires c < |insns| && t < |insns| && CallsTo(insns[c], insns[t].address) && HexForm(insns[c].opStr)
    ensures var functions := FunctionsAt(info, insns, starts, |starts|);
      && f in functions && f.instructions != [] && f.instructions[0] == insns[t]
      && var ops := LiftInsn(insns[c], versions).ops;
      && |ops| == 1 && CallsAddress(ops[0], f.startAddr)
      && CalledName(ops[0], NamesOf(LiftAll(functions), symbols)) == Some(SanitiseIdent(f.name))
  {
    hide LiftInsn, FunctionsAt, FunctionAt, LiftAll, SanitiseIdent, ParseHexTarget, StartsOf, ResolveCallName, AllInText;
    f := CallTargetsAreFunctions(info, insns, starts, c, t);
    CallLifted(insns[c], versions);
    var functions := FunctionsAt(info, insns, starts, |starts|);
    forall g | g in functions && g.startAddr == f.startAddr ensures g == f {
      assert Increasing(starts) by {
        StartsIncrease(info, insns, starts);
      }
      StartsAreUnique(info, insns, starts, g, f);
    }
    ResolvedInside(functions, f, symbols);
  }

  lemma StartsIncrease(info: BinaryInfo, insns: seq<DisassembledInsn>, starts: seq<nat>)
    requires StartsOf(info, insns, starts)
    ensures Increasing(starts)
  {
  }

  // What a printed name determines.

  predicate DistinctAddresses(functions: seq<IRFunction>) {
    forall f, g :: f in functions && g in functions && f.addr == g.addr ==> f == g
  }

  /** If the opcode prints the name of f, it calls f. */
  predicate CallMeansOnly(op: Opcode, names: Names, f: IRFunction) {
    CalledName(op, names) == Some(SanitiseIdent(f.name)) ==> CallsAddress(op, f.addr)
  }

  /** The C name of f is that of no other emitted function, and every call that prints it calls f. */
  predicate NameDetermines(functions: seq<IRFunction>, symbols: map<nat, string>, f: IRFunction) {
    && (forall g :: g in functions && SanitiseIdent(g.name) == SanitiseIdent(f.name) ==> g == f)
    && (forall i :: 0 <= i < |CodeOf(functions)| ==>
          CallMeansOnly(CodeOf(functions)[i].opcode, NamesOf(functions, symbols), f))
  }

  /** No other emitted function, no called external name and no called address outside the program is
      sanitised to the name. */
  ghost predicate NoNamesake(functions: seq<IRFunction>, symbols: map<nat, string>, f: IRFunction) {
    && (forall g :: g in functions && g != f ==> SanitiseIdent(g.name) != SanitiseIdent(f.name))
    && (forall n :: Calls(CodeOf(functions), External(n)) ==> SanitiseIdent(n) != SanitiseIdent(f.name))
    && (forall a: word :: Calls(CodeOf(functions), Direct(a)) && a !in EmittedAddrs(functions) ==>
          ResolveCallName(a, Names(symbols, map[])) != SanitiseIdent(f.name))
  }

  /** The name printed for an emitted address is that of the function there. */
  lemma EmittedName(functions: seq<IRFunction>, symbols: map<nat, string>, a: nat) returns (g: IRFunction)
    requires a in EmittedAddrs(functions)
    ensures g in functions && g.addr == a && ResolveCallName(a, NamesOf(functions, symbols)) == SanitiseIdent(g.name)
  {
    hide SanitiseIdent;
    g :| g in functions && g.addr == a && FunctionNames(functions)[a] == SanitiseIdent(g.name);
  }

  lemma OutsideResolved(functions: seq<IRFunction>, symbols: map<nat, string>, a: nat)
    requires a !in EmittedAddrs(functions)
    ensures ResolveCallName(a, NamesOf(functions, symbols)) == ResolveCallName(a, Names(symbols, map[]))
  {
  }

  lemma CallAt(code: seq<IRInstruction>, target: CallTarget) returns (i: nat)
    requires Calls(code, target)
    ensures i < |code| && IsCallTo(code[i].opcode, target)
  {
    i :| 0 <= i < |code| && IsCallTo(code[i].opcode, target);
  }

  /** One direction at one call: without a namesake, a call that prints the name calls f. */
  lemma CallMeans(functions: seq<IRFunction>, symbols: map<nat, string>, f: IRFunction, i: nat)
    requires DistinctAddresses(functions) && f in functions && NoNamesake(functions, symbols, f) && i < |CodeOf(functions)|
    ensures CallMeansOnly(CodeOf(functions)[i].opcode, NamesOf(functions, symbols), f)
  {
    hide SanitiseIdent, ResolveCallName, CodeOf, EmittedAddrs;
    var op := CodeOf(functions)[i].opcode;
    assert op.Call? ==> IsCallTo(op, op.callee) && Calls(CodeOf(functions), op.callee);
    if op.Call? && op.callee.Direct? {
      if op.callee.addr in EmittedAddrs(functions) {
        var g := EmittedName(functions, symbols, op.callee.addr);
      } else {
        OutsideResolved(functions, symbols, op.callee.addr);
      }
    }
  }

  /** A printed name determines the emitted function exactly when nothing else has the same C name. */
  lemma NameDeterminesExactly(functions: seq<IRFunction>, symbols: map<nat, string>, f: IRFunction)
    requires DistinctAddresses(functions) && f in functions
    ensures NameDetermines(functions, symbols, f) <==> NoNamesake(functions, symbols, f)
  {
    hide SanitiseIdent, ResolveCallName, CodeOf, EmittedAddrs, Calls;
    if NoNamesake(functions, symbols, f) {
      forall i | 0 <= i < |CodeOf(functions)|
        ensures CallMeansOnly(CodeOf(functions)[i].opcode, NamesOf(functions, symbols), f)
      {
        CallMeans(functions, symbols, f, i);
      }
    }
    if NameDetermines(functions, symbols, f) {
      forall n | Calls(CodeOf(functions), External(n)) ensures SanitiseIdent(n) != SanitiseIdent(f.name) {
        var i := CallAt(CodeOf(functions), External(n));
        assert CallMeansOnly(CodeOf(functions)[i].opcode, NamesOf(functions, symbols), f);
      }
      forall a: word | Calls(CodeOf(functions), Direct(a)) && a !in EmittedAddrs(functions)
        ensures ResolveCallName(a, Names(symbols, map[])) != SanitiseIdent(f.name)
      {
        var i := CallAt(CodeOf(functions), Direct(a));
        assert CallMeansOnly(CodeOf(functions)[i].opcode, NamesOf(functions, symbols), f);
        OutsideResolved(functions, symbols, a);
        Emitted(functions, f);
      }
    }
  }

  lemma Emitted(functions: seq<IRFunction>, f: IRFunction)
    requires f in functions
    ensures f.addr in EmittedAddrs(functions)
  {
  }

  /** Two symbols with the same C name, each at a disassembled instruction of the text section, give two
      discovered functions that are printed under one name. */
  lemma NamesakesDiscovered(info: BinaryInfo, insns: seq<DisassembledInsn>, starts: seq<nat>, i: nat, j: nat)
    returns (f: DisassembledFunction, g: DisassembledFunction)
    requires AscendingAddresses(insns) && AllInText(info, insns) && StartsOf(info, insns, starts) && i < j < |insns|
    requires insns[i].address in info.symbols && insns[j].address in info.symbols
    requires SanitiseIdent(info.symbols[insns[i].address]) == SanitiseIdent(info.symbols[insns[j].address])
    ensures var functions := FunctionsAt(info, insns, starts, |starts|);
      f in functions && g in functions && f.startAddr != g.startAddr && SanitiseIdent(f.name) == SanitiseIdent(g.name)
  {
    hide SanitiseIdent, FunctionsAt, PrologueAmong, CalledAmong;
    assert info.InText(insns[i].address) && info.InText(insns[j].address);
    assert insns[i].address in starts && insns[j].address in starts;
    f := StartIsFunction(info, insns, starts, i);
    g := StartIsFunction(info, insns, starts, j);
  }

  /** Such a pair of symbols. */
  lemma Namesakes()
    ensures "f.a" != "f_a" && SanitiseIdent("f.a") == SanitiseIdent("f_a")
  {
    assert SanitiseChars("f.a") == "f_a" == SanitiseChars("f_a");
    assert "f.a"[1] != "f_a"[1];
  }

  lemma HexInjective(a: nat, b: nat)
    requires Hex(a) == Hex(b)
    ensures a == b
  {
    HexValue(a);
    HexValue(b);
  }

  lemma UnnamedKept(a: nat)
    ensures SanitiseIdent("func_0x" + Hex(a)) == "func_0x" + Hex(a)
  {
    hide SanitiseIdent, Hex;
    var prefix, digits := "func_0x", Hex(a);
    var name := prefix + digits;
    forall i | 0 <= i < |name| ensures IdentChar(name[i]) {
      if i < |prefix| {
        assert name[i] == prefix[i];
      } else {
        assert name[i] == digits[i - |prefix|];
      }
    }
    SanitisedIsIdent(name);
  }

  /** The printed name of an address that has neither function nor symbol reads back as the address. */
  lemma StubReadsBack(a: word, names: Names)
    requires a !in names.functions && a !in names.symbols
    ensures var name := ResolveCallName(a, names); "stub_0x" <= name && ParseU64(name[7..], 16) == Some(a)
  {
    hide Hex, ParseU64;
    HexParsed(a);
    assert ("stub_0x" + Hex(a))[7..] == Hex(a);
  }

  /** Two such addresses are printed alike exactly when they are equal. */
  lemma StubsDistinct(a: word, b: word, names: Names)
    requires a !in names.functions && a !in names.symbols && b !in names.functions && b !in names.symbols
    ensures ResolveCallName(a, names) == ResolveCallName(b, names) <==> a == b
  {
    hide ResolveCallName, ParseU64;
    StubReadsBack(a, names);
    StubReadsBack(b, names);
  }

  /** A called address with a symbol and no function is printed under the symbol. */
  lemma SymbolPrinted(a: nat, names: Names)
    requires a !in names.functions && a in names.symbols
    ensures ResolveCallName(a, names) == SanitiseIdent(names.symbols[a])
  {
  }

  /** Functions without a symbol have C names that tell them apart from each other, and from what is printed
      for a call to any address that has neither function nor symbol. */
  lemma UnnamedAreDistinct(info: BinaryInfo, a: nat, b: nat, names: Names, t: word)
    requires a !in info.symbols && b !in info.symbols && t !in names.functions && t !in names.symbols
    ensures SanitiseIdent(NameOf(info, a)) == SanitiseIdent(NameOf(info, b)) <==> a == b
    ensures SanitiseIdent(NameOf(info, a)) != ResolveCallName(t, names)
  {
    hide SanitiseIdent, Hex, ResolveCallName, ParseU64;
    UnnamedKept(a);
    UnnamedKept(b);
    StubReadsBack(t, names);
    var x, y := "func_0x" + Hex(a), "func_0x" + Hex(b);
    assert x[7..] == Hex(a) && y[7..] == Hex(b);
    if x == y {
      HexInjective(a, b);
    }
    assert x[0] == 'f' && "stub_0x"[0] == 's';
  }
}
