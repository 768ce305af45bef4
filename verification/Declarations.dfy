/** The declarations printed before the function bodies: every called name is declared, and no other. */
module Declarations {
  import opened Wrappers
  import opened Words
  import opened Text
  import opened Orders
  import opened Ir
  import opened CLang
  import opened Backend

  const LIBC_IO: seq<string> := [
    "printf", "puts", "fprintf", "fopen", "fclose", "read", "write", "open", "close", "perror", "snprintf", "sprintf"
  ]

  const LIBC_STRINGS: seq<string> := [
    "memcpy", "memset", "strlen", "strcmp", "atoi", "atol", "strncmp", "strcpy", "strncpy", "strcat", "strncat"
  ]

  const LIBC_SYSTEM: seq<string> := [
    "malloc", "free", "exit", "mmap", "munmap", "brk", "syscall", "calloc", "realloc", "getenv", "abort"
  ]

  /** The library functions whose prototypes are known. */
  predicate KnownLibc(name: string) {
    name in LIBC_IO || name in LIBC_STRINGS || name in LIBC_SYSTEM
  }

  datatype Declaration = Prototype(name: string) | Stub(name: string) | Forward(name: string)

  // The calls of a program.

  function CodeOfBlocks(blocks: seq<IRBlock>): seq<IRInstruction> {
    if blocks == [] then [] else CodeOfBlocks(blocks[..|blocks| - 1]) + blocks[|blocks| - 1].instructions
  }

  function CodeOf(functions: seq<IRFunction>): seq<IRInstruction> {
    if functions == [] then [] else CodeOf(functions[..|functions| - 1]) + CodeOfBlocks(functions[|functions| - 1].blocks)
  }

  predicate IsCallTo(op: Opcode, target: CallTarget) {
    op.Call? && op.callee == target
  }

  predicate Calls(code: seq<IRInstruction>, target: CallTarget) {
    exists i :: 0 <= i < |code| && IsCallTo(code[i].opcode, target)
  }

  lemma CallsSnoc(code: seq<IRInstruction>, instr: IRInstruction, target: CallTarget)
    ensures Calls(code + [instr], target) <==> Calls(code, target) || IsCallTo(instr.opcode, target)
  {
    var all := code + [instr];
    forall i | 0 <= i < |code| ensures all[i] == code[i] {}
    if Calls(code, target) {
      var i :| 0 <= i < |code| && IsCallTo(code[i].opcode, target);
      assert IsCallTo(all[i].opcode, target);
    }
    assert all[|code|] == instr;
  }

  /** What has been collected after the given code. */
  ghost predicate Collected(targets: set<nat>, names: set<string>, code: seq<IRInstruction>, emitted: set<nat>) {
    && (forall a: word :: a in targets <==> a !in emitted && Calls(code, Direct(a)))
    && (forall a :: a in targets ==> a < 0x1_0000_0000_0000_0000)
    && (forall n :: n in names <==> Calls(code, External(n)))
  }

  lemma CollectedStep(targets: set<nat>, names: set<string>, code: seq<IRInstruction>, instr: IRInstruction, emitted: set<nat>)
    requires Collected(targets, names, code, emitted)
    ensures var op := instr.opcode;
      Collected(
        if op.Call? && op.callee.Direct? && op.callee.addr !in emitted then targets + {op.callee.addr} else targets,
        if op.Call? && op.callee.External? then names + {op.callee.name} else names,
        code + [instr], emitted)
  {
    hide Calls;
    forall target ensures Calls(code + [instr], target) <==> Calls(code, target) || IsCallTo(instr.opcode, target) {
      CallsSnoc(code, instr, target);
    }
  }

  lemma NothingCollected(emitted: set<nat>)
    ensures Collected({}, {}, [], emitted)
  {
  }

  method CollectCalls(functions: seq<IRFunction>, emitted: set<nat>) returns (targets: set<nat>, names: set<string>)
    ensures Collected(targets, names, CodeOf(functions), emitted)
  {
    hide Collected, Calls;
    targets, names := {}, {};
    ghost var code: seq<IRInstruction> := [];
    NothingCollected(emitted);
    for f := 0 to |functions|
      invariant code == CodeOf(functions[..f]) && Collected(targets, names, code, emitted)
    {
      ghost var before := code;
      var blocks := functions[f].blocks;
      for b := 0 to |blocks|
        invariant code == before + CodeOfBlocks(blocks[..b]) && Collected(targets, names, code, emitted)
      {
        ghost var base := code;
        var instrs := blocks[b].instructions;
        for i := 0 to |instrs|
          invariant code == base + instrs[..i] && Collected(targets, names, code, emitted)
        {
          CollectedStep(targets, names, code, instrs[i], emitted);
          var op := instrs[i].opcode;
          if op.Call? {
            match op.callee
            case Direct(addr) =>
              if addr !in emitted {
                targets := targets + {addr};
              }
            case External(name) => names := names + {name};
            case Indirect(_) =>
          }
          code := code + [instrs[i]];
        }
        assert instrs[..|instrs|] == instrs;
        assert blocks[..b + 1][..b] == blocks[..b];
      }
      assert blocks[..|blocks|] == blocks;
      assert functions[..f + 1][..f] == functions[..f];
    }
    assert functions[..|functions|] == functions;
  }

  // Names.

  function EmittedAddrs(functions: seq<IRFunction>): set<nat> {
    set f | f in functions :: f.addr
  }

  /** The C names of the emitted functions; of two at one address the later wins. */
  function FunctionNames(functions: seq<IRFunction>): (m: map<nat, string>)
    ensures m.Keys == EmittedAddrs(functions)
    ensures forall a :: a in m ==> exists f :: f in functions && f.addr == a && m[a] == SanitiseIdent(f.name)
  {
    if functions == [] then map[]
    else
      var last := functions[|functions| - 1];
      assert functions == functions[..|functions| - 1] + [last];
      FunctionNames(functions[..|functions| - 1])[last.addr := SanitiseIdent(last.name)]
  }

  function NamesOf(functions: seq<IRFunction>, symbols: map<nat, string>): Names {
    Names(symbols, FunctionNames(functions))
  }

  predicate IdentChar(c: char) {
    'A' <= c <= 'Z' || 'a' <= c <= 'z' || '0' <= c <= '9' || c == '_'
  }

  predicate IsIdent(s: string) {
    s != "" && !('0' <= s[0] <= '9') && forall i :: 0 <= i < |s| ==> IdentChar(s[i])
  }

  /** Sanitising yields an identifier, and leaves one alone. */
  lemma SanitisedIsIdent(name: string)
    ensures IsIdent(SanitiseIdent(name))
    ensures SanitiseIdent(name) == name <==> IsIdent(name)
  {
    var r := SanitiseChars(name);
    assert forall i :: 0 <= i < |r| ==> r[i] == SanitiseChar(name[i]);
    if IsIdent(name) {
      assert r == name;
    }
  }

  /** What sanitising does to a name: every character that an identifier cannot have becomes an underscore, and
      a leading digit gets one in front. */
  lemma SanitisedExactly(name: string)
    ensures name == "" ==> SanitiseIdent(name) == "_anon"
    ensures name != "" ==>
              var r, k := SanitiseIdent(name), if '0' <= name[0] <= '9' then 1 else 0;
              && |r| == |name| + k && (k == 1 ==> r[0] == '_')
              && forall i :: 0 <= i < |name| ==> r[k + i] == if IdentChar(name[i]) then name[i] else '_'
  {
    var r := SanitiseChars(name);
    assert forall i :: 0 <= i < |r| ==> r[i] == SanitiseChar(name[i]);
  }

  lemma IoIsIdent(name: string)
    requires name in LIBC_IO
    ensures IsIdent(name) && Lacks(name, '_')
  {
  }

  lemma StringsAreIdents(name: string)
    requires name in LIBC_STRINGS
    ensures IsIdent(name) && Lacks(name, '_')
  {
  }

  lemma SystemIsIdent(name: string)
    requires name in LIBC_SYSTEM
    ensures IsIdent(name) && Lacks(name, '_')
  {
  }

  lemma LibcNameKept(name: string)
    requires KnownLibc(name)
    ensures SanitiseIdent(name) == name && Lacks(name, '_')
  {
    hide LIBC_IO, LIBC_STRINGS, LIBC_SYSTEM, SanitiseIdent, IsIdent, Lacks;
    SanitisedIsIdent(name);
    if name in LIBC_IO {
      IoIsIdent(name);
    } else if name in LIBC_STRINGS {
      StringsAreIdents(name);
    } else {
      SystemIsIdent(name);
    }
  }

  /** Sanitising leaves an underscore behind wherever it changes anything. */
  lemma ChangedNameShows(name: string)
    ensures Lacks(SanitiseIdent(name), '_') ==> SanitiseIdent(name) == name
  {
    var r := SanitiseChars(name);
    if Lacks(SanitiseIdent(name), '_') {
      assert SanitiseIdent(name)[0] != '_';
      assert SanitiseIdent(name) == r;
      forall i | 0 <= i < |r| ensures r[i] == name[i] {
        assert r[i] == SanitiseChar(name[i]) != '_';
      }
      assert r == name;
    }
  }

  /** No other name is sanitised to that of a library function. */
  lemma OtherNameStaysOther(name: string)
    ensures KnownLibc(SanitiseIdent(name)) <==> KnownLibc(name)
  {
    hide KnownLibc, SanitiseIdent;
    if KnownLibc(SanitiseIdent(name)) {
      LibcNameKept(SanitiseIdent(name));
      ChangedNameShows(name);
    }
    if KnownLibc(name) {
      LibcNameKept(name);
    }
  }

  // The declarations.

  predicate PrototypeRight(d: Declaration) {
    d.Forward? || (d.Prototype? <==> KnownLibc(d.name))
  }

  /** Library functions are declared by prototype, and nothing else is. */
  predicate PrototypesRight(decls: seq<Declaration>) {
    forall i :: 0 <= i < |decls| ==> PrototypeRight(decls[i])
  }

  predicate Declares(decls: seq<Declaration>, name: string) {
    exists i :: 0 <= i < |decls| && decls[i].name == name
  }

  /** The declared names are those of a set. */
  ghost predicate DeclaresExactly(decls: seq<Declaration>, names: iset<string>) {
    forall n :: Declares(decls, n) <==> n in names
  }

  lemma DeclareOne(decls: seq<Declaration>, names: iset<string>, d: Declaration)
    requires DeclaresExactly(decls, names)
    ensures DeclaresExactly(decls + [d], names + iset{d.name})
  {
    var all := decls + [d];
    assert all[|decls|] == d;
    forall n ensures Declares(all, n) <==> n in names + iset{d.name} {
      if Declares(decls, n) {
        var i :| 0 <= i < |decls| && decls[i].name == n;
        assert all[i].name == n;
      }
    }
  }

  ghost function Idents(names: set<string>): iset<string> {
    iset n | n in names :: SanitiseIdent(n)
  }

  /** Prototypes for the library functions called by name, and stubs for the others. */
  method DeclareNames(names: set<string>) returns (decls: seq<Declaration>, declared: set<string>)
    ensures DeclaresExactly(decls, Idents(names)) && PrototypesRight(decls)
    ensures forall n :: n in declared <==> n in names && KnownLibc(n)
  {
    hide KnownLibc, SanitiseIdent, DeclaresExactly, Declares;
    decls, declared := [], {};
    assert DeclaresExactly(decls, Idents({})) by {
      NothingDeclared();
    }
    var rest := names;
    while rest != {}
      invariant rest <= names
      invariant forall n :: n in declared <==> n in names - rest && KnownLibc(n)
      invariant DeclaresExactly(decls, Idents(declared)) && PrototypesRight(decls)
      decreases |rest|
    {
      var n :| n in rest;
      if KnownLibc(n) {
        LibcNameKept(n);
        DeclareOne(decls, Idents(declared), Prototype(n));
        IdentsGrow(declared, n);
        decls := decls + [Prototype(n)];
        declared := declared + {n};
      }
      rest := rest - {n};
    }
    rest := names;
    ghost var done := declared;
    while rest != {}
      invariant rest <= names
      invariant done == declared + (names - rest)
      invariant DeclaresExactly(decls, Idents(done)) && PrototypesRight(decls)
      decreases |rest|
    {
      var n :| n in rest;
      if n !in declared {
        OtherNameStaysOther(n);
        DeclareOne(decls, Idents(done), Stub(SanitiseIdent(n)));
        IdentsGrow(done, n);
        decls := decls + [Stub(SanitiseIdent(n))];
      } else {
        assert done + {n} == done;
      }
      done := done + {n};
      rest := rest - {n};
      assert done == declared + (names - rest);
    }
    assert done == names;
  }

  lemma NothingDeclared()
    ensures DeclaresExactly([], Idents({}))
  {
  }

  lemma IdentsGrow(names: set<string>, n: string)
    ensures Idents(names + {n}) == Idents(names) + iset{SanitiseIdent(n)}
  {
    hide SanitiseIdent;
    assert forall x :: x in names + {n} <==> x in names || x == n;
  }

  /** What is printed for a call to an address outside the program. */
  ghost function StubNames(targets: set<nat>, names: Names): iset<string> {
    iset a | a in targets :: ResolveCallName(a, names)
  }

  lemma StubNamesGrow(targets: set<nat>, a: nat, names: Names)
    ensures StubNames(targets + {a}, names) == StubNames(targets, names) + iset{ResolveCallName(a, names)}
  {
    hide ResolveCallName;
    assert forall x :: x in targets + {a} <==> x in targets || x == a;
  }

  /** Every name noted as declared has been declared in its sanitised form. */
  ghost predicate NotesHonest(declared: set<string>, names: iset<string>) {
    forall n :: n in declared ==> SanitiseIdent(n) in names
  }

  function SetOf(s: seq<nat>): set<nat> {
    set x | x in s
  }

  lemma StubIsOther(a: nat)
    ensures !KnownLibc("stub_0x" + Hex(a))
  {
    hide KnownLibc, Hex;
    var name := "stub_0x" + Hex(a);
    assert name[4] == '_';
    if KnownLibc(name) {
      LibcNameKept(name);
    }
  }

  /** How a called address outside the program is declared. */
  function TargetDeclaration(a: nat, names: Names): Declaration {
    if a in names.symbols && KnownLibc(names.symbols[a]) then Prototype(names.symbols[a])
    else Stub(ResolveCallName(a, names))
  }

  lemma TargetDeclared(a: nat, names: Names)
    requires a !in names.functions
    ensures TargetDeclaration(a, names).name == ResolveCallName(a, names) && PrototypeRight(TargetDeclaration(a, names))
    ensures a in names.symbols ==> ResolveCallName(a, names) == SanitiseIdent(names.symbols[a])
  {
    hide KnownLibc, SanitiseIdent, Hex;
    if a in names.symbols {
      OtherNameStaysOther(names.symbols[a]);
      if KnownLibc(names.symbols[a]) {
        LibcNameKept(names.symbols[a]);
      }
    } else {
      StubIsOther(a);
    }
  }

  lemma NotesGrow(declared: set<string>, names: iset<string>, symbol: string)
    requires NotesHonest(declared, names)
    ensures NotesHonest(declared + {symbol}, names + iset{SanitiseIdent(symbol)})
    ensures forall n :: NotesHonest(declared, names + iset{n})
    ensures symbol in declared ==> names + iset{SanitiseIdent(symbol)} == names
  {
    hide SanitiseIdent;
  }

  /** Declarations for the called addresses outside the program, by symbol or as stubs. */
  method DeclareTargets(targets: set<nat>, names: Names, before: seq<Declaration>, known: set<string>, ghost already: iset<string>)
    returns (decls: seq<Declaration>)
    requires targets !! names.functions.Keys && DeclaresExactly(before, already) && NotesHonest(known, already)
    requires PrototypesRight(before)
    ensures DeclaresExactly(decls, already + StubNames(targets, names)) && PrototypesRight(decls)
  {
    hide PrototypeRight, SanitiseIdent, DeclaresExactly, ResolveCallName, TargetDeclaration, NotesHonest;
    decls := before;
    var declared, order := known, InOrder(targets);
    ghost var done: set<nat> := {};
    ghost var all := already;
    for i := 0 to |order|
      invariant done == SetOf(order[..i])
      invariant all == already + StubNames(done, names)
      invariant DeclaresExactly(decls, all) && NotesHonest(declared, all) && PrototypesRight(decls)
    {
      var a := order[i];
      assert a in targets;
      TargetDeclared(a, names);
      StubNamesGrow(done, a, names);
      SetSnoc(order, i);
      var d := TargetDeclaration(a, names);
      if a in names.symbols {
        NotesGrow(declared, all, names.symbols[a]);
      } else {
        NotesGrow(declared, all, "");
      }
      if !(a in names.symbols && names.symbols[a] in declared) {
        DeclareOne(decls, all, d);
        decls := decls + [d];
        if a in names.symbols {
          declared := declared + {names.symbols[a]};
        }
      }
      done := done + {a};
      all := all + iset{d.name};
    }
    assert order[..|order|] == order;
    assert done == targets;
  }

  lemma SetSnoc(s: seq<nat>, i: nat)
    requires i < |s|
    ensures SetOf(s[..i + 1]) == SetOf(s[..i]) + {s[i]}
  {
    assert s[..i + 1] == s[..i] + [s[i]];
  }

  ghost function ForwardNames(functions: seq<IRFunction>): iset<string> {
    iset f | f in functions :: SanitiseIdent(f.name)
  }

  method DeclareFunctions(functions: seq<IRFunction>, before: seq<Declaration>, ghost already: iset<string>)
    returns (decls: seq<Declaration>)
    requires DeclaresExactly(before, already) && PrototypesRight(before)
    ensures DeclaresExactly(decls, already + ForwardNames(functions)) && PrototypesRight(decls)
  {
    hide SanitiseIdent, DeclaresExactly;
    decls := before;
    assert already + ForwardNames([]) == already;
    for i := 0 to |functions|
      invariant DeclaresExactly(decls, already + ForwardNames(functions[..i])) && PrototypesRight(decls)
    {
      var name := SanitiseIdent(functions[i].name);
      DeclareOne(decls, already + ForwardNames(functions[..i]), Forward(name));
      decls := decls + [Forward(name)];
      assert functions[..i + 1] == functions[..i] + [functions[i]];
      assert already + ForwardNames(functions[..i + 1]) == already + ForwardNames(functions[..i]) + iset{name};
    }
    assert functions[..|functions|] == functions;
  }

  // The two ways of naming agree.

  /** The name is printed at a call site. */
  predicate PrintedAtCall(code: seq<IRInstruction>, names: Names, name: string) {
    exists i :: 0 <= i < |code| && LineCalls(EmitOpcode(code[i].opcode, names), name)
  }

  predicate LineCalls(line: CLine, name: string) {
    exists k :: 0 <= k < |line| && StmtCalls(line[k], name)
  }

  predicate StmtCalls(st: CStmt, name: string) {
    st.CCallNamed? && st.callee == name
  }

  function CalledName(op: Opcode, names: Names): Option<string> {
    if op.Call? && op.callee.Direct? then Some(ResolveCallName(op.callee.addr, names))
    else if op.Call? && op.callee.External? then Some(SanitiseIdent(op.callee.name))
    else None
  }

  lemma LineCallsExactly(op: Opcode, names: Names, name: string)
    ensures LineCalls(EmitOpcode(op, names), name) <==> CalledName(op, names) == Some(name)
  {
    hide EmitOperand, EmitAddr, EmitCondition, ResolveCallName, SanitiseIdent;
    var line := EmitOpcode(op, names);
    if CalledName(op, names) == Some(name) {
      assert StmtCalls(line[2], name);
    }
  }

  /** A called name is that of an emitted function, of an address outside, or of an external function. */
  lemma CalledNamesSplit(functions: seq<IRFunction>, symbols: map<nat, string>, targets: set<nat>, externs: set<string>,
                         name: string)
    requires Collected(targets, externs, CodeOf(functions), EmittedAddrs(functions))
    ensures var names := NamesOf(functions, symbols);
      PrintedAtCall(CodeOf(functions), names, name) || name in ForwardNames(functions)
      <==> name in Idents(externs) + StubNames(targets, names) + ForwardNames(functions)
  {
    hide ResolveCallName, SanitiseIdent, LineCalls, EmitOpcode, CodeOf;
    var names, code := NamesOf(functions, symbols), CodeOf(functions);
    if i :| 0 <= i < |code| && LineCalls(EmitOpcode(code[i].opcode, names), name) {
      LineCallsExactly(code[i].opcode, names, name);
      CalledNameDeclared(functions, symbols, targets, externs, i, name);
    }
    if n :| n in externs && name == SanitiseIdent(n) {
      var i :| 0 <= i < |code| && IsCallTo(code[i].opcode, External(n));
      LineCallsExactly(code[i].opcode, names, name);
    }
    if a: word :| a in targets && name == ResolveCallName(a, names) {
      var i :| 0 <= i < |code| && IsCallTo(code[i].opcode, Direct(a));
      LineCallsExactly(code[i].opcode, names, name);
    }
  }

  lemma CalledNameDeclared(functions: seq<IRFunction>, symbols: map<nat, string>, targets: set<nat>, externs: set<string>,
                           i: nat, name: string)
    requires Collected(targets, externs, CodeOf(functions), EmittedAddrs(functions)) && i < |CodeOf(functions)|
    requires CalledName(CodeOf(functions)[i].opcode, NamesOf(functions, symbols)) == Some(name)
    ensures name in Idents(externs) + StubNames(targets, NamesOf(functions, symbols)) + ForwardNames(functions)
  {
    hide SanitiseIdent, CodeOf, Hex;
    var op := CodeOf(functions)[i].opcode;
    assert IsCallTo(op, op.callee);
    assert Calls(CodeOf(functions), op.callee);
  }

  /** The names declared before the bodies are those of the emitted functions and those printed at the
      call sites, whichever way each is resolved; no call goes undeclared and nothing else is declared. */
  method EmitDeclarations(functions: seq<IRFunction>, symbols: map<nat, string>) returns (decls: seq<Declaration>)
    ensures forall name :: Declares(decls, name) <==>
              PrintedAtCall(CodeOf(functions), NamesOf(functions, symbols), name)
              || exists f :: f in functions && name == SanitiseIdent(f.name)
    ensures PrototypesRight(decls)
  {
    hide SanitiseIdent, ResolveCallName, KnownLibc, PrintedAtCall, Collected, CodeOf, Declares, PrototypesRight;
    var emitted := EmittedAddrs(functions);
    var names := NamesOf(functions, symbols);
    var targets, externs := CollectCalls(functions, emitted);
    TargetsOutside(targets, externs, CodeOf(functions), emitted);
    var declared;
    decls, declared := DeclareNames(externs);
    decls := DeclareTargets(targets, names, decls, declared, Idents(externs));
    decls := DeclareFunctions(functions, decls, Idents(externs) + StubNames(targets, names));
    forall name
      ensures Declares(decls, name) <==>
                PrintedAtCall(CodeOf(functions), names, name) || exists f :: f in functions && name == SanitiseIdent(f.name)
    {
      CalledNamesSplit(functions, symbols, targets, externs, name);
    }
  }

  lemma TargetsOutside(targets: set<nat>, names: set<string>, code: seq<IRInstruction>, emitted: set<nat>)
    requires Collected(targets, names, code, emitted)
    ensures targets !! emitted
  {
    hide Calls;
    forall a | a in targets ensures a !in emitted {
      var w: word := a;
      assert w in targets;
    }
  }

  // Arguments.

  datatype Params = Exactly(n: nat) | AtLeast(n: nat) {
    predicate Accept(args: nat) {
      match this
      case Exactly(n) => args == n
      case AtLeast(n) => args >= n
    }
  }

  /** The parameters in the prototype of a library function, when it has one. */
  function LibcParams(name: string): Option<Params> {
    if name in ["printf", "syscall"] then Some(AtLeast(1))
    else if name in ["fprintf", "open", "sprintf"] then Some(AtLeast(2))
    else if name == "snprintf" then Some(AtLeast(3))
    else if name == "abort" then Some(Exactly(0))
    else if name == "mmap" then Some(Exactly(6))
    else if name in ["memcpy", "memset", "read", "write", "strncmp", "strncpy", "strncat"] then Some(Exactly(3))
    else if name in ["strcmp", "fopen", "munmap", "calloc", "realloc", "strcpy", "strcat"] then Some(Exactly(2))
    else if name in ["puts", "fclose", "close", "perror", "strlen", "atoi", "atol"] then Some(Exactly(1))
    else if name in ["malloc", "free", "exit", "brk", "getenv"] then Some(Exactly(1))
    else None
  }

  lemma IoHasParams(name: string)
    requires name in LIBC_IO
    ensures LibcParams(name).Some?
  {
  }

  lemma StringsHaveParams(name: string)
    requires name in LIBC_STRINGS
    ensures LibcParams(name).Some?
  {
  }

  lemma SystemHasParams(name: string)
    requires name in LIBC_SYSTEM
    ensures LibcParams(name).Some?
  {
  }

  lemma ManyParamsKnown(name: string)
    requires name in ["printf", "syscall", "fprintf", "open", "sprintf", "snprintf", "abort", "mmap"]
    ensures KnownLibc(name)
  {
  }

  lemma ThreeParamsKnown(name: string)
    requires name in ["memcpy", "memset", "read", "write", "strncmp", "strncpy", "strncat"]
    ensures KnownLibc(name)
  {
  }

  lemma TwoParamsKnown(name: string)
    requires name in ["strcmp", "fopen", "munmap", "calloc", "realloc", "strcpy", "strcat"]
    ensures KnownLibc(name)
  {
  }

  lemma OneParamKnown(name: string)
    requires name in ["puts", "fclose", "close", "perror", "strlen", "atoi", "atol"]
             || name in ["malloc", "free", "exit", "brk", "getenv"]
    ensures KnownLibc(name)
  {
  }

  lemma ParamsCases(name: string)
    requires LibcParams(name).Some?
    ensures name in ["printf", "syscall", "fprintf", "open", "sprintf", "snprintf", "abort", "mmap"]
            || name in ["memcpy", "memset", "read", "write", "strncmp", "strncpy", "strncat"]
            || name in ["strcmp", "fopen", "munmap", "calloc", "realloc", "strcpy", "strcat"]
            || name in ["puts", "fclose", "close", "perror", "strlen", "atoi", "atol"]
            || name in ["malloc", "free", "exit", "brk", "getenv"]
  {
  }

  /** The library functions declared by prototype are those whose parameters are known. */
  lemma LibcParamsExactly(name: string)
    ensures LibcParams(name).Some? <==> KnownLibc(name)
  {
    hide LibcParams, LIBC_IO, LIBC_STRINGS, LIBC_SYSTEM;
    if LibcParams(name).Some? {
      ParamsCases(name);
      if name in ["printf", "syscall", "fprintf", "open", "sprintf", "snprintf", "abort", "mmap"] {
        ManyParamsKnown(name);
      } else if name in ["memcpy", "memset", "read", "write", "strncmp", "strncpy", "strncat"] {
        ThreeParamsKnown(name);
      } else if name in ["strcmp", "fopen", "munmap", "calloc", "realloc", "strcpy", "strcat"] {
        TwoParamsKnown(name);
      } else {
        OneParamKnown(name);
      }
    }
    if name in LIBC_IO {
      IoHasParams(name);
    } else if name in LIBC_STRINGS {
      StringsHaveParams(name);
    } else if name in LIBC_SYSTEM {
      SystemHasParams(name);
    }
  }

  /** Stubs and forward declarations have an empty parameter list. */
  function ParamsOf(d: Declaration): Params {
    if d.Prototype? then LibcParams(d.name).GetOr(Exactly(0)) else Exactly(0)
  }

  /** The arguments printed for a call. */
  function ArgsOf(op: Opcode, names: Names): seq<CExpr>
    requires op.Call? && !op.callee.Indirect?
  {
    EmitCall(op.callee, names).args
  }

  /** A call fits a declaration of the name it prints exactly when: an external call, which passes six
      arguments, meets a prototype that takes as many; a direct call, which passes none, meets a
      declaration other than a prototype with parameters. */
  lemma CallFitsExactly(op: Opcode, names: Names, d: Declaration)
    requires op.Call? && !op.callee.Indirect?
    ensures ParamsOf(d).Accept(|ArgsOf(op, names)|)
            <==> if op.callee.External?
                 then d.Prototype? && d.name in ["printf", "syscall", "fprintf", "open", "sprintf", "snprintf", "mmap"]
                 else d.Prototype? ==> d.name == "abort" || !KnownLibc(d.name)
  {
    hide KnownLibc, ResolveCallName, SanitiseIdent;
    LibcParamsExactly(d.name);
  }
}
