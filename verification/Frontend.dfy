/** Splitting the disassembled text section into functions. */
module Frontend {
  import opened Wrappers
  import opened Words
  import opened Text
  import opened Orders

  datatype DisassembledInsn = DisassembledInsn(
    address: nat, size: nat, mnemonic: string, opStr: string, bytes: seq<byte>)

  datatype DisassembledFunction = DisassembledFunction(
    name: string, startAddr: nat, endAddr: nat, instructions: seq<DisassembledInsn>)

  datatype BinaryInfo = BinaryInfo(entryPoint: nat, textAddr: nat, textLength: nat, symbols: map<nat, string>) {
    function TextEnd(): nat {
      textAddr + textLength
    }

    predicate InText(a: nat) {
      textAddr <= a < TextEnd()
    }
  }

  /** What every disassembly of a byte range satisfies. */
  predicate AscendingAddresses(insns: seq<DisassembledInsn>) {
    forall i, j :: 0 <= i < j < |insns| ==> insns[i].address < insns[j].address
  }

  /** Each instruction starts where the one before it ends. */
  predicate Contiguous(insns: seq<DisassembledInsn>) {
    && (forall i :: 0 <= i < |insns| ==> insns[i].size > 0)
    && (forall i :: 0 <= i < |insns| - 1 ==> insns[i + 1].address == insns[i].address + insns[i].size)
  }

  lemma {:induction false} ContiguousFrom(insns: seq<DisassembledInsn>, i: nat, j: nat)
    requires Contiguous(insns) && i < j < |insns|
    ensures insns[i].address + insns[i].size <= insns[j].address
    decreases j
  {
    if i + 1 < j {
      ContiguousFrom(insns, i, j - 1);
      assert insns[j - 1 + 1].address == insns[j - 1].address + insns[j - 1].size;
    } else {
      assert insns[i + 1].address == insns[i].address + insns[i].size;
    }
  }

  lemma ContiguousIsAscending(insns: seq<DisassembledInsn>)
    requires Contiguous(insns)
    ensures AscendingAddresses(insns)
  {
    forall i, j | 0 <= i < j < |insns| ensures insns[i].address < insns[j].address {
      ContiguousFrom(insns, i, j);
    }
  }

  predicate IsAddress(insns: seq<DisassembledInsn>, a: nat) {
    exists i :: 0 <= i < |insns| && insns[i].address == a
  }

  predicate HasSubstring(s: string, sub: string) {
    exists i :: 0 <= i <= |s| && sub <= s[i..]
  }

  predicate IsPrologue(insn: DisassembledInsn) {
    insn.bytes != [] && insn.bytes[0] == 0x55 && insn.mnemonic == "push" && HasSubstring(insn.opStr, "rbp")
  }

  function CallTargetOf(insn: DisassembledInsn): Option<word> {
    if insn.mnemonic == "call" then ParseHexTarget(insn.opStr) else None
  }

  predicate PrologueAt(insn: DisassembledInsn, a: nat) {
    IsPrologue(insn) && insn.address == a
  }

  predicate CallsTo(insn: DisassembledInsn, a: nat) {
    CallTargetOf(insn).Some? && CallTargetOf(insn).value == a
  }

  /** One of the first n instructions is a prologue at a. */
  predicate PrologueAmong(insns: seq<DisassembledInsn>, n: nat, a: nat)
    requires n <= |insns|
  {
    exists i :: 0 <= i < n && PrologueAt(insns[i], a)
  }

  /** One of the first n instructions calls a. */
  predicate CalledAmong(insns: seq<DisassembledInsn>, n: nat, a: nat)
    requires n <= |insns|
  {
    exists i :: 0 <= i < n && CallsTo(insns[i], a)
  }

  lemma PrologueStep(insns: seq<DisassembledInsn>, n: nat)
    requires n < |insns|
    ensures forall a :: PrologueAmong(insns, n + 1, a) <==> (PrologueAmong(insns, n, a) || PrologueAt(insns[n], a))
  {
  }

  lemma CalledStep(insns: seq<DisassembledInsn>, n: nat)
    requires n < |insns|
    ensures forall a :: CalledAmong(insns, n + 1, a) <==> (CalledAmong(insns, n, a) || CallsTo(insns[n], a))
  {
  }

  /** a is a discovered function start: a symbol, the entry point, a prologue or a called instruction. */
  ghost predicate IsStart(info: BinaryInfo, insns: seq<DisassembledInsn>, a: nat) {
    || (info.InText(a) && (a in info.symbols || a == info.entryPoint))
    || PrologueAmong(insns, |insns|, a)
    || (info.InText(a) && IsAddress(insns, a) && CalledAmong(insns, |insns|, a))
  }

  function SliceOf(insns: seq<DisassembledInsn>, start: nat, end: nat): seq<DisassembledInsn> {
    if insns == [] then []
    else (if start <= insns[0].address < end then [insns[0]] else []) + SliceOf(insns[1..], start, end)
  }

  function NameOf(info: BinaryInfo, start: nat): string {
    if start in info.symbols then info.symbols[start] else "func_0x" + Hex(start)
  }

  function EndOf(info: BinaryInfo, starts: seq<nat>, i: nat): nat
    requires i < |starts|
  {
    if i + 1 < |starts| then starts[i + 1] else info.TextEnd()
  }

  /** The function cut out at the i-th start, if it has any instruction. */
  function FunctionAt(info: BinaryInfo, insns: seq<DisassembledInsn>, starts: seq<nat>, i: nat): seq<DisassembledFunction>
    requires i < |starts|
  {
    var start, end := starts[i], EndOf(info, starts, i);
    var body := SliceOf(insns, start, end);
    if body == [] then [] else [DisassembledFunction(NameOf(info, start), start, end, body)]
  }

  /** The functions cut out at the first n starts. */
  function FunctionsAt(info: BinaryInfo, insns: seq<DisassembledInsn>, starts: seq<nat>, n: nat): seq<DisassembledFunction>
    requires n <= |starts|
  {
    if n == 0 then [] else FunctionsAt(info, insns, starts, n - 1) + FunctionAt(info, insns, starts, n - 1)
  }

  ghost predicate StartsOf(info: BinaryInfo, insns: seq<DisassembledInsn>, starts: seq<nat>) {
    Increasing(starts) && forall a :: a in starts <==> IsStart(info, insns, a)
  }

  method SeedStarts(info: BinaryInfo) returns (seeds: set<nat>)
    ensures forall a :: a in seeds <==> info.InText(a) && (a in info.symbols || a == info.entryPoint)
  {
    seeds := set a | a in info.symbols && info.InText(a);
    if info.InText(info.entryPoint) {
      seeds := seeds + {info.entryPoint};
    }
  }

  method AddPrologues(insns: seq<DisassembledInsn>, seeds: set<nat>) returns (starts: set<nat>)
    ensures forall a :: a in starts <==> (a in seeds || PrologueAmong(insns, |insns|, a))
  {
    starts := seeds;
    for i := 0 to |insns|
      invariant forall a :: a in starts <==> (a in seeds || PrologueAmong(insns, i, a))
    {
      PrologueStep(insns, i);
      if IsPrologue(insns[i]) {
        starts := starts + {insns[i].address};
      }
    }
  }

  method AddCallTargets(info: BinaryInfo, insns: seq<DisassembledInsn>, seeds: set<nat>) returns (starts: set<nat>)
    ensures forall a :: a in starts <==>
              (a in seeds || (info.InText(a) && IsAddress(insns, a) && CalledAmong(insns, |insns|, a)))
  {
    starts := seeds;
    for i := 0 to |insns|
      invariant forall a :: a in starts <==>
                  (a in seeds || (info.InText(a) && IsAddress(insns, a) && CalledAmong(insns, i, a)))
    {
      CalledStep(insns, i);
      var target := CallTargetOf(insns[i]);
      if target.Some? && info.InText(target.value) && IsAddress(insns, target.value) {
        starts := starts + {target.value};
      }
    }
  }

  method CutFunctions(info: BinaryInfo, insns: seq<DisassembledInsn>, starts: seq<nat>)
    returns (functions: seq<DisassembledFunction>)
    ensures functions == FunctionsAt(info, insns, starts, |starts|)
  {
    functions := [];
    for i := 0 to |starts|
      invariant functions == FunctionsAt(info, insns, starts, i)
    {
      var end := EndOf(info, starts, i);
      var body := SliceOf(insns, starts[i], end);
      if body != [] {
        functions := functions + [DisassembledFunction(NameOf(info, starts[i]), starts[i], end, body)];
      }
    }
  }

  /** The starts are determined by what they are. */
  lemma StartsUnique(info: BinaryInfo, insns: seq<DisassembledInsn>, a: seq<nat>, b: seq<nat>)
    requires StartsOf(info, insns, a) && StartsOf(info, insns, b)
    ensures a == b
  {
    assert forall x :: x in a <==> x in b;
    IncreasingUnique(a, b);
  }

  method DiscoverFunctions(info: BinaryInfo, insns: seq<DisassembledInsn>)
    returns (functions: seq<DisassembledFunction>)
    ensures exists starts :: StartsOf(info, insns, starts) && functions == FunctionsAt(info, insns, starts, |starts|)
  {
    var funcStarts := SeedStarts(info);
    funcStarts := AddPrologues(insns, funcStarts);
    funcStarts := AddCallTargets(info, insns, funcStarts);
    var starts := InOrder(funcStarts);
    functions := CutFunctions(info, insns, starts);
    assert StartsOf(info, insns, starts);
  }

  // Every instruction lands in exactly one function.

  function Bodies(functions: seq<DisassembledFunction>): seq<DisassembledInsn> {
    if functions == [] then [] else functions[0].instructions + Bodies(functions[1..])
  }

  lemma {:induction false} BodiesSnoc(functions: seq<DisassembledFunction>, f: DisassembledFunction)
    ensures Bodies(functions + [f]) == Bodies(functions) + f.instructions
  {
    if functions == [] {
      assert functions + [f] == [f] && [f][1..] == [];
    } else {
      BodiesSnoc(functions[1..], f);
      assert (functions + [f])[1..] == functions[1..] + [f];
    }
  }

  lemma {:induction false} SliceBelow(insns: seq<DisassembledInsn>, a: nat, b: nat)
    requires forall i :: 0 <= i < |insns| ==> b <= insns[i].address
    ensures SliceOf(insns, a, b) == []
  {
    if insns != [] {
      SliceBelow(insns[1..], a, b);
    }
  }

  lemma TailAbove(insns: seq<DisassembledInsn>, b: nat)
    requires AscendingAddresses(insns) && insns != [] && b <= insns[0].address
    ensures forall i :: 0 <= i < |insns[1..]| ==> b <= insns[1..][i].address
  {
    forall i | 0 <= i < |insns[1..]| ensures b <= insns[1..][i].address {
      assert insns[0].address < insns[i + 1].address;
    }
  }

  lemma TailAscends(insns: seq<DisassembledInsn>)
    requires AscendingAddresses(insns) && insns != []
    ensures AscendingAddresses(insns[1..])
  {
  }

  /** Adjacent address ranges of an ascending list concatenate. */
  lemma {:induction false} SlicesJoin(insns: seq<DisassembledInsn>, a: nat, b: nat, c: nat)
    requires AscendingAddresses(insns) && a <= b <= c
    ensures SliceOf(insns, a, b) + SliceOf(insns, b, c) == SliceOf(insns, a, c)
  {
    hide AscendingAddresses;
    if insns != [] {
      TailAscends(insns);
      SlicesJoin(insns[1..], a, b, c);
      if b <= insns[0].address {
        TailAbove(insns, b);
        SliceBelow(insns[1..], a, b);
      }
    }
  }

  lemma {:induction false} FunctionsConserve(info: BinaryInfo, insns: seq<DisassembledInsn>, starts: seq<nat>, n: nat)
    requires AscendingAddresses(insns) && Increasing(starts) && 0 < n <= |starts|
    requires forall i :: 0 <= i < |starts| ==> starts[i] <= info.TextEnd()
    ensures Bodies(FunctionsAt(info, insns, starts, n)) == SliceOf(insns, starts[0], EndOf(info, starts, n - 1))
  {
    var start, end := starts[n - 1], EndOf(info, starts, n - 1);
    var body := SliceOf(insns, start, end);
    var before := FunctionsAt(info, insns, starts, n - 1);
    if n > 1 {
      FunctionsConserve(info, insns, starts, n - 1);
      SlicesJoin(insns, starts[0], start, end);
    }
    if body == [] {
      assert before + [] == before;
    } else {
      BodiesSnoc(before, DisassembledFunction(NameOf(info, start), start, end, body));
    }
  }

  predicate AllInText(info: BinaryInfo, insns: seq<DisassembledInsn>) {
    forall i :: 0 <= i < |insns| ==> info.InText(insns[i].address)
  }

  lemma StartsInText(info: BinaryInfo, insns: seq<DisassembledInsn>, starts: seq<nat>)
    requires AllInText(info, insns) && StartsOf(info, insns, starts)
    ensures forall i :: 0 <= i < |starts| ==> info.InText(starts[i])
  {
    forall i | 0 <= i < |starts| ensures info.InText(starts[i]) {
      assert starts[i] in starts;
    }
  }

  /** The functions' bodies, one after the other, are exactly the instructions from the first start on. */
  lemma DiscoveryConserves(info: BinaryInfo, insns: seq<DisassembledInsn>, starts: seq<nat>)
    requires AscendingAddresses(insns) && AllInText(info, insns) && StartsOf(info, insns, starts)
    ensures Bodies(FunctionsAt(info, insns, starts, |starts|))
            == if starts == [] then [] else SliceOf(insns, starts[0], info.TextEnd())
  {
    StartsInText(info, insns, starts);
    if starts != [] {
      FunctionsConserve(info, insns, starts, |starts|);
    }
  }

  /** How many leading instructions lie below an address. */
  function CountBelow(insns: seq<DisassembledInsn>, a: nat): (n: nat)
    ensures n <= |insns|
  {
    if insns == [] || a <= insns[0].address then 0 else 1 + CountBelow(insns[1..], a)
  }

  lemma {:induction false} CountBelowMonotone(insns: seq<DisassembledInsn>, a: nat, b: nat)
    requires a <= b
    ensures CountBelow(insns, a) <= CountBelow(insns, b)
  {
    if insns != [] && insns[0].address < a {
      CountBelowMonotone(insns[1..], a, b);
    }
  }

  lemma TailSlice(insns: seq<DisassembledInsn>, i: nat, j: nat)
    requires i <= j < |insns|
    ensures insns[1..][i..j] == insns[i + 1..j + 1]
  {
  }

  lemma HeadSlice(insns: seq<DisassembledInsn>, j: nat)
    requires j < |insns|
    ensures insns[0..j + 1] == [insns[0]] + insns[1..][0..j]
  {
  }

  /** A slice is a contiguous run of the instruction list. */
  lemma {:induction false} SliceIsRun(insns: seq<DisassembledInsn>, start: nat, end: nat)
    requires AscendingAddresses(insns) && start <= end
    ensures CountBelow(insns, start) <= CountBelow(insns, end)
    ensures SliceOf(insns, start, end) == insns[CountBelow(insns, start)..CountBelow(insns, end)]
  {
    CountBelowMonotone(insns, start, end);
    if insns != [] {
      var rest := insns[1..];
      if end <= insns[0].address {
        SliceBelow(insns, start, end);
      } else {
        SliceIsRun(rest, start, end);
        var i, j := CountBelow(rest, start), CountBelow(rest, end);
        TailSlice(insns, i, j);
        if start <= insns[0].address {
          assert rest != [] ==> insns[0].address < rest[0].address;
          HeadSlice(insns, j);
        }
      }
    }
  }

  /** Each function is a contiguous, ascending piece of the disassembly, within its address range. */
  lemma {:induction false} FunctionBodies(info: BinaryInfo, insns: seq<DisassembledInsn>, starts: seq<nat>, n: nat)
    requires Contiguous(insns) && AllInText(info, insns) && Increasing(starts) && n <= |starts|
    requires forall i :: 0 <= i < |starts| ==> info.InText(starts[i])
    ensures forall f :: f in FunctionsAt(info, insns, starts, n) ==>
              f.instructions != [] && Contiguous(f.instructions) && f.startAddr <= f.instructions[0].address
  {
    ContiguousIsAscending(insns);
    if n > 0 {
      FunctionBodies(info, insns, starts, n - 1);
      var start, end := starts[n - 1], EndOf(info, starts, n - 1);
      SliceIsRun(insns, start, end);
      var i, j := CountBelow(insns, start), CountBelow(insns, end);
      var body := insns[i..j];
      assert forall k :: 0 <= k < |body| ==> body[k] == insns[i + k];
      if body != [] {
        SliceMember(insns, start, end, 0);
      }
    }
  }

  lemma {:induction false} SliceMember(insns: seq<DisassembledInsn>, start: nat, end: nat, k: nat)
    requires k < |SliceOf(insns, start, end)|
    ensures start <= SliceOf(insns, start, end)[k].address < end
  {
    if start <= insns[0].address < end {
      if k > 0 {
        SliceMember(insns[1..], start, end, k - 1);
      }
    } else {
      SliceMember(insns[1..], start, end, k);
    }
  }

  lemma {:induction false} SliceKeeps(insns: seq<DisassembledInsn>, start: nat, end: nat, k: nat)
    requires k < |insns| && start <= insns[k].address < end
    ensures insns[k] in SliceOf(insns, start, end)
  {
    if k > 0 {
      SliceKeeps(insns[1..], start, end, k - 1);
    }
  }

  lemma {:induction false} FunctionKept(info: BinaryInfo, insns: seq<DisassembledInsn>, starts: seq<nat>, n: nat, i: nat)
    requires i < n <= |starts|
    ensures forall f :: f in FunctionAt(info, insns, starts, i) ==> f in FunctionsAt(info, insns, starts, n)
  {
    hide FunctionAt;
    if i < n - 1 {
      FunctionKept(info, insns, starts, n - 1, i);
    }
  }

  /** A start that is an instruction's address begins a discovered function with that very instruction. */
  lemma StartIsFunction(info: BinaryInfo, insns: seq<DisassembledInsn>, starts: seq<nat>, t: nat)
    returns (f: DisassembledFunction)
    requires AscendingAddresses(insns) && AllInText(info, insns) && StartsOf(info, insns, starts)
    requires t < |insns| && insns[t].address in starts
    ensures f in FunctionsAt(info, insns, starts, |starts|)
    ensures f.startAddr == insns[t].address && f.instructions != [] && f.instructions[0] == insns[t]
    ensures f.name == NameOf(info, insns[t].address)
  {
    hide IsStart;
    var a := insns[t].address;
    var i :| 0 <= i < |starts| && starts[i] == a;
    var end := EndOf(info, starts, i);
    StartsInText(info, insns, starts);
    SliceEndAbove(info, starts, i);
    SliceKeeps(insns, a, end, t);
    SliceIsRun(insns, a, end);
    CountBelowExact(insns, t);
    FunctionKept(info, insns, starts, |starts|, i);
    f := FunctionAt(info, insns, starts, i)[0];
  }

  /** A direct call to a disassembled instruction of the text section reaches a discovered function
      that begins with that very instruction. */
  lemma CallTargetsAreFunctions(info: BinaryInfo, insns: seq<DisassembledInsn>, starts: seq<nat>, c: nat, t: nat)
    returns (f: DisassembledFunction)
    requires AscendingAddresses(insns) && AllInText(info, insns) && StartsOf(info, insns, starts)
    requires c < |insns| && t < |insns| && CallsTo(insns[c], insns[t].address)
    ensures f in FunctionsAt(info, insns, starts, |starts|)
    ensures f.startAddr == insns[t].address && f.instructions != [] && f.instructions[0] == insns[t]
  {
    var a := insns[t].address;
    assert CalledAmong(insns, |insns|, a) && IsAddress(insns, a) && info.InText(a);
    assert a in starts;
    f := StartIsFunction(info, insns, starts, t);
  }

  lemma SliceEndAbove(info: BinaryInfo, starts: seq<nat>, i: nat)
    requires Increasing(starts) && i < |starts| && info.InText(starts[i])
    ensures starts[i] < EndOf(info, starts, i)
  {
  }

  lemma {:induction false} CountBelowExact(insns: seq<DisassembledInsn>, t: nat)
    requires AscendingAddresses(insns) && t < |insns|
    ensures CountBelow(insns, insns[t].address) == t
  {
    if t > 0 {
      assert insns[0].address < insns[t].address;
      CountBelowExact(insns[1..], t - 1);
    }
  }

  // What the starts and the functions are, spelled out.

  predicate OccursAt(s: string, sub: string, j: nat) {
    j + |sub| <= |s| && s[j..j + |sub|] == sub
  }

  /** push rbp in its one-byte encoding, at address a. */
  predicate PushesFrameAt(insn: DisassembledInsn, a: nat) {
    && insn.address == a && insn.mnemonic == "push" && insn.bytes != [] && insn.bytes[0] == 0x55
    && exists j :: 0 <= j <= |insn.opStr| && OccursAt(insn.opStr, "rbp", j)
  }

  predicate DirectCallTo(insn: DisassembledInsn, a: nat) {
    insn.mnemonic == "call" && ParseHexTarget(insn.opStr).Some? && ParseHexTarget(insn.opStr).value == a
  }

  lemma MentionsExactly(s: string)
    ensures HasSubstring(s, "rbp") <==> exists j :: 0 <= j <= |s| && OccursAt(s, "rbp", j)
  {
    forall j: nat | j <= |s| ensures "rbp" <= s[j..] <==> OccursAt(s, "rbp", j) {
      OccursExactly(s, "rbp", j);
    }
  }

  lemma OccursExactly(s: string, sub: string, j: nat)
    requires j <= |s|
    ensures sub <= s[j..] <==> OccursAt(s, sub, j)
  {
    if j + |sub| <= |s| {
      assert s[j..][..|sub|] == s[j..j + |sub|];
    }
  }

  lemma PrologueExactly(insn: DisassembledInsn, a: nat)
    ensures PrologueAt(insn, a) <==> PushesFrameAt(insn, a)
  {
    hide HasSubstring, OccursAt;
    MentionsExactly(insn.opStr);
  }

  /** An address is a start exactly when it is a symbol or the entry point in the text range, the address of a
      push rbp, or the address of a disassembled instruction of the text range that is called directly. */
  lemma StartsExactly(info: BinaryInfo, insns: seq<DisassembledInsn>, starts: seq<nat>, a: nat)
    requires StartsOf(info, insns, starts)
    ensures a in starts <==>
              || (info.textAddr <= a < info.textAddr + info.textLength && (a in info.symbols || a == info.entryPoint))
              || (exists i :: 0 <= i < |insns| && PushesFrameAt(insns[i], a))
              || (&& info.textAddr <= a < info.textAddr + info.textLength
                  && (exists i :: 0 <= i < |insns| && insns[i].address == a)
                  && (exists i :: 0 <= i < |insns| && DirectCallTo(insns[i], a)))
  {
    hide HasSubstring, ParseHexTarget, PushesFrameAt;
    forall i | 0 <= i < |insns| ensures PrologueAt(insns[i], a) <==> PushesFrameAt(insns[i], a) {
      PrologueExactly(insns[i], a);
    }
    forall i | 0 <= i < |insns| ensures CallsTo(insns[i], a) <==> DirectCallTo(insns[i], a) {
    }
    assert PrologueAmong(insns, |insns|, a) <==> exists i :: 0 <= i < |insns| && PushesFrameAt(insns[i], a);
    assert CalledAmong(insns, |insns|, a) <==> exists i :: 0 <= i < |insns| && DirectCallTo(insns[i], a);
  }

  /** Every push rbp begins a discovered function. */
  lemma PushBeginsFunction(info: BinaryInfo, insns: seq<DisassembledInsn>, starts: seq<nat>, t: nat)
    returns (f: DisassembledFunction)
    requires AscendingAddresses(insns) && AllInText(info, insns) && StartsOf(info, insns, starts) && t < |insns|
    requires insns[t].mnemonic == "push" && insns[t].opStr == "rbp" && insns[t].bytes != [] && insns[t].bytes[0] == 0x55
    ensures f in FunctionsAt(info, insns, starts, |starts|)
    ensures f.startAddr == insns[t].address && f.instructions != [] && f.instructions[0] == insns[t]
  {
    hide StartsOf, AllInText, FunctionsAt;
    assert OccursAt(insns[t].opStr, "rbp", 0);
    assert PushesFrameAt(insns[t], insns[t].address);
    StartsExactly(info, insns, starts, insns[t].address);
    f := StartIsFunction(info, insns, starts, t);
  }

  /** A function runs from its start to the next one, or to the end of the text; it holds exactly the
      instructions in between, and is named by its symbol, or after its address. */
  lemma FunctionExactly(info: BinaryInfo, insns: seq<DisassembledInsn>, starts: seq<nat>, n: nat, f: DisassembledFunction)
    requires Increasing(starts) && n <= |starts| && f in FunctionsAt(info, insns, starts, n)
    ensures f.startAddr in starts && (f.endAddr in starts || f.endAddr == info.textAddr + info.textLength)
    ensures forall a :: a in starts ==> a <= f.startAddr || f.endAddr <= a
    ensures f.name == if f.startAddr in info.symbols then info.symbols[f.startAddr] else "func_0x" + Hex(f.startAddr)
    ensures forall insn :: insn in f.instructions <==> insn in insns && f.startAddr <= insn.address < f.endAddr
    decreases n
  {
    hide Hex;
    if f !in FunctionAt(info, insns, starts, n - 1) {
      FunctionExactly(info, insns, starts, n - 1, f);
    } else {
      forall a | a in starts ensures a <= f.startAddr || f.endAddr <= a {
        var j :| 0 <= j < |starts| && starts[j] == a;
      }
      forall insn ensures insn in f.instructions <==> insn in insns && f.startAddr <= insn.address < f.endAddr {
        SliceExactly(insns, f.startAddr, f.endAddr, insn);
      }
    }
  }

  lemma {:induction false} SliceExactly(insns: seq<DisassembledInsn>, start: nat, end: nat, insn: DisassembledInsn)
    ensures insn in SliceOf(insns, start, end) <==> insn in insns && start <= insn.address < end
  {
    if insns != [] {
      SliceExactly(insns[1..], start, end, insn);
    }
  }
}
