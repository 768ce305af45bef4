/** The decompiler as a whole: control-flow graph, lifting and emission, against the processor. */
module Correctness {
  import opened Wrappers
  import opened Words
  import opened Ir
  import opened Frontend
  import Lifter
  import Cfg
  import opened CLang
  import opened Backend
  import opened X86
  import opened Capstone
  import opened OperandMeaning
  import opened Flags
  import opened Instructions
  import opened Layout
  import opened Machine
  import opened Simulation

  /** `func` is the disassembly of the machine code p. */
  predicate Disassembles(func: DisassembledFunction, p: seq<XLine>) {
    Placed(p) && func.instructions == Disassembly(p)
  }

  lemma DecompiledItems(func: DisassembledFunction, p: seq<XLine>, names: Names)
    requires Disassembles(func, p)
    ensures Decompile(func, names) == ItemsFor(p, names)
  {
    hide EmitFunction, Lifter.LiftFunction, Cfg.CfgOf, Cfg.Lead, FlatItems;
    PlacedContiguous(p);
    EmissionIsFlat(func, names);
  }

  /** Code for which decompilation is right: jumps stay inside, and along every path only faithful
      forms occur. */
  ghost predicate Supported(p: seq<XLine>) {
    Closed(p) && Admissible(p)
  }

  /** The least number is not negated in the first n steps. */
  ghost predicate NoLeastNegated(p: seq<XLine>, strays: nat -> XFlags, x: XState, n: nat)
    requires p != []
  {
    forall i :: 0 <= i < n ==> !NextNegatesLeast(p, XRun(p, strays, x, i))
  }

  lemma RunsAreGood(p: seq<XLine>, strays: nat -> XFlags, x: XState, n: nat)
    requires Placed(p) && Admissible(p) && NoLeastNegated(p, strays, x, n)
    ensures GoodRun(p, strays, x, n)
  {
    hide Admissible, NextFaithful, NextNegatesLeast, XRun, SourceAfter;
    forall i | 0 <= i < n ensures NextFaithful(p, XRun(p, strays, x, i), SourceAfter(p, strays, x, i)) {
      AdmissibleRunsFaithfully(p, strays, x, i);
    }
  }

  lemma AgreeIsRelated(x: XState, c: CState)
    requires Agree(x, c)
    ensures Related(Stale, x, c)
  {
  }

  /** For every supported function, every start state, every choice of undefined flags and every number
      of steps: the C program reaches, in at least as many steps, a configuration that matches the
      processor's, with the same registers and memory. */
  lemma DecompilationIsCorrect(func: DisassembledFunction, p: seq<XLine>, names: Names, callee: Callee,
                               strays: nat -> XFlags, x: XState, c: CState, n: nat)
    returns (m: nat)
    requires Disassembles(func, p) && Supported(p) && Agree(x, c) && NoLeastNegated(p, strays, x, n)
    ensures m >= n
    ensures Matches(p, names, SourceAfter(p, strays, x, n), XRun(p, strays, x, n),
                    CRun(Decompile(func, names), callee, Running(0, c), m))
  {
    hide Decompile, Agree, Related, Admissible, Closed, Matches, CRun, XRun, SourceAfter, NoLeastNegated, GoodRun;
    DecompiledItems(func, p, names);
    RunsAreGood(p, strays, x, n);
    AgreeIsRelated(x, c);
    m := RunSimulated(p, names, callee, strays, x, c, n);
  }

  // Stopping.

  lemma {:induction false} StoppedForGood(items: seq<CItem>, callee: Callee, c: CConfig, m: nat, k: nat)
    requires m <= k && !CRun(items, callee, c, m).Running?
    ensures CRun(items, callee, c, k) == CRun(items, callee, c, m)
    decreases k
  {
    if m < k {
      StoppedForGood(items, callee, c, m, k - 1);
    }
  }

  /** The C program never gets stuck and never jumps to a missing label. */
  lemma NeverStuck(func: DisassembledFunction, p: seq<XLine>, names: Names, callee: Callee,
                   strays: nat -> XFlags, x: XState, c: CState, m: nat)
    requires Disassembles(func, p) && Supported(p) && Agree(x, c) && NoLeastNegated(p, strays, x, m)
    ensures var r := CRun(Decompile(func, names), callee, Running(0, c), m); r.Running? || r.Returned?
  {
    hide Decompile, Agree, Related, Supported, RelatedOnReturn, CRun, XRun, SourceAfter, NoLeastNegated;
    var k := DecompilationIsCorrect(func, p, names, callee, strays, x, c, m);
    var items := Decompile(func, names);
    if !CRun(items, callee, Running(0, c), m).Running? {
      StoppedForGood(items, callee, Running(0, c), m, k);
    }
  }

  ghost predicate Returns(items: seq<CItem>, callee: Callee, c: CState) {
    exists m :: CRun(items, callee, Running(0, c), m).Returned?
  }

  ghost predicate Stops(p: seq<XLine>, strays: nat -> XFlags, x: XState)
    requires p != []
  {
    exists n :: !XRun(p, strays, x, n).XAt?
  }

  /** The C program returns exactly when the function does. */
  lemma TerminationAgrees(func: DisassembledFunction, p: seq<XLine>, names: Names, callee: Callee,
                          strays: nat -> XFlags, x: XState, c: CState)
    requires Disassembles(func, p) && Supported(p) && Agree(x, c)
    requires forall n :: NoLeastNegated(p, strays, x, n)
    ensures Returns(Decompile(func, names), callee, c) <==> Stops(p, strays, x)
  {
    hide Decompile, Agree, Related, Supported, RelatedOnReturn, CRun, XRun, SourceAfter, NoLeastNegated;
    var items := Decompile(func, names);
    if n :| !XRun(p, strays, x, n).XAt? {
      var m := DecompilationIsCorrect(func, p, names, callee, strays, x, c, n);
      assert CRun(items, callee, Running(0, c), m).Returned?;
    }
    if m :| CRun(items, callee, Running(0, c), m).Returned? {
      var k := DecompilationIsCorrect(func, p, names, callee, strays, x, c, m);
      StoppedForGood(items, callee, Running(0, c), m, k);
      assert !XRun(p, strays, x, m).XAt?;
    }
  }

  /** Whenever both stop, the results agree: rax is the value returned, the memory is the same, and so is
      every register, save that a return leaves the return address on the emitted stack. */
  lemma ResultsAgree(func: DisassembledFunction, p: seq<XLine>, names: Names, callee: Callee,
                     strays: nat -> XFlags, x: XState, c: CState, n: nat, m: nat)
    requires Disassembles(func, p) && Supported(p) && Agree(x, c) && NoLeastNegated(p, strays, x, n)
    requires !XRun(p, strays, x, n).XAt? && CRun(Decompile(func, names), callee, Running(0, c), m).Returned?
    ensures var y, r := XRun(p, strays, x, n), CRun(Decompile(func, names), callee, Running(0, c), m);
      && r.value == y.state.regs(RAX) && r.state.mem == y.state.mem
      && (forall q: VarBase :: q != RFlags && q != RSP ==> r.state.regs(q) == y.state.regs(q))
      && y.state.regs(RSP) == if y.XDone? then ToWord(r.state.regs(RSP) + 8) else r.state.regs(RSP)
  {
    hide Decompile, Supported, CRun, XRun, SourceAfter, NoLeastNegated, FlagsAgree;
    var items := Decompile(func, names);
    var k := DecompilationIsCorrect(func, p, names, callee, strays, x, c, n);
    if m <= k {
      StoppedForGood(items, callee, Running(0, c), m, k);
    } else {
      StoppedForGood(items, callee, Running(0, c), k, m);
    }
  }

  /** Negating the least number, and nothing else, gets the C program stuck: the processor goes on, the
      C program is undefined. */
  lemma NegationSticks(func: DisassembledFunction, p: seq<XLine>, names: Names, callee: Callee,
                       strays: nat -> XFlags, x: XState, c: CState, n: nat)
    returns (m: nat)
    requires Disassembles(func, p) && Supported(p) && Agree(x, c) && NoLeastNegated(p, strays, x, n)
    requires NextNegatesLeast(p, XRun(p, strays, x, n))
    ensures CRun(Decompile(func, names), callee, Running(0, c), m) == Stuck
  {
    hide Decompile, Agree, Supported, RelatedOnReturn, CRun, XRun;
    hide SourceAfter, NoLeastNegated, Related, Faithful, ExecLines, Lines;
    hide ItemsFor, PosFor, NegatesLeast;
    var y, source := XRun(p, strays, x, n), SourceAfter(p, strays, x, n);
    var before := DecompilationIsCorrect(func, p, names, callee, strays, x, c, n);
    var mid := CRun(Decompile(func, names), callee, Running(0, c), before);
    var k := Current(p, y).value;
    SupportedStep(p, strays, x, n);
    DecompiledItems(func, p, names);
    FaithfulIsSound(p[k].insn, NextOf(p[k]), names, source, y.state, mid.state, strays(n), callee);
    var more := RunSubset(p, names, callee, k, mid.state);
    CRunSplit(Decompile(func, names), callee, Running(0, c), before, more);
    m := before + more;
  }

  lemma SupportedStep(p: seq<XLine>, strays: nat -> XFlags, x: XState, n: nat)
    requires Placed(p) && Supported(p)
    ensures NextFaithful(p, XRun(p, strays, x, n), SourceAfter(p, strays, x, n))
  {
    AdmissibleRunsFaithfully(p, strays, x, n);
  }

  /** For a whole run: the C program gets stuck at some point exactly when the least number is negated. */
  lemma StuckExactly(func: DisassembledFunction, p: seq<XLine>, names: Names, callee: Callee,
                     strays: nat -> XFlags, x: XState, c: CState)
    requires Disassembles(func, p) && Supported(p) && Agree(x, c)
    ensures (exists m :: CRun(Decompile(func, names), callee, Running(0, c), m) == Stuck)
            <==> exists n :: NextNegatesLeast(p, XRun(p, strays, x, n))
  {
    hide Decompile, Agree, Supported, CRun, XRun, NextNegatesLeast;
    var items := Decompile(func, names);
    if n :| NextNegatesLeast(p, XRun(p, strays, x, n)) {
      var first := FirstNegation(p, strays, x, n);
      var m := NegationSticks(func, p, names, callee, strays, x, c, first);
    } else {
      forall m ensures CRun(items, callee, Running(0, c), m) != Stuck {
        NeverStuck(func, p, names, callee, strays, x, c, m);
      }
    }
  }

  lemma {:induction false} FirstNegation(p: seq<XLine>, strays: nat -> XFlags, x: XState, n: nat) returns (first: nat)
    requires p != [] && NextNegatesLeast(p, XRun(p, strays, x, n))
    ensures NextNegatesLeast(p, XRun(p, strays, x, first)) && NoLeastNegated(p, strays, x, first)
  {
    hide NextNegatesLeast, XRun;
    if i :| 0 <= i < n && NextNegatesLeast(p, XRun(p, strays, x, i)) {
      first := FirstNegation(p, strays, x, i);
    } else {
      first := n;
    }
  }

  // A supported function: count rcx down to zero.

  function Countdown(): seq<XLine> {
    [
      XLine(0x1000, 7, XMov(XReg(RCX), XImm(10))),
      XLine(0x1007, 3, XDec(XReg(RCX))),
      XLine(0x100a, 4, XCmp(XReg(RCX), XImm(0))),
      XLine(0x100e, 2, XJcc(NotEqual, 0x1007)),
      XLine(0x1010, 1, XRet)
    ]
  }

  lemma CountdownPlaced()
    ensures Placed(Countdown())
  {
    hide XOp.Value;
  }

  lemma CountdownSteps(k: nat, l: nat)
    requires k < 5 && l < 5 && StaticStep(Countdown(), k, l)
    ensures l == k + 1 || (k == 3 && l == 1)
  {
    assert TargetOf(Countdown()[3].insn) == Some(0x1007);
    assert forall j :: 0 <= j < 5 && j != 3 ==> TargetOf(Countdown()[j].insn) == None;
  }

  lemma CountdownFaithful(k: nat)
    requires k < 5
    ensures Faithful(Countdown()[k].insn, [Stale, Stale, Stale, FromCmp, FromCmp][k])
  {
  }

  lemma CountdownRespects(k: nat, l: nat)
    requires k < 5 && l < 5 && (l == k + 1 || (k == 3 && l == 1))
    ensures var sources := [Stale, Stale, Stale, FromCmp, FromCmp];
      Weaker(sources[l], Transfer(Countdown()[k].insn, sources[k]))
  {
    hide Readable;
    assert Readable(Stale) == {} by {
      StaleReadsNothing();
    }
  }

  lemma StaleReadsNothing()
    ensures Readable(Stale) == {}
  {
  }

  lemma CountdownSupported()
    ensures Placed(Countdown()) && Supported(Countdown())
  {
    hide IndexAt, StaticStep, Admissible, Faithful, Weaker, Transfer, Placed;
    var p, sources := Countdown(), [Stale, Stale, Stale, FromCmp, FromCmp];
    CountdownPlaced();
    IndexOfAddress(p, 1);
    forall k, l | 0 <= k < |p| && 0 <= l < |p| && StaticStep(p, k, l)
      ensures Weaker(sources[l], Transfer(p[k].insn, sources[k]))
    {
      CountdownSteps(k, l);
      CountdownRespects(k, l);
    }
    forall k | 0 <= k < |p| ensures Faithful(p[k].insn, sources[k]) {
      CountdownFaithful(k);
    }
    CertificateSuffices(p, sources);
  }
}
