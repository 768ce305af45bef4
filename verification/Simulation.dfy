/** The central theorem: over runs of every length, the emitted C program does what the function does. */
module Simulation {
  import opened Wrappers
  import opened Words
  import opened Ir
  import LiftProofs
  import Terminators
  import Lifter
  import Cfg
  import opened CLang
  import opened Backend
  import opened X86
  import opened Capstone
  import opened OperandProofs
  import opened Flags
  import opened Instructions
  import opened Positions
  import opened Execution
  import opened Machine

  /** The C program for a function, as laid out by `Layout.EmissionIsFlat`. */
  function ItemsFor(p: seq<XLine>, names: Names): seq<CItem> {
    Program(Disassembly(p), Cfg.Lead(Disassembly(p)), names)
  }

  function PosFor(p: seq<XLine>, names: Names, k: nat): nat
    requires k <= |p|
  {
    Pos(Disassembly(p), Cfg.Lead(Disassembly(p)), names, k)
  }

  // The lines of an instruction.

  /** The mnemonic and address kept by a dropped instruction are not printed as code. */
  lemma LoweredPrints(i: XInsn, mn: string, addr: nat, next: nat, names: Names)
    requires i.Encodable()
    ensures LinesOf(LiftProofs.Lowered(i, mn, addr, next, map[]), names) == Lines(i, next, names)
    ensures Lines(i, next, names) != []
  {
    hide EmitOperand, EmitAddr, EmitCondition, OperandOf, MemOperandOf;
  }

  function NextOf(line: XLine): nat {
    line.address + line.size
  }

  lemma LinesAreLowered(line: XLine, names: Names)
    requires line.insn.Encodable()
    ensures InsnLines(Disassemble(line), names) == Lines(line.insn, NextOf(line), names)
  {
    hide Lifter.LiftInsn, LiftProofs.Lowered, LinesOf, Lines, MnemonicText, OperandTexts;
    LiftProofs.InstructionLifted(line, map[]);
    LoweredPrints(line.insn, MnemonicText(line.insn), line.address, NextOf(line), names);
  }

  /** From the position of instruction k, the C program runs through its lines. */
  lemma RunSubset(p: seq<XLine>, names: Names, callee: Callee, k: nat, s: CState) returns (m: nat)
    requires k < |p| && p[k].insn.Encodable()
    ensures m > 0
    ensures CRun(ItemsFor(p, names), callee, Running(PosFor(p, names, k), s), m)
            == Resume(ItemsFor(p, names), PosFor(p, names, k + 1), ExecLines(Lines(p[k].insn, NextOf(p[k]), names), s, callee))
  {
    hide Program, Pos, InsnLines, Lines, ExecLines, Resume, CRun, Passes, Cfg.Lead, Disassemble;
    var insns := Disassembly(p);
    m := RunInsn(insns, Cfg.Lead(insns), names, callee, k, s);
    assert insns[k] == Disassemble(p[k]);
    LinesAreLowered(p[k], names);
  }

  // Jumps.

  /** The CFG sees the target of a jump. */
  lemma JumpSeen(line: XLine, t: word)
    requires TargetOf(line.insn) == Some(t)
    ensures Cfg.JumpsTo(Disassemble(line), t)
  {
    hide NatText, ConditionText, Text.ParseHexTarget, Cfg.IsCondJump;
    TargetTextParsed(t);
    if line.insn.XJcc? {
      Terminators.ConditionKnown(line.insn.c);
    }
  }

  lemma TargetLeads(p: seq<XLine>, k: nat, l: nat)
    requires k < |p| && l < |p| && TargetOf(p[k].insn) == Some(p[l].address)
    ensures Cfg.Lead(Disassembly(p))(l)
  {
    var insns := Disassembly(p);
    JumpSeen(p[k], p[l].address);
    assert Cfg.JumpsTo(insns[k], insns[l].address);
  }

  /** A jump inside the function finds the label of its target. */
  lemma TargetLabelled(p: seq<XLine>, names: Names, k: nat, t: word)
    requires Placed(p) && k < |p| && TargetOf(p[k].insn) == Some(t) && IndexAt(p, t) < |p|
    ensures LabelAt(ItemsFor(p, names), t) == Some(PosFor(p, names, IndexAt(p, t)))
  {
    hide Pos, Program, Cfg.Lead;
    var insns, l := Disassembly(p), IndexAt(p, t);
    PlacedContiguous(p);
    TargetLeads(p, k, l);
    LeaderIsLabelled(insns, Cfg.Lead(insns), names, l);
  }

  // The relation.

  /** Before corresponding instructions with related states; after a return, with rsp still to be popped;
      or after the end, where the C program has taken its default return. */
  ghost predicate Matches(p: seq<XLine>, names: Names, source: Source, x: XConfig, c: CConfig) {
    match x
    case XAt(pc, s) => c.Running? && c.pos == PosFor(p, names, IndexAt(p, pc)) && Related(source, s, c.state)
    case XDone(s) => c.Returned? && RelatedOnReturn(s, c.state) && c.value == s.regs(RAX)
    case XLeft(s) => c.Returned? && Related(source, s, c.state) && c.value == s.regs(RAX)
  }

  lemma ReturnsByDefault(p: seq<XLine>, names: Names, callee: Callee, s: CState)
    ensures CRun(ItemsFor(p, names), callee, Running(PosFor(p, names, |p|), s), 1) == Returned(s.regs(RAX), s)
  {
    hide Pos, Program, Cfg.Lead;
    var insns := Disassembly(p);
    var items, i := ItemsFor(p, names), PosFor(p, names, |p|);
    ReturnAtEnd(insns, Cfg.Lead(insns), names);
    RunOnce(items, callee, Running(i, s));
    ReturnLine(items, callee, i, s);
  }

  lemma ReturnLine(items: seq<CItem>, callee: Callee, i: nat, s: CState)
    requires i < |items| && items[i] == CCode([CReturnRax])
    ensures CStep(items, callee, Running(i, s)) == Returned(s.regs(RAX), s)
  {
    assert ExecStmt(CReturnRax, s, callee) == Defined(s, Leaves);
    assert ExecLine([CReturnRax], s, callee) == Defined(s, Leaves);
  }

  /** Related outcomes lead to matching configurations. */
  lemma OutcomesMatch(p: seq<XLine>, names: Names, k: nat, source: Source, x: XOutcome, r: COutcome)
    requires Placed(p) && Closed(p) && k < |p| && OutcomesAgree(source, x, r)
    requires x.next.XGoto? ==> TargetOf(p[k].insn) == Some(x.next.target)
    ensures var after := match x.next
                         case XOnward => XAt(NextOf(p[k]), x.state)
                         case XGoto(t) => XAt(t, x.state)
                         case XReturn => XDone(x.state);
      Matches(p, names, source, after, Resume(ItemsFor(p, names), PosFor(p, names, k + 1), r))
  {
    hide ItemsFor, PosFor, Related, RelatedOnReturn;
    match x.next
    case XOnward => IndexAfter(p, k);
    case XGoto(t) => TargetLabelled(p, names, k, t);
    case XReturn => SameResult(x.state, r.state);
  }

  lemma SameResult(x: XState, c: CState)
    requires RelatedOnReturn(x, c)
    ensures x.regs(RAX) == c.regs(RAX)
  {
  }

  /** One step of the processor is a positive number of steps of the C program. */
  lemma StepSimulated(p: seq<XLine>, names: Names, callee: Callee, source: Source, x: XConfig, c: CConfig, stray: XFlags)
    returns (m: nat)
    requires Placed(p) && Closed(p) && Matches(p, names, source, x, c)
    requires NextFaithful(p, x, source) && !NextNegatesLeast(p, x)
    ensures m > 0
    ensures Matches(p, names, NextSource(p, x, source), XStep(p, x, stray), CRun(ItemsFor(p, names), callee, c, m))
  {
    hide ItemsFor, PosFor, Lines, ExecLines, Resume, CStep, XExec, Faithful, Transfer, NegatesLeast, OutcomesAgree, Related;
    hide RelatedOnReturn, CRun;
    var items := ItemsFor(p, names);
    if !x.XAt? {
      m := 1;
      RunOnce(items, callee, c);
      ReturnedStays(items, callee, c);
    } else if Current(p, x).None? {
      m := 1;
      ReturnsByDefault(p, names, callee, c.state);
      RelatedResult(source, x.state, c.state);
    } else {
      var k := Current(p, x).value;
      var i := p[k].insn;
      m := RunSubset(p, names, callee, k, c.state);
      FaithfulIsSound(i, NextOf(p[k]), names, source, x.state, c.state, stray, callee);
      ExecStaysStatic(i, x.state, stray);
      OutcomesMatch(p, names, k, Transfer(i, source), XExec(i, x.state, stray),
                    ExecLines(Lines(i, NextOf(p[k]), names), c.state, callee));
    }
  }

  lemma RelatedResult(source: Source, x: XState, c: CState)
    requires Related(source, x, c)
    ensures x.regs(RAX) == c.regs(RAX)
  {
  }

  lemma ReturnedStays(items: seq<CItem>, callee: Callee, c: CConfig)
    requires !c.Running?
    ensures CStep(items, callee, c) == c
  {
  }

  /** Runs of every length. */
  lemma {:induction false} RunSimulated(p: seq<XLine>, names: Names, callee: Callee, strays: nat -> XFlags,
                                        x: XState, c: CState, n: nat) returns (m: nat)
    requires Placed(p) && Closed(p) && Related(Stale, x, c) && GoodRun(p, strays, x, n)
    ensures m >= n
    ensures Matches(p, names, SourceAfter(p, strays, x, n), XRun(p, strays, x, n),
                    CRun(ItemsFor(p, names), callee, Running(0, c), m))
  {
    hide ItemsFor, NextSource, XStep, CStep, Related, Matches, NextFaithful, NextNegatesLeast;
    if n == 0 {
      m := 0;
      StartsMatch(p, names, x, c);
    } else {
      var before := RunSimulated(p, names, callee, strays, x, c, n - 1);
      var items := ItemsFor(p, names);
      var mid := CRun(items, callee, Running(0, c), before);
      var more := StepSimulated(p, names, callee, SourceAfter(p, strays, x, n - 1), XRun(p, strays, x, n - 1), mid, strays(n - 1));
      CRunSplit(items, callee, Running(0, c), before, more);
      m := before + more;
    }
  }

  lemma StartsMatch(p: seq<XLine>, names: Names, x: XState, c: CState)
    requires Placed(p) && Related(Stale, x, c)
    ensures Matches(p, names, Stale, XAt(p[0].address, x), Running(0, c))
  {
    hide Related;
    IndexOfAddress(p, 0);
    assert PosFor(p, names, 0) == 0;
  }
}
