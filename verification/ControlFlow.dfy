/** Control flow for functions given as text: the emitted program executes exactly the trace of the
    instruction list, and that trace is a walk of the graph. */
module ControlFlow {
  import opened Wrappers
  import opened Words
  import opened Text
  import opened Ir
  import opened Frontend
  import CfgWalk
  import Cfg
  import opened Lifter
  import opened CLang
  import opened Backend
  import opened Flags
  import opened Instructions
  import opened Layout
  import opened Positions
  import opened Execution
  import opened Gotos
  import opened FlatMachine

  // Where a run is.

  /** The program is at an item of instruction k. */
  predicate Inside(insns: seq<DisassembledInsn>, lead: nat -> bool, names: Names, k: nat, pos: nat) {
    k < |insns| && Pos(insns, lead, names, k) <= pos < Pos(insns, lead, names, k + 1)
  }

  lemma StartsInside(insns: seq<DisassembledInsn>, lead: nat -> bool, names: Names, k: nat)
    requires k < |insns|
    ensures Inside(insns, lead, names, k, Pos(insns, lead, names, k))
  {
    hide InsnItems, Pos, LabelItems, Program, CodeItems, InsnLines;
    InsnAtPos(insns, lead, names, k);
    ItemsAreLines(insns[k], names);
    CodeItemsLength(InsnLines(insns[k], names));
  }

  lemma {:induction false} PosIncreases(insns: seq<DisassembledInsn>, lead: nat -> bool, names: Names, k: nat, l: nat)
    requires k < l <= |insns|
    ensures Pos(insns, lead, names, k) < Pos(insns, lead, names, l)
    decreases l
  {
    hide Pos;
    StartsInside(insns, lead, names, l - 1);
    if k < l - 1 {
      PosIncreases(insns, lead, names, k, l - 1);
    }
  }

  // The instructions that a run enters.

  predicate StartsAt(insns: seq<DisassembledInsn>, lead: nat -> bool, names: Names, k: nat, pos: nat) {
    k < |insns| && pos == Pos(insns, lead, names, k)
  }

  /** The instruction that begins at the program's position, if one does. */
  ghost function Entering(insns: seq<DisassembledInsn>, names: Names, c: CConfig): seq<nat> {
    if c.Running? && exists k :: StartsAt(insns, Cfg.Lead(insns), names, k, c.pos) then
      var k :| StartsAt(insns, Cfg.Lead(insns), names, k, c.pos);
      [k]
    else []
  }

  /** The instructions entered in the first n steps, in order. */
  ghost function Entered(insns: seq<DisassembledInsn>, names: Names, items: seq<CItem>, callee: Callee, s: CState, n: nat)
    : seq<nat>
  {
    if n == 0 then Entering(insns, names, Running(0, s))
    else
      Entered(insns, names, items, callee, s, n - 1)
      + if CRun(items, callee, Running(0, s), n - 1).Running?
        then Entering(insns, names, CRun(items, callee, Running(0, s), n)) else []
  }

  lemma EntersNext(insns: seq<DisassembledInsn>, names: Names, k: nat, s: CState)
    requires k <= |insns|
    ensures Entering(insns, names, Running(Pos(insns, Cfg.Lead(insns), names, k), s)) == if k < |insns| then [k] else []
  {
    hide Pos, Cfg.Lead;
    var lead := Cfg.Lead(insns);
    if k < |insns| {
      assert StartsAt(insns, lead, names, k, Pos(insns, lead, names, k));
    }
    forall l: nat | StartsAt(insns, lead, names, l, Pos(insns, lead, names, k)) ensures l == k {
      if l < k {
        PosIncreases(insns, lead, names, l, k);
      } else if k < l {
        PosIncreases(insns, lead, names, k, l);
      }
    }
  }

  lemma EntersNothing(insns: seq<DisassembledInsn>, names: Names, k: nat, pos: nat, s: CState)
    requires k < |insns| && Pos(insns, Cfg.Lead(insns), names, k) < pos < Pos(insns, Cfg.Lead(insns), names, k + 1)
    ensures Entering(insns, names, Running(pos, s)) == []
  {
    hide Pos, Cfg.Lead;
    var lead := Cfg.Lead(insns);
    forall l: nat | StartsAt(insns, lead, names, l, pos) ensures false {
      if l < k {
        PosIncreases(insns, lead, names, l, k);
      } else if k + 1 < l {
        PosIncreases(insns, lead, names, k + 1, l);
      }
    }
  }

  // One instruction.

  /** The program stands where the list does. */
  ghost predicate FlatMatches(insns: seq<DisassembledInsn>, names: Names, f: FlatConfig, c: CConfig) {
    match f
    case At(k, s) => k <= |insns| && c == Running(Pos(insns, Cfg.Lead(insns), names, k), s)
    case Over(s) => c == Returned(s.regs(RAX), s)
    case Broken => c == Stuck
  }

  lemma TargetLeads(insns: seq<DisassembledInsn>, k: nat, l: nat)
    requires k < |insns| && l < |insns| && Cfg.JumpsTo(insns[k], insns[l].address)
    ensures Cfg.Lead(insns)(l)
  {
    hide Cfg.JumpsTo, Cfg.IsControl;
    assert Cfg.TargetedAmong(insns, |insns|, insns[l].address);
  }

  lemma LabelOfTarget(insns: seq<DisassembledInsn>, names: Names, k: nat)
    requires AscendingAddresses(insns) && JumpsStayInside(insns) && k < |insns|
    requires FormOfInsn(insns[k]).FJmp? || FormOfInsn(insns[k]).FJcc?
    ensures var l, t := IndexOf(insns, TargetOfInsn(insns[k])), TargetOfInsn(insns[k]);
      l < |insns| && LabelAt(Program(insns, Cfg.Lead(insns), names), t) == Some(Pos(insns, Cfg.Lead(insns), names, l))
  {
    hide FormOf, Mnemonic, Program, Pos, JumpsStayInside, Cfg.JumpsTo, Cfg.Lead, ParseHexTarget, IndexOf, AscendingAddresses;
    TargetFound(insns, k);
    var l := IndexOf(insns, TargetOfInsn(insns[k]));
    TargetLeads(insns, k, l);
    LeaderIsLabelled(insns, Cfg.Lead(insns), names, l);
  }

  /** The configuration after instruction k of the program is the one after instruction k of the list. */
  lemma ResumeMatches(insns: seq<DisassembledInsn>, names: Names, callee: Callee, k: nat, s: CState)
    requires Contiguous(insns) && JumpsStayInside(insns) && k < |insns|
    ensures FlatMatches(insns, names, Advance(insns, names, callee, At(k, s)),
              Resume(Program(insns, Cfg.Lead(insns), names), Pos(insns, Cfg.Lead(insns), names, k + 1),
                     Effect(insns[k], names, s, callee)))
  {
    hide FormOf, Mnemonic, Program, Pos, Cfg.Lead, Effect, Taken, JumpsStayInside;
    ContiguousIsAscending(insns);
    InsideIsDirect(insns, k);
    EffectExactly(insns[k], names, s, callee);
    var form := FormOfInsn(insns[k]);
    if form.FJmp? || form.FJcc? {
      LabelOfTarget(insns, names, k);
    }
  }

  /** For any text: from the position of instruction k, a positive number of steps takes the program, one
      item of k after the other, to where the list goes from k. */
  lemma StepExactly(insns: seq<DisassembledInsn>, names: Names, callee: Callee, k: nat, s: CState) returns (m: nat)
    requires Contiguous(insns) && JumpsStayInside(insns) && k < |insns|
    ensures var items, i := Program(insns, Cfg.Lead(insns), names), Pos(insns, Cfg.Lead(insns), names, k);
      && 0 < m <= Pos(insns, Cfg.Lead(insns), names, k + 1) - i && Passes(items, callee, i, s, m)
      && FlatMatches(insns, names, Advance(insns, names, callee, At(k, s)), CRun(items, callee, Running(i, s), m))
  {
    hide Program, Pos, Cfg.Lead, InsnLines, ExecLines, Resume, CRun, Passes, FlatMatches, Advance, JumpsStayInside, Contiguous;
    m := RunInsn(insns, Cfg.Lead(insns), names, callee, k, s);
    ResumeMatches(insns, names, callee, k, s);
  }

  /** Past the last instruction the default return ends the run. */
  lemma EndExactly(insns: seq<DisassembledInsn>, names: Names, callee: Callee, s: CState)
    ensures var items, i := Program(insns, Cfg.Lead(insns), names), Pos(insns, Cfg.Lead(insns), names, |insns|);
      CRun(items, callee, Running(i, s), 1) == Returned(s.regs(RAX), s)
  {
    hide Program, Pos, Cfg.Lead, CStep, ExecLine;
    var items, i := Program(insns, Cfg.Lead(insns), names), Pos(insns, Cfg.Lead(insns), names, |insns|);
    ReturnAtEnd(insns, Cfg.Lead(insns), names);
    RunOnce(items, callee, Running(i, s));
    CodeStep(items, callee, i, s);
    ReturnOutcome(s, callee);
  }

  lemma ReturnOutcome(s: CState, callee: Callee)
    ensures ExecLine([CReturnRax], s, callee) == Defined(s, Leaves)
  {
    assert ExecStmt([CReturnRax][0], s, callee) == Defined(s, Leaves);
  }

  // Runs.

  /** The program after b steps stands where the list does after n, having entered what it visited. */
  ghost predicate InStep(insns: seq<DisassembledInsn>, names: Names, callee: Callee, s: CState, n: nat, b: nat) {
    var items := Program(insns, Cfg.Lead(insns), names);
    && FlatMatches(insns, names, Execute(insns, names, callee, s, n), CRun(items, callee, Running(0, s), b))
    && Entered(insns, names, items, callee, s, b) == Visited(insns, names, callee, s, n)
  }

  lemma EnteredNothing(insns: seq<DisassembledInsn>, names: Names, items: seq<CItem>, callee: Callee, s: CState, b: nat)
    requires b > 0
    requires var c := CRun(items, callee, Running(0, s), b); c.Running? ==> Entering(insns, names, c) == []
    ensures Entered(insns, names, items, callee, s, b) == Entered(insns, names, items, callee, s, b - 1)
  {
    hide CRun;
    var before := Entered(insns, names, items, callee, s, b - 1);
    assert before + [] == before;
  }

  /** Inside instruction k nothing is entered. */
  lemma {:induction false} EnteredDuring(insns: seq<DisassembledInsn>, names: Names, callee: Callee, s: CState, b: nat,
                                         k: nat, t: CState, m: nat, j: nat)
    requires k < |insns| && j < m
    requires var items, i := Program(insns, Cfg.Lead(insns), names), Pos(insns, Cfg.Lead(insns), names, k);
      && m <= Pos(insns, Cfg.Lead(insns), names, k + 1) - i && Passes(items, callee, i, t, m)
      && CRun(items, callee, Running(0, s), b) == Running(i, t)
    ensures var items := Program(insns, Cfg.Lead(insns), names);
      && Entered(insns, names, items, callee, s, b + j) == Entered(insns, names, items, callee, s, b)
      && (j > 0 ==> var c := CRun(items, callee, Running(0, s), b + j);
            c.Running? && c.pos == Pos(insns, Cfg.Lead(insns), names, k) + j)
    decreases j
  {
    hide Program, Pos, Cfg.Lead, CRun, Entering;
    if j > 0 {
      var items, i := Program(insns, Cfg.Lead(insns), names), Pos(insns, Cfg.Lead(insns), names, k);
      EnteredDuring(insns, names, callee, s, b, k, t, m, j - 1);
      CRunSplit(items, callee, Running(0, s), b, j);
      assert PassesAt(items, callee, i, t, j);
      var c := CRun(items, callee, Running(0, s), b + j);
      EntersNothing(insns, names, k, i + j, c.state);
      assert c == Running(i + j, c.state);
      EnteredNothing(insns, names, items, callee, s, b + j);
    }
  }

  lemma EnteringMatches(insns: seq<DisassembledInsn>, names: Names, f: FlatConfig, c: CConfig)
    requires FlatMatches(insns, names, f, c)
    ensures Entering(insns, names, c) == Visiting(insns, f)
  {
    hide Pos, Cfg.Lead, Entering;
    if f.At? {
      EntersNext(insns, names, f.k, f.state);
    } else {
      StoppedEnters(insns, names, c);
    }
  }

  lemma StoppedEnters(insns: seq<DisassembledInsn>, names: Names, c: CConfig)
    requires !c.Running?
    ensures Entering(insns, names, c) == []
  {
  }

  /** The number of steps that the program takes for the list's next one. */
  ghost predicate Spent(insns: seq<DisassembledInsn>, names: Names, callee: Callee, s: CState, n: nat, b: nat, m: nat) {
    var items, f := Program(insns, Cfg.Lead(insns), names), Execute(insns, names, callee, s, n);
    && m > 0 && InStep(insns, names, callee, s, n + 1, b + m)
    && forall j :: 0 < j < m ==> Between(insns, names, callee, s, n, b, j)
  }

  /** j steps later the program is still inside the instruction that the list is at. */
  ghost predicate Between(insns: seq<DisassembledInsn>, names: Names, callee: Callee, s: CState, n: nat, b: nat, j: nat) {
    var items, f := Program(insns, Cfg.Lead(insns), names), Execute(insns, names, callee, s, n);
    var c := CRun(items, callee, Running(0, s), b + j);
    && f.At? && c.Running? && Inside(insns, Cfg.Lead(insns), names, f.k, c.pos)
    && Entered(insns, names, items, callee, s, b + j) == Visited(insns, names, callee, s, n)
  }

  lemma StepInsn(insns: seq<DisassembledInsn>, names: Names, callee: Callee, s: CState, n: nat, b: nat) returns (m: nat)
    requires Contiguous(insns) && JumpsStayInside(insns) && InStep(insns, names, callee, s, n, b)
    requires Execute(insns, names, callee, s, n).At? && Execute(insns, names, callee, s, n).k < |insns|
    ensures Spent(insns, names, callee, s, n, b, m)
  {
    hide Program, Pos, Cfg.Lead, CRun, Passes, Entering, Advance, JumpsStayInside, Contiguous, Visiting;
    var items, f := Program(insns, Cfg.Lead(insns), names), Execute(insns, names, callee, s, n);
    var i := Pos(insns, Cfg.Lead(insns), names, f.k);
    m := StepExactly(insns, names, callee, f.k, f.state);
    CRunSplit(items, callee, Running(0, s), b, m);
    forall j | 0 < j < m ensures Between(insns, names, callee, s, n, b, j) {
      EnteredDuring(insns, names, callee, s, b, f.k, f.state, m, j);
    }
    EnteredDuring(insns, names, callee, s, b, f.k, f.state, m, m - 1);
    EnteringMatches(insns, names, Execute(insns, names, callee, s, n + 1), CRun(items, callee, Running(0, s), b + m));
  }

  lemma StepEnd(insns: seq<DisassembledInsn>, names: Names, callee: Callee, s: CState, n: nat, b: nat)
    requires InStep(insns, names, callee, s, n, b)
    requires var f := Execute(insns, names, callee, s, n); f.At? ==> f.k == |insns|
    ensures Spent(insns, names, callee, s, n, b, 1)
  {
    hide Program, Pos, Cfg.Lead, CStep, Entering, Visiting;
    var items, f := Program(insns, Cfg.Lead(insns), names), Execute(insns, names, callee, s, n);
    var c := CRun(items, callee, Running(0, s), b);
    if f.At? {
      EndExactly(insns, names, callee, f.state);
      RunOnce(items, callee, c);
    } else {
      StoppedStep(items, callee, c);
    }
    EnteringMatches(insns, names, Execute(insns, names, callee, s, n + 1), CRun(items, callee, Running(0, s), b + 1));
  }

  lemma StoppedStep(items: seq<CItem>, callee: Callee, c: CConfig)
    requires !c.Running?
    ensures CStep(items, callee, c) == c
  {
  }

  lemma StepSpent(insns: seq<DisassembledInsn>, names: Names, callee: Callee, s: CState, n: nat, b: nat) returns (m: nat)
    requires Contiguous(insns) && JumpsStayInside(insns) && InStep(insns, names, callee, s, n, b)
    ensures Spent(insns, names, callee, s, n, b, m)
  {
    hide Contiguous, JumpsStayInside, Spent, Pos, Cfg.Lead, Program, CRun, Entered, Visited;
    var f := Execute(insns, names, callee, s, n);
    if f.At? && f.k < |insns| {
      m := StepInsn(insns, names, callee, s, n, b);
    } else {
      StepEnd(insns, names, callee, s, n, b);
      m := 1;
    }
  }

  lemma StartInStep(insns: seq<DisassembledInsn>, names: Names, callee: Callee, s: CState)
    ensures InStep(insns, names, callee, s, 0, 0)
  {
    hide Cfg.Lead, Program, Entering, Visiting;
    assert Pos(insns, Cfg.Lead(insns), names, 0) == 0;
    EnteringMatches(insns, names, At(0, s), Running(0, s));
  }

  lemma {:induction false} RunInStep(insns: seq<DisassembledInsn>, names: Names, callee: Callee, s: CState, n: nat)
    returns (b: nat)
    requires Contiguous(insns) && JumpsStayInside(insns)
    ensures b >= n && InStep(insns, names, callee, s, n, b)
  {
    hide Contiguous, JumpsStayInside, InStep, Between;
    if n == 0 {
      b := 0;
      StartInStep(insns, names, callee, s);
    } else {
      var before := RunInStep(insns, names, callee, s, n - 1);
      var m := StepSpent(insns, names, callee, s, n - 1, before);
      b := before + m;
    }
  }

  /** Every step of the program belongs to one of the list. */
  lemma {:induction false} StepBelongs(insns: seq<DisassembledInsn>, names: Names, callee: Callee, s: CState, m: nat)
    returns (n: nat, b: nat, spent: nat)
    requires Contiguous(insns) && JumpsStayInside(insns)
    ensures n <= b <= m < b + spent && InStep(insns, names, callee, s, n, b) && Spent(insns, names, callee, s, n, b, spent)
  {
    hide Contiguous, JumpsStayInside, InStep, Between;
    if m == 0 {
      n, b := 0, 0;
      StartInStep(insns, names, callee, s);
      spent := StepSpent(insns, names, callee, s, 0, 0);
    } else {
      n, b, spent := StepBelongs(insns, names, callee, s, m - 1);
      if m == b + spent {
        n, b := n + 1, m;
        spent := StepSpent(insns, names, callee, s, n, b);
      }
    }
  }

  // The theorems.

  /** For every function with direct jumps inside, whatever its other instructions and whatever they, or the
      functions called, do to the state: after n steps of the instruction list, the emitted program, in at
      least as many steps, stands at the same instruction with the same state, has returned with rax where
      the list is over, and is undefined exactly where the list is; and the instructions that it has
      entered, in order, are those that the list has visited. */
  lemma TraceExactly(func: DisassembledFunction, names: Names, callee: Callee, s: CState, n: nat) returns (m: nat)
    requires Contiguous(func.instructions) && JumpsStayInside(func.instructions)
    ensures m >= n
    ensures FlatMatches(func.instructions, names, Execute(func.instructions, names, callee, s, n),
                        CRun(Decompile(func, names), callee, Running(0, s), m))
    ensures Entered(func.instructions, names, Decompile(func, names), callee, s, m)
            == Visited(func.instructions, names, callee, s, n)
  {
    hide Decompile, Cfg.Lead, FlatItems, JumpsStayInside, Contiguous, CRun, Execute, FlatMatches, Entered, Visited;
    ContiguousIsAscending(func.instructions);
    EmissionIsFlat(func, names);
    m := RunInStep(func.instructions, names, callee, s, n);
  }

  /** Conversely, after any number of steps the program has entered exactly what the list has visited in
      some number of steps, and stands where the list does or inside the instruction that it is at. */
  lemma NothingElseHappens(func: DisassembledFunction, names: Names, callee: Callee, s: CState, m: nat) returns (n: nat)
    requires Contiguous(func.instructions) && JumpsStayInside(func.instructions)
    ensures n <= m
    ensures Entered(func.instructions, names, Decompile(func, names), callee, s, m)
            == Visited(func.instructions, names, callee, s, n)
    ensures var f, c := Execute(func.instructions, names, callee, s, n), CRun(Decompile(func, names), callee, Running(0, s), m);
      || FlatMatches(func.instructions, names, f, c)
      || (f.At? && c.Running? && Inside(func.instructions, Cfg.Lead(func.instructions), names, f.k, c.pos))
  {
    hide Decompile, Cfg.Lead, FlatItems, JumpsStayInside, Contiguous, CRun, Execute, FlatMatches, Entered, Visited, Inside;
    ContiguousIsAscending(func.instructions);
    EmissionIsFlat(func, names);
    var b, spent;
    n, b, spent := StepBelongs(func.instructions, names, callee, s, m);
    if m > b {
      assert Between(func.instructions, names, callee, s, n, b, m - b);
    }
  }

  // Walks of the graph.

  lemma WalkAppended(insns: seq<DisassembledInsn>, trace: seq<nat>, l: nat, i: nat)
    requires CfgWalk.FlatRun(insns, trace) && trace != [] && l < |insns| && CfgWalk.FlatStep(insns, trace[|trace| - 1], l)
    requires 0 < i <= |trace|
    ensures var t := trace + [l]; t[i - 1] < |insns| && t[i] < |insns| && CfgWalk.FlatStep(insns, t[i - 1], t[i])
  {
    hide CfgWalk.FlatStep;
    var t := trace + [l];
    assert t[i - 1] == trace[i - 1];
    if i < |trace| {
      assert t[i] == trace[i];
    }
  }

  lemma ExtendFlat(insns: seq<DisassembledInsn>, trace: seq<nat>, l: nat)
    requires CfgWalk.FlatRun(insns, trace) && trace != [] && l < |insns| && CfgWalk.FlatStep(insns, trace[|trace| - 1], l)
    ensures CfgWalk.FlatRun(insns, trace + [l])
  {
    hide CfgWalk.FlatStep;
    var t := trace + [l];
    assert forall i :: 0 <= i < |t| ==> t[i] < |insns|;
    forall i | 0 < i < |t| ensures CfgWalk.FlatStep(insns, t[i - 1], t[i]) {
      WalkAppended(insns, trace, l, i);
    }
  }

  /** The list's own trace is a walk from the entry that ends where the list is. */
  lemma {:induction false} VisitedIsWalk(insns: seq<DisassembledInsn>, names: Names, callee: Callee, s: CState, n: nat)
    requires Contiguous(insns) && JumpsStayInside(insns) && insns != []
    ensures var trace, f := Visited(insns, names, callee, s, n), Execute(insns, names, callee, s, n);
      && CfgWalk.FlatRun(insns, trace) && trace != [] && trace[0] == 0
      && (f.At? && f.k < |insns| ==> trace[|trace| - 1] == f.k)
      && (f.At? ==> f.k <= |insns|)
  {
    hide Contiguous, JumpsStayInside, Advance, CfgWalk.FlatRun;
    if n == 0 {
      OneIsWalk(insns);
    } else {
      VisitedIsWalk(insns, names, callee, s, n - 1);
      var before := Execute(insns, names, callee, s, n - 1);
      var trace := Visited(insns, names, callee, s, n - 1);
      EndIsOver(insns, names, callee, before);
      if before.At? && before.k < |insns| {
        AdvanceIsFlatStep(insns, names, callee, before.k, before.state);
        var after := Execute(insns, names, callee, s, n);
        if after.At? && after.k < |insns| {
          ExtendFlat(insns, trace, after.k);
        }
      }
      assert trace + [] == trace;
    }
  }

  lemma OneIsWalk(insns: seq<DisassembledInsn>)
    requires insns != []
    ensures CfgWalk.FlatRun(insns, [0])
  {
  }

  lemma EndIsOver(insns: seq<DisassembledInsn>, names: Names, callee: Callee, c: FlatConfig)
    ensures !c.At? || c.k >= |insns| ==> !Advance(insns, names, callee, c).At?
  {
  }

  /** The run has followed the trace to an item of its last instruction; or it is past the last
      instruction, or over. */
  ghost predicate Follows(insns: seq<DisassembledInsn>, names: Names, trace: seq<nat>, c: CConfig) {
    var lead := Cfg.Lead(insns);
    && CfgWalk.FlatRun(insns, trace) && trace != [] && trace[0] == 0 && c != NoSuchLabel
    && (c.Running? ==> Inside(insns, lead, names, trace[|trace| - 1], c.pos) || c.pos == Pos(insns, lead, names, |insns|))
  }

  /** The instructions that the program enters in any number of steps, in order, are a walk of the
      control-flow graph from the entry. It never misses a label. */
  lemma EveryRunIsAWalk(func: DisassembledFunction, names: Names, callee: Callee, s: CState, m: nat)
    requires Contiguous(func.instructions) && func.instructions != [] && JumpsStayInside(func.instructions)
    ensures var trace := Entered(func.instructions, names, Decompile(func, names), callee, s, m);
      && CfgWalk.CfgRun(func.instructions, trace)
      && Follows(func.instructions, names, trace, CRun(Decompile(func, names), callee, Running(0, s), m))
  {
    hide Decompile, Cfg.Lead, Pos, JumpsStayInside, Contiguous, CRun;
    hide CfgWalk.FlatRun, CfgWalk.CfgRun, Entered, Visited, Execute, Inside;
    var insns := func.instructions;
    var n := NothingElseHappens(func, names, callee, s, m);
    VisitedIsWalk(insns, names, callee, s, n);
    CfgWalk.RunsAgree(insns, Visited(insns, names, callee, s, n));
    var f := Execute(insns, names, callee, s, n);
    if f.At? && f.k < |insns| {
      StartsInside(insns, Cfg.Lead(insns), names, f.k);
    }
    NotPastTheEnd(insns, names, f);
  }

  lemma NotPastTheEnd(insns: seq<DisassembledInsn>, names: Names, f: FlatConfig)
    ensures f.At? && f.k >= |insns| ==> forall pos :: !Inside(insns, Cfg.Lead(insns), names, f.k, pos)
  {
  }

  // Exactly when the emitted code stops where the flat code does.

  /** The emitted lines return, whatever the state. */
  ghost predicate AlwaysLeaves(insn: DisassembledInsn, names: Names, callee: Callee) {
    forall s :: Effect(insn, names, s, callee) == Defined(s, Leaves)
  }

  /** The CFG lets control pass nowhere. */
  predicate FlowStops(insn: DisassembledInsn) {
    Cfg.FlowOf(insn) == Cfg.Flow(None, false)
  }

  /** Lifted to a return although the CFG lets control fall through. */
  predicate EndsEarly(insn: DisassembledInsn) {
    FormOfInsn(insn) == FRet && Cfg.FallsThrough(insn.mnemonic)
  }

  function SomeState(): CState {
    CState((b: VarBase) => 0, (a: word) => 0)
  }

  lemma LeavesByForm(insn: DisassembledInsn, names: Names, callee: Callee)
    requires DirectJump(insn)
    ensures AlwaysLeaves(insn, names, callee) <==> FormOfInsn(insn) == FRet
  {
    hide FormOf, Mnemonic, HexForm, Effect, Taken, Cfg.IsJump;
    forall s ensures FormOfInsn(insn) == FRet ==> Effect(insn, names, s, callee) == Defined(s, Leaves) {
      EffectExactly(insn, names, s, callee);
    }
    EffectExactly(insn, names, SomeState(), callee);
  }

  lemma StopsByForm(insn: DisassembledInsn)
    requires DirectJump(insn)
    ensures FlowStops(insn) <==> FormOfInsn(insn) == FRet && !Cfg.FallsThrough(insn.mnemonic)
  {
    hide FormOf, Mnemonic, Cfg.IsCondJump, Cfg.IsHalt, ParseHexTarget, HexPrefixed;
    CfgWalk.MnemonicsDisjoint(insn.mnemonic);
    if !Cfg.FallsThrough(insn.mnemonic) {
      LeavingForm(insn);
    }
  }

  /** For any text with direct jumps: the emitted lines return exactly where the CFG stops, if and only if
      the instruction is not lifted to a return while falling through. */
  lemma LeavesExactly(insn: DisassembledInsn, names: Names, callee: Callee)
    requires DirectJump(insn)
    ensures (AlwaysLeaves(insn, names, callee) <==> FlowStops(insn)) <==> !EndsEarly(insn)
  {
    hide AlwaysLeaves, FlowStops, FormOf, DirectJump;
    LeavesByForm(insn, names, callee);
    StopsByForm(insn);
  }

  /** For a whole function. */
  lemma FunctionLeavesExactly(insns: seq<DisassembledInsn>, names: Names, callee: Callee)
    requires DirectJumps(insns)
    ensures (forall k :: 0 <= k < |insns| ==> (AlwaysLeaves(insns[k], names, callee) <==> FlowStops(insns[k])))
            <==> forall k :: 0 <= k < |insns| ==> !EndsEarly(insns[k])
  {
    hide AlwaysLeaves, FlowStops, EndsEarly, DirectJump;
    forall k | 0 <= k < |insns|
      ensures (AlwaysLeaves(insns[k], names, callee) <==> FlowStops(insns[k])) <==> !EndsEarly(insns[k])
    {
      LeavesExactly(insns[k], names, callee);
    }
  }

  /** int and retf end early. */
  lemma InterruptEndsEarly(insn: DisassembledInsn)
    requires insn.mnemonic == "int" || insn.mnemonic == "retf"
    ensures EndsEarly(insn) && DirectJump(insn)
  {
    hide FormOf, Cfg.IsCondJump, HexForm;
    var mn := insn.mnemonic;
    assert mn[0] != 'l' && mn[0] != 'j' && !Cfg.IsHalt(mn);
    ToLowerFixed(mn);
    IntForm();
    RetfForm();
  }

  lemma IntForm()
    ensures FormOf("int", false) == FRet
  {
    assert "int"[0] == 'i' && "int"[2] == 't';
  }

  lemma RetfForm()
    ensures FormOf("retf", false) == FRet
  {
    assert "retf"[0] == 'r' && "retf"[3] == 'f';
  }

  /** There the list stops, and with it the emitted program, on every state, while the graph goes on to the
      next instruction. */
  lemma EarlyEnd(insns: seq<DisassembledInsn>, names: Names, callee: Callee, k: nat, s: CState)
    requires Contiguous(insns) && k + 1 < |insns| && EndsEarly(insns[k])
    ensures Advance(insns, names, callee, At(k, s)) == Over(s) && CfgWalk.CfgStep(insns, k, k + 1)
  {
    hide FormOf, Mnemonic, Cfg.FallsThrough, CfgWalk.CfgStep, Cfg.JumpsTo;
    assert insns[k + 1].address == insns[k].address + insns[k].size;
    CfgWalk.StepsAgree(insns, k, k + 1);
  }

  // Exactly which steps of the graph are taken.

  /** The lines are defined on some state. */
  ghost predicate CanRun(insn: DisassembledInsn, names: Names, callee: Callee) {
    exists s :: Effect(insn, names, s, callee).Defined?
  }

  ghost predicate GoesTo(insns: seq<DisassembledInsn>, names: Names, callee: Callee, k: nat, l: nat, s: CState) {
    Advance(insns, names, callee, At(k, s)).At? && Advance(insns, names, callee, At(k, s)).k == l
  }

  /** Every condition can be made to hold and to fail. */
  lemma BothWays(c: Condition) returns (yes: word, no: word)
    ensures Taken(c, yes) && !Taken(c, no)
  {
    BitsOfPacked(0);
    BitsOfPacked(1);
    BitsOfPacked(2);
    BitsOfPacked(4);
    hide Bit, Bitwise;
    match c
    case Equal => yes, no := 1, 0;
    case NotEqual => yes, no := 0, 1;
    case Less => yes, no := 4, 0;
    case GreaterEqual => yes, no := 0, 4;
    case Below => yes, no := 2, 0;
    case AboveEqual => yes, no := 0, 2;
    case Greater => yes, no := 0, 1;
    case LessEqual => yes, no := 1, 0;
    case Above => yes, no := 0, 1;
    case BelowEqual => yes, no := 1, 0;
    case Sign | Overflow | Parity => yes, no := 1, 0;
    case NotSign | NotOverflow | NotParity => yes, no := 0, 1;
  }

  function FlagState(w: word): CState {
    CState((b: VarBase) => w, (a: word) => 0)
  }

  lemma AddressOnce(insns: seq<DisassembledInsn>, k: nat, l: nat)
    requires AscendingAddresses(insns) && l < |insns|
    ensures k < |insns| && insns[k].address == insns[l].address ==> k == l
  {
  }

  lemma IndexIsUnique(insns: seq<DisassembledInsn>, l: nat)
    requires AscendingAddresses(insns) && l < |insns|
    ensures IndexOf(insns, insns[l].address) == l
  {
    hide AscendingAddresses;
    AddressOnce(insns, IndexOf(insns, insns[l].address), l);
    assert IsAddress(insns, insns[l].address);
  }

  lemma JumpTaken(insns: seq<DisassembledInsn>, names: Names, callee: Callee, k: nat, l: nat)
    requires Contiguous(insns) && JumpsStayInside(insns) && k < |insns| && l < |insns| && CfgWalk.FlatStep(insns, k, l)
    requires FormOfInsn(insns[k]).FJmp? || FormOfInsn(insns[k]).FJcc?
    ensures exists s :: GoesTo(insns, names, callee, k, l, s)
  {
    hide FormOf, Mnemonic, Taken, JumpsStayInside, Cfg.FallsThrough;
    hide ParseHexTarget, IndexOf, Contiguous, Effect, HexForm, Cfg.IsJump;
    ContiguousIsAscending(insns);
    InsideIsDirect(insns, k);
    TargetFound(insns, k);
    CfgWalk.NextIs(insns, k, l);
    if FormOfInsn(insns[k]).FJmp? {
      JmpNeverFalls(insns[k]);
      IndexIsUnique(insns, l);
      assert GoesTo(insns, names, callee, k, l, SomeState());
    } else {
      var yes, no := BothWays(FormOfInsn(insns[k]).condition);
      IndexIsUnique(insns, l);
      if Cfg.JumpsTo(insns[k], insns[l].address) {
        assert GoesTo(insns, names, callee, k, l, FlagState(yes));
      } else {
        assert GoesTo(insns, names, callee, k, l, FlagState(no));
      }
    }
  }

  lemma PlainTaken(insns: seq<DisassembledInsn>, names: Names, callee: Callee, k: nat, l: nat)
    requires Contiguous(insns) && k < |insns| && l < |insns| && CfgWalk.FlatStep(insns, k, l)
    requires var form := FormOfInsn(insns[k]); !form.FJmp? && !form.FJcc? && !form.FRet?
    requires CanRun(insns[k], names, callee)
    ensures exists s :: GoesTo(insns, names, callee, k, l, s)
  {
    hide FormOf, Mnemonic, Cfg.IsJump, Cfg.FallsThrough, Contiguous, Effect, IndexOf, Taken;
    CfgWalk.NextIs(insns, k, l);
    if Cfg.IsJump(insns[k].mnemonic) {
      JumpLifted(insns[k]);
    }
    var s :| Effect(insns[k], names, s, callee).Defined?;
    assert GoesTo(insns, names, callee, k, l, s);
  }

  /** For any text with direct jumps inside: some state takes the list, and with it the emitted program,
      from instruction k to instruction l if and only if the graph allows the step, k is not lifted to a
      return, and its lines are defined on some state. */
  lemma StepTakenExactly(insns: seq<DisassembledInsn>, names: Names, callee: Callee, k: nat, l: nat)
    requires Contiguous(insns) && JumpsStayInside(insns) && k < |insns| && l < |insns|
    ensures (exists s :: GoesTo(insns, names, callee, k, l, s))
            <==> CfgWalk.CfgStep(insns, k, l) && FormOfInsn(insns[k]) != FRet && CanRun(insns[k], names, callee)
  {
    hide FormOf, Mnemonic, JumpsStayInside, Contiguous, CfgWalk.CfgStep;
    hide CfgWalk.FlatStep, Effect, Taken, IndexOf, HexForm, Cfg.IsJump;
    CfgWalk.StepsAgree(insns, k, l);
    InsideIsDirect(insns, k);
    if s :| GoesTo(insns, names, callee, k, l, s) {
      AdvanceIsFlatStep(insns, names, callee, k, s);
      EffectExactly(insns[k], names, s, callee);
    }
    if CfgWalk.CfgStep(insns, k, l) && FormOfInsn(insns[k]) != FRet && CanRun(insns[k], names, callee) {
      if FormOfInsn(insns[k]).FJmp? || FormOfInsn(insns[k]).FJcc? {
        JumpTaken(insns, names, callee, k, l);
      } else {
        PlainTaken(insns, names, callee, k, l);
      }
    }
  }
}
