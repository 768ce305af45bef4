/** Running the emitted program through one instruction at a time, for functions given as text. */
module Execution {
  import opened Ir
  import opened Frontend
  import Lifter
  import opened CLang
  import opened Backend
  import opened Instructions
  import opened Layout
  import opened Positions
  import opened Conservation

  /** The lines of an instruction; they do not depend on versions (`Erasure.InstructionErased`). */
  function InsnLines(insn: DisassembledInsn, names: Names): seq<CLine> {
    LinesOf(Lifter.LiftInsn(insn, map[]).ops, names)
  }

  function CodeItems(lines: seq<CLine>): seq<CItem> {
    seq(|lines|, k requires 0 <= k < |lines| => CCode(lines[k]))
  }

  lemma ItemsAreLines(insn: DisassembledInsn, names: Names)
    ensures InsnItems(insn, names) == CodeItems(InsnLines(insn, names))
    ensures InsnLines(insn, names) != []
  {
    hide Lifter.LiftInsn, EmitOpcode, OpcodeCount;
    InsnCount(insn, map[]);
    CountOfInsn(insn);
  }

  // The items of an instruction.

  /** From position i stand `mark` labels, then the lines; the next item is at `end`. */
  predicate Spans(items: seq<CItem>, i: nat, mark: nat, lines: seq<CLine>, end: nat) {
    && i + mark + |lines| == end < |items|
    && items[i + mark..end] == CodeItems(lines)
    && (mark > 0 ==> items[i].CLabel?)
  }

  lemma SpanOf(items: seq<CItem>, i: nat, marks: seq<CItem>, lines: seq<CLine>, end: nat)
    requires i + |marks| + |lines| == end < |items|
    requires items[i..i + |marks|] == marks && items[i + |marks|..end] == CodeItems(lines)
    requires marks != [] ==> marks[0].CLabel?
    ensures Spans(items, i, |marks|, lines, end)
  {
    if marks != [] {
      assert items[i] == items[i..i + |marks|][0];
    }
  }

  /** How many labels stand before instruction k. */
  function MarkOf(lead: nat -> bool, k: nat): (n: nat)
    ensures n <= 1
  {
    if k == 0 || lead(k) then 1 else 0
  }

  lemma MarkItems(insns: seq<DisassembledInsn>, lead: nat -> bool, k: nat)
    requires k < |insns|
    ensures var mark := LabelItems(insns, lead, k); |mark| == MarkOf(lead, k) && (mark != [] ==> mark[0].CLabel?)
  {
  }

  lemma CodeItemsLength(lines: seq<CLine>)
    ensures |CodeItems(lines)| == |lines|
  {
  }

  /** Instruction k occupies its label, if it leads, and its lines, and then comes instruction k + 1. */
  lemma InsnPlaced(insns: seq<DisassembledInsn>, lead: nat -> bool, names: Names, k: nat)
    requires k < |insns|
    ensures Spans(Program(insns, lead, names), Pos(insns, lead, names, k), MarkOf(lead, k), InsnLines(insns[k], names),
                  Pos(insns, lead, names, k + 1))
  {
    hide Pos, Program, InsnItems, InsnLines, LabelItems, MarkOf, CodeItems, Spans;
    var marks, lines := LabelItems(insns, lead, k), InsnLines(insns[k], names);
    InsnAtPos(insns, lead, names, k);
    ItemsAreLines(insns[k], names);
    CodeItemsLength(lines);
    MarkItems(insns, lead, k);
    SpanOf(Program(insns, lead, names), Pos(insns, lead, names, k), marks, lines, Pos(insns, lead, names, k + 1));
  }

  // Running lines.

  /** Where the C program is after the lines whose outcome is r, when the next item is at `end`. */
  function Resume(items: seq<CItem>, end: nat, r: COutcome): CConfig {
    match r
    case Undefined => Stuck
    case Defined(s, Onward) => Running(end, s)
    case Defined(s, Leaves) => Returned(s.regs(RAX), s)
    case Defined(s, ToLabel(t)) => if LabelAt(items, t).Some? then Running(LabelAt(items, t).value, s) else NoSuchLabel
  }

  lemma CodeStep(items: seq<CItem>, callee: Callee, i: nat, s: CState)
    requires i < |items| && items[i].CCode?
    ensures CStep(items, callee, Running(i, s)) == Resume(items, i + 1, ExecLine(items[i].line, s, callee))
  {
    hide ExecLine;
  }

  lemma RunOnce(items: seq<CItem>, callee: Callee, c: CConfig)
    ensures CRun(items, callee, c, 1) == CStep(items, callee, c)
  {
    assert CRun(items, callee, c, 0) == c;
  }

  /** Before its last step the run moves one item at a time from position i. */
  ghost predicate Passes(items: seq<CItem>, callee: Callee, i: nat, s: CState, m: nat) {
    forall j :: 0 < j < m ==> PassesAt(items, callee, i, s, j)
  }

  ghost predicate PassesAt(items: seq<CItem>, callee: Callee, i: nat, s: CState, j: nat) {
    var c := CRun(items, callee, Running(i, s), j);
    c.Running? && c.pos == i + j
  }

  /** A run of one step onward and then n more. */
  lemma PassOne(items: seq<CItem>, callee: Callee, i: nat, s: CState, t: CState, n: nat)
    requires CRun(items, callee, Running(i, s), 1) == Running(i + 1, t) && Passes(items, callee, i + 1, t, n)
    ensures CRun(items, callee, Running(i, s), 1 + n) == CRun(items, callee, Running(i + 1, t), n)
    ensures Passes(items, callee, i, s, 1 + n)
  {
    hide CRun;
    CRunSplit(items, callee, Running(i, s), 1, n);
    forall j | 0 < j < 1 + n ensures PassesAt(items, callee, i, s, j) {
      if j > 1 {
        CRunSplit(items, callee, Running(i, s), 1, j - 1);
        assert PassesAt(items, callee, i + 1, t, j - 1);
      }
    }
  }

  lemma {:induction false} RunLines(items: seq<CItem>, callee: Callee, i: nat, lines: seq<CLine>, s: CState) returns (m: nat)
    requires lines != [] && i + |lines| <= |items| && items[i..i + |lines|] == CodeItems(lines)
    ensures 0 < m <= |lines| && Passes(items, callee, i, s, m)
    ensures CRun(items, callee, Running(i, s), m) == Resume(items, i + |lines|, ExecLines(lines, s, callee))
    decreases |lines|
  {
    hide CStep, CRun, ExecLine, Resume, PassesAt;
    var line, rest := lines[0], lines[1..];
    assert items[i] == items[i..i + |lines|][0] == CCode(line);
    CodeStep(items, callee, i, s);
    RunOnce(items, callee, Running(i, s));
    var r := ExecLine(line, s, callee);
    m := 1;
    NothingLeft(lines, s, callee);
    if r.Defined? && r.next.Onward? && rest != [] {
      assert items[i + 1..i + 1 + |rest|] == items[i..i + |lines|][1..] == CodeItems(rest);
      ResumeOnward(items, i + 1, r);
      var n := RunLines(items, callee, i + 1, rest, r.state);
      PassOne(items, callee, i, s, r.state, n);
      m := 1 + n;
    } else if r.Defined? && r.next.Onward? {
      assert rest == [];
    } else {
      ResumeElsewhere(items, i + 1, i + |lines|, r);
    }
  }

  lemma NothingLeft(lines: seq<CLine>, s: CState, callee: Callee)
    requires lines != []
    ensures var r := ExecLine(lines[0], s, callee);
      ExecLines(lines, s, callee) == (if r.Defined? && r.next.Onward? && lines[1..] != [] then ExecLines(lines[1..], r.state, callee) else r)
  {
    hide ExecLine;
  }

  lemma ResumeOnward(items: seq<CItem>, end: nat, r: COutcome)
    requires r.Defined? && r.next.Onward?
    ensures Resume(items, end, r) == Running(end, r.state)
  {
  }

  lemma ResumeElsewhere(items: seq<CItem>, end: nat, end': nat, r: COutcome)
    requires !(r.Defined? && r.next.Onward?)
    ensures Resume(items, end, r) == Resume(items, end', r)
  {
  }

  lemma RunLabel(items: seq<CItem>, callee: Callee, i: nat, s: CState)
    requires i < |items| && items[i].CLabel?
    ensures CRun(items, callee, Running(i, s), 1) == Running(i + 1, s)
  {
    RunOnce(items, callee, Running(i, s));
  }

  /** Through at most one label and then the lines. */
  lemma RunSpan(items: seq<CItem>, callee: Callee, i: nat, mark: nat, lines: seq<CLine>, end: nat, s: CState) returns (m: nat)
    requires Spans(items, i, mark, lines, end) && mark <= 1 && lines != []
    ensures 0 < m <= end - i && Passes(items, callee, i, s, m)
    ensures CRun(items, callee, Running(i, s), m) == Resume(items, end, ExecLines(lines, s, callee))
  {
    hide ExecLines, Resume, CStep, CRun, Passes, CodeItems;
    if mark == 1 {
      RunLabel(items, callee, i, s);
      var n := RunLines(items, callee, i + 1, lines, s);
      PassOne(items, callee, i, s, s, n);
      m := 1 + n;
    } else {
      m := RunLines(items, callee, i, lines, s);
    }
  }

  /** For any text: from the position of instruction k the program runs through its label and lines, one
      item after the other, and resumes where their outcome says. */
  lemma RunInsn(insns: seq<DisassembledInsn>, lead: nat -> bool, names: Names, callee: Callee, k: nat, s: CState)
    returns (m: nat)
    requires k < |insns|
    ensures var items, i, end := Program(insns, lead, names), Pos(insns, lead, names, k), Pos(insns, lead, names, k + 1);
      && 0 < m <= end - i && Passes(items, callee, i, s, m)
      && CRun(items, callee, Running(i, s), m) == Resume(items, end, ExecLines(InsnLines(insns[k], names), s, callee))
  {
    hide Program, Pos, InsnLines, ExecLines, Resume, CRun, MarkOf, Passes, Spans;
    InsnPlaced(insns, lead, names, k);
    ItemsAreLines(insns[k], names);
    m := RunSpan(Program(insns, lead, names), callee, Pos(insns, lead, names, k), MarkOf(lead, k),
                 InsnLines(insns[k], names), Pos(insns, lead, names, k + 1), s);
  }
}
