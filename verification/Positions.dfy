/** Where instructions and labels sit in the emitted program. */
module Positions {
  import opened Wrappers
  import opened Frontend
  import Lifter
  import opened CLang
  import opened Backend
  import opened Layout

  /** The position of instruction k, counting from its label if it has one; for k past the last
      instruction, of the default return. */
  function Pos(insns: seq<DisassembledInsn>, lead: nat -> bool, names: Names, k: nat): nat
    requires k <= |insns|
  {
    |FlatItems(insns, lead, names, k)|
  }

  /** All items of a function: the flat items and the default return. */
  function Program(insns: seq<DisassembledInsn>, lead: nat -> bool, names: Names): seq<CItem> {
    FlatItems(insns, lead, names, |insns|) + [CCode([CReturnRax])]
  }

  lemma {:induction false} FlatGrows(insns: seq<DisassembledInsn>, lead: nat -> bool, names: Names, k: nat, n: nat)
    requires k <= n <= |insns|
    ensures FlatItems(insns, lead, names, k) <= FlatItems(insns, lead, names, n)
    decreases n
  {
    hide InsnItems, LabelItems;
    if k < n {
      FlatGrows(insns, lead, names, k, n - 1);
    }
  }

  /** At the position of instruction k stand its label, if it leads, and its lines; then comes the
      position of instruction k + 1. */
  lemma InsnAtPos(insns: seq<DisassembledInsn>, lead: nat -> bool, names: Names, k: nat)
    requires k < |insns|
    ensures var items, i := Program(insns, lead, names), Pos(insns, lead, names, k);
      var mark, lines := LabelItems(insns, lead, k), InsnItems(insns[k], names);
      && i + |mark| + |lines| == Pos(insns, lead, names, k + 1) < |items|
      && items[i..i + |mark|] == mark
      && items[i + |mark|..i + |mark| + |lines|] == lines
  {
    hide InsnItems, LabelItems;
    var flat := FlatItems(insns, lead, names, k);
    var upto := FlatItems(insns, lead, names, k + 1);
    FlatGrows(insns, lead, names, k + 1, |insns|);
    var mark, lines := LabelItems(insns, lead, k), InsnItems(insns[k], names);
    assert upto == flat + mark + lines;
    var items := Program(insns, lead, names);
    assert items[..|upto|] == upto;
    assert items[|flat|..|flat| + |mark|] == upto[|flat|..|flat| + |mark|];
    assert items[|flat| + |mark|..|upto|] == upto[|flat| + |mark|..];
  }

  lemma ReturnAtEnd(insns: seq<DisassembledInsn>, lead: nat -> bool, names: Names)
    ensures var items, i := Program(insns, lead, names), Pos(insns, lead, names, |insns|);
      i < |items| && items[i] == CCode([CReturnRax])
  {
    hide FlatItems;
  }

  // Labels.

  lemma {:induction false} LabelInAppend(a: seq<CItem>, b: seq<CItem>, t: nat)
    ensures LabelAt(a + b, t)
            == if LabelAt(a, t).Some? then LabelAt(a, t)
               else match LabelAt(b, t) case Some(i) => Some(|a| + i) case None => None
  {
    if a == [] {
      assert a + b == b;
    } else {
      assert (a + b)[0] == a[0] && (a + b)[1..] == a[1..] + b;
      LabelInAppend(a[1..], b, t);
    }
  }

  lemma {:induction false} NoLabelInCode(items: seq<CItem>, t: nat)
    requires forall i :: 0 <= i < |items| ==> items[i].CCode?
    ensures LabelAt(items, t) == None
  {
    if items != [] {
      NoLabelInCode(items[1..], t);
    }
  }

  lemma LinesHaveNoLabel(insn: DisassembledInsn, names: Names, t: nat)
    ensures LabelAt(InsnItems(insn, names), t) == None
  {
    hide Lifter.LiftInsn, EmitOpcode;
    NoLabelInCode(InsnItems(insn, names), t);
  }

  /** One more instruction adds its label, if it leads, and no other. */
  lemma LabelStep(insns: seq<DisassembledInsn>, lead: nat -> bool, names: Names, n: nat, t: nat)
    requires n < |insns|
    ensures var before, after := LabelAt(FlatItems(insns, lead, names, n), t), LabelAt(FlatItems(insns, lead, names, n + 1), t);
      after == if before.Some? then before
               else if (n == 0 || lead(n)) && insns[n].address == t then Some(Pos(insns, lead, names, n)) else None
  {
    hide InsnItems;
    var flat := FlatItems(insns, lead, names, n);
    LabelInAppend(flat, LabelItems(insns, lead, n), t);
    LabelInAppend(flat + LabelItems(insns, lead, n), InsnItems(insns[n], names), t);
    LinesHaveNoLabel(insns[n], names, t);
  }

  /** The labels of the first n instructions: exactly the leaders' addresses, each at its position. */
  lemma {:induction false} LabelsExact(insns: seq<DisassembledInsn>, lead: nat -> bool, names: Names, n: nat, l: nat)
    requires AscendingAddresses(insns) && n <= |insns| && l < |insns|
    ensures LabelAt(FlatItems(insns, lead, names, n), insns[l].address)
            == if l < n && (l == 0 || lead(l)) then Some(Pos(insns, lead, names, l)) else None
    decreases n
  {
    hide FlatItems;
    if n == 0 {
      EmptyFlat(insns, lead, names);
    } else {
      LabelsExact(insns, lead, names, n - 1, l);
      LabelStep(insns, lead, names, n - 1, insns[l].address);
    }
  }

  lemma EmptyFlat(insns: seq<DisassembledInsn>, lead: nat -> bool, names: Names)
    ensures FlatItems(insns, lead, names, 0) == []
  {
  }

  /** A leader's address is a label of the program, at the leader's position. */
  lemma LeaderIsLabelled(insns: seq<DisassembledInsn>, lead: nat -> bool, names: Names, l: nat)
    requires AscendingAddresses(insns) && l < |insns| && (l == 0 || lead(l))
    ensures LabelAt(Program(insns, lead, names), insns[l].address) == Some(Pos(insns, lead, names, l))
  {
    hide FlatItems;
    LabelsExact(insns, lead, names, |insns|, l);
    LabelInAppend(FlatItems(insns, lead, names, |insns|), [CCode([CReturnRax])], insns[l].address);
  }

  lemma {:induction false} OnlyLeadersLabelled(insns: seq<DisassembledInsn>, lead: nat -> bool, names: Names, n: nat, t: nat)
    requires n <= |insns|
    ensures LabelAt(FlatItems(insns, lead, names, n), t).Some? ==>
              exists l :: 0 <= l < n && (l == 0 || lead(l)) && insns[l].address == t
    decreases n
  {
    hide FlatItems;
    if n == 0 {
      EmptyFlat(insns, lead, names);
    } else {
      OnlyLeadersLabelled(insns, lead, names, n - 1, t);
      LabelStep(insns, lead, names, n - 1, t);
    }
  }

  /** Goto closure: a target has a label exactly when it is the address of a leader. */
  lemma LabelExists(insns: seq<DisassembledInsn>, lead: nat -> bool, names: Names, t: nat)
    requires AscendingAddresses(insns)
    ensures LabelAt(Program(insns, lead, names), t).Some?
            <==> exists l :: 0 <= l < |insns| && (l == 0 || lead(l)) && insns[l].address == t
  {
    hide FlatItems;
    LabelInAppend(FlatItems(insns, lead, names, |insns|), [CCode([CReturnRax])], t);
    NoLabelInCode([CCode([CReturnRax])], t);
    OnlyLeadersLabelled(insns, lead, names, |insns|, t);
    if l :| 0 <= l < |insns| && (l == 0 || lead(l)) && insns[l].address == t {
      LabelsExact(insns, lead, names, |insns|, l);
    }
  }
}
