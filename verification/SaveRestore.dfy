/** Emitted prologues and epilogues: saving registers on the stack and restoring them. */
module SaveRestore {
  import opened Words
  import opened Ir
  import opened CLang
  import opened Backend
  import opened X86
  import opened Instructions
  import opened LiftProofs

  predicate AllEncodable(code: seq<XInsn>) {
    forall k :: 0 <= k < |code| ==> code[k].Encodable()
  }

  /** The lines printed for a straight list of instructions. */
  function LinesOfAll(code: seq<XInsn>, names: Names): seq<CLine>
    requires AllEncodable(code)
  {
    if code == [] then [] else Lines(code[0], 0, names) + LinesOfAll(code[1..], names)
  }

  function Pushes(rs: seq<Gpr>): (code: seq<XInsn>)
    ensures AllEncodable(code)
  {
    seq(|rs|, k requires 0 <= k < |rs| => XPush(XReg(rs[k])))
  }

  /** Pops in the reverse order. */
  function Pops(rs: seq<Gpr>): (code: seq<XInsn>)
    ensures AllEncodable(code)
  {
    seq(|rs|, k requires 0 <= k < |rs| => XPop(XReg(rs[|rs| - 1 - k])))
  }

  /** One register pushed. */
  function Saved(s: CState, r: Gpr): CState {
    var top := ToWord(s.regs(RSP) - 8);
    CState(Updated(s.regs, RSP, top), Write64(s.mem, top, s.regs(r)))
  }

  /** One register popped. */
  function Restored(s: CState, r: Gpr): CState {
    SetReg(SetReg(s, r, Read64(s.mem, s.regs(RSP))), RSP, ToWord(s.regs(RSP) + 8))
  }

  function SaveAll(rs: seq<Gpr>, s: CState): CState {
    if rs == [] then s else SaveAll(rs[1..], Saved(s, rs[0]))
  }

  function RestoreAll(rs: seq<Gpr>, s: CState): CState {
    if rs == [] then s else Restored(RestoreAll(rs[1..], s), rs[0])
  }

  // The emitted lines do just that.

  lemma PushSaves(r: Gpr, names: Names, s: CState, callee: Callee)
    requires r != RSP
    ensures ExecLines(Lines(XPush(XReg(r)), 0, names), s, callee) == Defined(Saved(s, r), Onward)
  {
    hide ExecLine, ExecLines, Lines, Word;
    var line := [PUSH_SLOT, CStore(STACK_TOP, CReg(r))];
    PushLines(XReg(r), 0, names);
    RegisterRead(r, SetReg(s, RSP, ToWord(s.regs(RSP) - 8)));
    PushLine(CReg(r), s, s.regs(r), callee);
    OneLine(line, s, callee);
  }

  lemma PopRestores(r: Gpr, names: Names, s: CState, callee: Callee)
    requires r != RSP
    ensures ExecLines(Lines(XPop(XReg(r)), 0, names), s, callee) == Defined(Restored(s, r), Onward)
  {
    hide ExecLine, ExecLines, Lines, Read64;
    var line := [CAssign(r, CDeref(STACK_TOP)), POP_SLOT];
    PopLines(XPop(XReg(r)), 0, names);
    PopLine(r, s, callee);
    OneLine(line, s, callee);
  }

  lemma {:induction false} PushesSave(rs: seq<Gpr>, names: Names, s: CState, callee: Callee)
    requires RSP !in rs
    ensures ExecLines(LinesOfAll(Pushes(rs), names), s, callee) == Defined(SaveAll(rs, s), Onward)
    decreases |rs|
  {
    hide ExecLine, Lines, Saved;
    if rs != [] {
      assert Pushes(rs)[1..] == Pushes(rs[1..]);
      PushSaves(rs[0], names, s, callee);
      PushesSave(rs[1..], names, Saved(s, rs[0]), callee);
      LinesThen(Lines(XPush(XReg(rs[0])), 0, names), LinesOfAll(Pushes(rs[1..]), names), s, callee);
    }
  }

  lemma {:induction false} LinesOfAppend(a: seq<XInsn>, b: seq<XInsn>, names: Names)
    requires AllEncodable(a) && AllEncodable(b)
    ensures LinesOfAll(a + b, names) == LinesOfAll(a, names) + LinesOfAll(b, names)
  {
    hide Lines;
    if a == [] {
      assert a + b == b;
    } else {
      assert (a + b)[0] == a[0] && (a + b)[1..] == a[1..] + b;
      LinesOfAppend(a[1..], b, names);
    }
  }

  lemma {:induction false} PopsRestore(rs: seq<Gpr>, names: Names, s: CState, callee: Callee)
    requires RSP !in rs
    ensures ExecLines(LinesOfAll(Pops(rs), names), s, callee) == Defined(RestoreAll(rs, s), Onward)
    decreases |rs|
  {
    hide ExecLine, Lines, Restored, ExecLines;
    if rs == [] {
      NoLines(s, names, callee);
      assert Pops(rs) == Pops([]);
    } else {
      var first := [XPop(XReg(rs[0]))];
      assert Pops(rs) == Pops(rs[1..]) + first;
      LinesOfAppend(Pops(rs[1..]), first, names);
      PopsRestore(rs[1..], names, s, callee);
      var mid := RestoreAll(rs[1..], s);
      assert first[0] == XPop(XReg(rs[0]));
      PopRestores(rs[0], names, mid, callee);
      assert first[1..] == [] && LinesOfAll([], names) == [];
      assert LinesOfAll(first, names) == Lines(first[0], 0, names) + [] == Lines(first[0], 0, names);
      LinesThen(LinesOfAll(Pops(rs[1..]), names), LinesOfAll(first, names), s, callee);
    }
  }

  lemma NoLines(s: CState, names: Names, callee: Callee)
    ensures ExecLines(LinesOfAll(Pops([]), names), s, callee) == Defined(s, Onward)
  {
  }

  // Slots.

  /** The address of the k-th saved register. */
  function Slot(s: CState, k: nat): word {
    ToWord(s.regs(RSP) - 8 * (k + 1))
  }

  lemma SlotsApart(s: CState, j: nat, k: nat)
    requires j < k && 8 * (k + 1) <= WORD
    ensures Apart(Slot(s, k), Slot(s, j))
  {
    DifferenceCongruence(s.regs(RSP) - 8 * (j + 1), s.regs(RSP) - 8 * (k + 1), 8 * (k - j));
  }

  lemma DifferenceCongruence(x: int, y: int, d: int)
    requires x - y == d && 8 <= d <= 0xffff_ffff_ffff_fff8
    ensures Apart(ToWord(y), ToWord(x))
  {
    var i, j := x / WORD, y / WORD;
    assert i == j || i == j + 1;
  }

  lemma NextSlot(s: CState, r: Gpr, k: nat)
    ensures Slot(Saved(s, r), k) == Slot(s, k + 1)
  {
    SumCongruence(s.regs(RSP) - 8, 0 - 8 * (k + 1));
  }

  /** Later pushes leave an earlier slot alone. */
  lemma {:induction false} SlotSurvives(rs: seq<Gpr>, s: CState, a: word)
    requires forall k :: 0 <= k < |rs| ==> Apart(Slot(s, k), a)
    ensures Read64(SaveAll(rs, s).mem, a) == Read64(s.mem, a)
    decreases |rs|
  {
    hide Read64, Write64, Apart;
    if rs != [] {
      var t := Saved(s, rs[0]);
      forall k | 0 <= k < |rs| - 1 ensures Apart(Slot(t, k), a) {
        NextSlot(s, rs[0], k);
      }
      SlotSurvives(rs[1..], t, a);
      assert Apart(Slot(s, 0), a);
      ReadElsewhere(s.mem, Slot(s, 0), s.regs(rs[0]), a);
    }
  }

  lemma SavedMemory(s: CState, r: Gpr)
    ensures Saved(s, r).mem == Write64(s.mem, Slot(s, 0), s.regs(r))
  {
    hide Write64;
  }

  /** After all pushes the first slot holds the first register. */
  lemma FirstSlotHolds(rs: seq<Gpr>, s: CState)
    requires rs != [] && 8 * |rs| <= WORD
    ensures Read64(SaveAll(rs, s).mem, Slot(s, 0)) == s.regs(rs[0])
  {
    hide Read64, Write64, Apart, Saved, Slot, ToWord;
    var t := Saved(s, rs[0]);
    SavedMemory(s, rs[0]);
    forall k | 0 <= k < |rs| - 1 ensures Apart(Slot(t, k), Slot(s, 0)) {
      NextSlot(s, rs[0], k);
      SlotsApart(s, 0, k + 1);
    }
    SlotSurvives(rs[1..], t, Slot(s, 0));
    ReadBack(s.mem, Slot(s, 0), s.regs(rs[0]));
  }

  /** Between the pushes and the pops: rsp is back where it was and the slots are as they were left. */
  predicate FrameKept(rs: seq<Gpr>, s: CState, before: CState, after: CState) {
    && after.regs(RSP) == before.regs(RSP)
    && forall k :: 0 <= k < |rs| ==> Read64(after.mem, Slot(s, k)) == Read64(before.mem, Slot(s, k))
  }

  lemma FrameOfRest(rs: seq<Gpr>, s: CState, after: CState)
    requires rs != [] && FrameKept(rs, s, SaveAll(rs, s), after)
    ensures FrameKept(rs[1..], Saved(s, rs[0]), SaveAll(rs[1..], Saved(s, rs[0])), after)
  {
    hide Read64, Write64;
    forall k | 0 <= k < |rs| - 1
      ensures Read64(after.mem, Slot(Saved(s, rs[0]), k))
              == Read64(SaveAll(rs[1..], Saved(s, rs[0])).mem, Slot(Saved(s, rs[0]), k))
    {
      NextSlot(s, rs[0], k);
    }
  }

  lemma {:induction false} FrameRestored(rs: seq<Gpr>, s: CState, body: CState)
    requires RSP !in rs && 8 * |rs| <= WORD && FrameKept(rs, s, SaveAll(rs, s), body)
    ensures var t := RestoreAll(rs, body);
      && t.mem == body.mem && t.regs(RSP) == s.regs(RSP)
      && (forall r :: r in rs ==> t.regs(r) == s.regs(r))
      && (forall b: VarBase :: b != RSP && b !in rs ==> t.regs(b) == body.regs(b))
    decreases |rs|
  {
    hide Read64, Write64;
    if rs != [] {
      var r, t := rs[0], Saved(s, rs[0]);
      FrameOfRest(rs, s, body);
      FrameRestored(rs[1..], t, body);
      FirstSlotHolds(rs, s);
      assert t.regs(RSP) == Slot(s, 0);
      SumCongruence(s.regs(RSP) - 8, 8);
    }
  }

  /** After the pops: the saved registers and rsp are as in s, everything else as the body left it. */
  ghost predicate RestoredFrom(rs: seq<Gpr>, s: CState, body: CState, r: COutcome) {
    && r.Defined? && r.next.Onward? && r.state.mem == body.mem && r.state.regs(RSP) == s.regs(RSP)
    && (forall q :: q in rs ==> r.state.regs(q) == s.regs(q))
    && (forall b: VarBase :: b != RSP && b !in rs ==> r.state.regs(b) == body.regs(b))
  }

  /** Saving any registers but rsp, running anything that puts rsp back and keeps the saved slots, and
      restoring in the reverse order: all saved registers and rsp have their old values, and nothing
      else changes after the body. */
  lemma SaveThenRestore(rs: seq<Gpr>, names: Names, callee: Callee, s: CState, body: CState)
    requires RSP !in rs && 8 * |rs| <= WORD && FrameKept(rs, s, SaveAll(rs, s), body)
    ensures ExecLines(LinesOfAll(Pushes(rs), names), s, callee) == Defined(SaveAll(rs, s), Onward)
    ensures RestoredFrom(rs, s, body, ExecLines(LinesOfAll(Pops(rs), names), body, callee))
  {
    hide ExecLines, LinesOfAll, FrameKept, SaveAll, RestoreAll, Pushes, Pops;
    PushesSave(rs, names, s, callee);
    PopsRestore(rs, names, body, callee);
    FrameRestored(rs, s, body);
  }

  // Frame pointers.

  /** push rbp; mov rbp, rsp */
  function EnterCode(): (code: seq<XInsn>)
    ensures AllEncodable(code)
  {
    [XPush(XReg(RBP)), XMov(XReg(RBP), XReg(RSP))]
  }

  function EnterFrame(s: CState): CState {
    var t := Saved(s, RBP);
    SetReg(t, RBP, t.regs(RSP))
  }

  lemma MoveLines(names: Names)
    ensures Lines(XMov(XReg(RBP), XReg(RSP)), 0, names) == [[CAssign(RBP, CReg(RSP))]]
  {
    OneOp(Lowered(XMov(XReg(RBP), XReg(RSP)), "", 0, 0, map[])[0], names);
  }

  lemma TwoInsns(a: XInsn, b: XInsn, names: Names)
    requires AllEncodable([a, b])
    ensures a.Encodable() && b.Encodable() && LinesOfAll([a, b], names) == Lines(a, 0, names) + Lines(b, 0, names)
  {
    hide Lines;
    assert [a, b][0].Encodable() && [a, b][1].Encodable();
    assert [a, b][1..] == [b] && [b][1..] == [];
    assert LinesOfAll([], names) == [];
    assert LinesOfAll([b], names) == Lines(b, 0, names) + [];
  }

  lemma FrameEntered(names: Names, callee: Callee, s: CState)
    ensures ExecLines(LinesOfAll(EnterCode(), names), s, callee) == Defined(EnterFrame(s), Onward)
  {
    hide ExecLine, ExecLines, Lines, LinesOfAll, Word, Saved;
    var push, move := XPush(XReg(RBP)), XMov(XReg(RBP), XReg(RSP));
    var t := Saved(s, RBP);
    PushSaves(RBP, names, s, callee);
    MoveLines(names);
    RegisterRead(RSP, t);
    AssignLine(RBP, CReg(RSP), t.regs(RSP), t, callee);
    OneLine([CAssign(RBP, CReg(RSP))], t, callee);
    TwoInsns(push, move, names);
    LinesThen(Lines(push, 0, names), Lines(move, 0, names), s, callee);
  }

  lemma LeaveRestores(names: Names, callee: Callee, s: CState)
    ensures ExecLines(Lines(XLeave, 0, names), s, callee) == Defined(Restored(SetReg(s, RSP, s.regs(RBP)), RBP), Onward)
  {
    hide ExecLines, Read64, Lines;
    LeaveRuns(0, names, s, callee);
  }

  /** The body keeps rbp and the slot that holds the caller's. */
  predicate FramePointerKept(s: CState, body: CState) {
    && body.regs(RBP) == EnterFrame(s).regs(RBP)
    && Read64(body.mem, Slot(s, 0)) == Read64(EnterFrame(s).mem, Slot(s, 0))
  }

  lemma FrameLeft(s: CState, body: CState)
    requires FramePointerKept(s, body)
    ensures var t := Restored(SetReg(body, RSP, body.regs(RBP)), RBP);
      && t.mem == body.mem && t.regs(RBP) == s.regs(RBP) && t.regs(RSP) == s.regs(RSP)
      && (forall b: VarBase :: b != RSP && b != RBP ==> t.regs(b) == body.regs(b))
  {
    hide Read64, Write64;
    ReadBack(s.mem, Slot(s, 0), s.regs(RBP));
    SumCongruence(s.regs(RSP) - 8, 8);
  }

  /** What the lines of leave do. */
  ghost function Left(names: Names, s: CState, callee: Callee): COutcome {
    ExecLines(Lines(XLeave, 0, names), s, callee)
  }

  /** push rbp; mov rbp, rsp; a body that keeps rbp and the saved slot, whatever it does to rsp; leave:
      rbp and rsp have their old values. */
  lemma EnterThenLeave(names: Names, callee: Callee, s: CState, body: CState)
    requires FramePointerKept(s, body)
    ensures ExecLines(LinesOfAll(EnterCode(), names), s, callee)
            == Defined(EnterFrame(s), Onward)
    ensures RestoredFrom([RBP], s, body, Left(names, body, callee))
  {
    hide ExecLines, Read64, Write64, Lines, LinesOfAll, EnterFrame, Restored, SetReg;
    FrameEntered(names, callee, s);
    LeaveRestores(names, callee, body);
    FrameLeft(s, body);
  }
}
