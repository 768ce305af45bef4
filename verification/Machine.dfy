/** A function of the subset placed in memory, its runs on the processor, and what the code around an
    instruction tells about the flags there. */
module Machine {
  import opened Wrappers
  import opened Words
  import opened Frontend
  import opened X86
  import opened Capstone
  import opened Flags
  import opened Instructions

  /** At least one instruction, each encodable and starting where the one before ends. */
  predicate Placed(p: seq<XLine>) {
    && p != []
    && (forall k :: 0 <= k < |p| ==> p[k].size > 0 && p[k].insn.Encodable())
    && (forall k :: 0 <= k < |p| - 1 ==> p[k + 1].address == p[k].address + p[k].size)
  }

  lemma PlacedContiguous(p: seq<XLine>)
    requires Placed(p)
    ensures Contiguous(Disassembly(p)) && AscendingAddresses(Disassembly(p))
  {
    ContiguousIsAscending(Disassembly(p));
  }

  /** The index of the instruction at an address; the length when there is none. */
  function IndexAt(p: seq<XLine>, pc: nat): (k: nat)
    ensures k <= |p|
    ensures k < |p| ==> p[k].address == pc
    ensures k == |p| ==> forall i :: 0 <= i < |p| ==> p[i].address != pc
  {
    if p == [] || p[0].address == pc then 0 else 1 + IndexAt(p[1..], pc)
  }

  lemma AddressesDiffer(p: seq<XLine>, k: nat, l: nat)
    requires Placed(p) && k < |p|
    ensures l < |p| && p[l].address == p[k].address ==> l == k
  {
    PlacedContiguous(p);
    var insns := Disassembly(p);
    assert insns[k].address == p[k].address && (l < |p| ==> insns[l].address == p[l].address);
  }

  lemma IndexOfAddress(p: seq<XLine>, k: nat)
    requires Placed(p) && k < |p|
    ensures IndexAt(p, p[k].address) == k
  {
    AddressesDiffer(p, k, IndexAt(p, p[k].address));
  }

  lemma LastNotEmpty(p: seq<XLine>)
    requires Placed(p)
    ensures p != [] && p[|p| - 1].size > 0
  {
  }

  lemma LastEndsAll(p: seq<XLine>, l: nat)
    requires Placed(p) && l < |p|
    ensures p[l].address < p[|p| - 1].address + p[|p| - 1].size
  {
    hide Placed;
    PlacedContiguous(p);
    var insns := Disassembly(p);
    assert l < |p| - 1 ==> insns[l].address < insns[|p| - 1].address;
    LastNotEmpty(p);
  }

  /** The address after instruction k is that of instruction k + 1, or of none after the last. */
  lemma IndexAfter(p: seq<XLine>, k: nat)
    requires Placed(p) && k < |p|
    ensures IndexAt(p, p[k].address + p[k].size) == k + 1
  {
    hide Placed, IndexAt;
    if k + 1 < |p| {
      IndexOfAddress(p, k + 1);
      NextAddress(p, k);
    } else {
      NothingAtEnd(p);
    }
  }

  lemma NextAddress(p: seq<XLine>, k: nat)
    requires Placed(p) && k + 1 < |p|
    ensures p[k + 1].address == p[k].address + p[k].size
  {
  }

  lemma NothingAtEnd(p: seq<XLine>)
    requires Placed(p) && p != []
    ensures IndexAt(p, p[|p| - 1].address + p[|p| - 1].size) == |p|
  {
    hide Placed;
    var l := IndexAt(p, p[|p| - 1].address + p[|p| - 1].size);
    if l < |p| {
      LastEndsAll(p, l);
    }
  }

  function TargetOf(i: XInsn): Option<word> {
    match i
    case XJmp(t) => Some(t)
    case XJcc(_, t) => Some(t)
    case _ => None
  }

  /** Every jump goes to an instruction of the function. */
  predicate Closed(p: seq<XLine>) {
    forall k :: 0 <= k < |p| && TargetOf(p[k].insn).Some? ==> IndexAt(p, TargetOf(p[k].insn).value) < |p|
  }

  // Runs.

  /** Before the instruction at pc, after a return, or after control ran past the end. */
  datatype XConfig = XAt(pc: nat, state: XState) | XDone(state: XState) | XLeft(state: XState)

  ghost function XStep(p: seq<XLine>, c: XConfig, stray: XFlags): XConfig {
    if !c.XAt? then c
    else
      var k := IndexAt(p, c.pc);
      if k == |p| then XLeft(c.state)
      else
        var r := XExec(p[k].insn, c.state, stray);
        match r.next
        case XOnward => XAt(p[k].address + p[k].size, r.state)
        case XGoto(t) => XAt(t, r.state)
        case XReturn => XDone(r.state)
  }

  /** n steps from the first instruction; the i-th takes its undefined flags from strays(i). */
  ghost function XRun(p: seq<XLine>, strays: nat -> XFlags, s: XState, n: nat): XConfig
    requires p != []
  {
    if n == 0 then XAt(p[0].address, s) else XStep(p, XRun(p, strays, s, n - 1), strays(n - 1))
  }

  /** The instruction about to run. */
  function Current(p: seq<XLine>, c: XConfig): (k: Option<nat>)
    ensures k.Some? ==> k.value < |p|
  {
    if c.XAt? && IndexAt(p, c.pc) < |p| then Some(IndexAt(p, c.pc)) else None
  }

  function NextSource(p: seq<XLine>, c: XConfig, source: Source): Source {
    var k := Current(p, c);
    if k.Some? then Transfer(p[k.value].insn, source) else source
  }

  /** Where the flags come from after n steps. */
  ghost function SourceAfter(p: seq<XLine>, strays: nat -> XFlags, s: XState, n: nat): Source
    requires p != []
  {
    if n == 0 then Stale else NextSource(p, XRun(p, strays, s, n - 1), SourceAfter(p, strays, s, n - 1))
  }

  /** The next instruction, if any, is of a faithful form. */
  predicate NextFaithful(p: seq<XLine>, c: XConfig, source: Source) {
    var k := Current(p, c);
    k.Some? ==> Faithful(p[k.value].insn, source)
  }

  /** The next instruction negates the least signed number. */
  ghost predicate NextNegatesLeast(p: seq<XLine>, c: XConfig) {
    var k := Current(p, c);
    k.Some? && NegatesLeast(p[k.value].insn, c.state)
  }

  /** During n steps only faithful forms are executed, and the least number is never negated. */
  ghost predicate GoodRun(p: seq<XLine>, strays: nat -> XFlags, s: XState, n: nat)
    requires p != []
  {
    forall i :: 0 <= i < n ==>
      NextFaithful(p, XRun(p, strays, s, i), SourceAfter(p, strays, s, i)) && !NextNegatesLeast(p, XRun(p, strays, s, i))
  }

  // Paths through the code, whatever the conditions turn out to be.

  predicate Falls(i: XInsn) {
    !i.XJmp? && !i.XRet?
  }

  predicate StaticStep(p: seq<XLine>, k: nat, l: nat)
    requires k < |p| && l < |p|
  {
    TargetOf(p[k].insn) == Some(p[l].address) || (Falls(p[k].insn) && l == k + 1)
  }

  predicate Path(p: seq<XLine>, trace: seq<nat>) {
    && trace != [] && trace[0] == 0
    && (forall i :: 0 <= i < |trace| ==> trace[i] < |p|)
    && (forall i :: 0 < i < |trace| ==> StaticStep(p, trace[i - 1], trace[i]))
  }

  /** Where the flags come from on arrival at the end of a path. */
  function PathSource(p: seq<XLine>, trace: seq<nat>): Source
    requires forall i :: 0 <= i < |trace| ==> trace[i] < |p|
  {
    if |trace| <= 1 then Stale
    else Transfer(p[trace[|trace| - 2]].insn, PathSource(p, trace[..|trace| - 1]))
  }

  predicate Admits(p: seq<XLine>, trace: seq<nat>)
    requires Path(p, trace)
  {
    Faithful(p[trace[|trace| - 1]].insn, PathSource(p, trace))
  }

  /** Along every path each instruction is of a faithful form; in particular every condition is
      reached only from a comparison that answers it, with no other flag-writing instruction between. */
  ghost predicate Admissible(p: seq<XLine>) {
    forall trace :: Path(p, trace) ==> Admits(p, trace)
  }

  lemma StepAppended(p: seq<XLine>, trace: seq<nat>, l: nat, i: nat)
    requires Path(p, trace) && l < |p| && StaticStep(p, trace[|trace| - 1], l) && 0 < i <= |trace|
    ensures var t := trace + [l]; t[i - 1] < |p| && t[i] < |p| && StaticStep(p, t[i - 1], t[i])
  {
    hide StaticStep;
    var t := trace + [l];
    assert t[i - 1] == trace[i - 1];
    if i < |trace| {
      assert t[i] == trace[i];
    }
  }

  lemma PathExtended(p: seq<XLine>, trace: seq<nat>, l: nat)
    requires Path(p, trace) && l < |p| && StaticStep(p, trace[|trace| - 1], l)
    ensures Path(p, trace + [l])
    ensures PathSource(p, trace + [l]) == Transfer(p[trace[|trace| - 1]].insn, PathSource(p, trace))
  {
    hide StaticStep, Transfer;
    var t := trace + [l];
    assert t[..|t| - 1] == trace;
    forall i | 0 < i < |t| ensures StaticStep(p, t[i - 1], t[i]) {
      StepAppended(p, trace, l, i);
    }
  }

  /** Control passes as the instruction's target and fall-through say. */
  lemma ExecStaysStatic(i: XInsn, s: XState, stray: XFlags)
    ensures var n := XExec(i, s, stray).next;
      && (n.XGoto? ==> TargetOf(i) == Some(n.target))
      && (n.XOnward? ==> Falls(i))
  {
  }

  lemma StepIsStatic(p: seq<XLine>, c: XConfig, stray: XFlags)
    requires Placed(p) && Current(p, c).Some? && Current(p, XStep(p, c, stray)).Some?
    ensures StaticStep(p, Current(p, c).value, Current(p, XStep(p, c, stray)).value)
  {
    hide XExec;
    var k := Current(p, c).value;
    ExecStaysStatic(p[k].insn, c.state, stray);
    IndexAfter(p, k);
  }

  /** Every run follows a path, and learns about the flags what the path tells. */
  lemma {:induction false} RunFollowsPath(p: seq<XLine>, strays: nat -> XFlags, s: XState, n: nat) returns (trace: seq<nat>)
    requires Placed(p) && Current(p, XRun(p, strays, s, n)).Some?
    ensures Path(p, trace) && trace[|trace| - 1] == Current(p, XRun(p, strays, s, n)).value
    ensures PathSource(p, trace) == SourceAfter(p, strays, s, n)
  {
    hide XStep, Transfer, PathSource;
    if n == 0 {
      IndexOfAddress(p, 0);
      trace := [0];
      StartPath(p);
    } else {
      var before := XRun(p, strays, s, n - 1);
      StoppedStays(p, before, strays(n - 1));
      var front := RunFollowsPath(p, strays, s, n - 1);
      StepIsStatic(p, before, strays(n - 1));
      var l := Current(p, XRun(p, strays, s, n)).value;
      trace := front + [l];
      PathExtended(p, front, l);
    }
  }

  lemma StartPath(p: seq<XLine>)
    requires Placed(p)
    ensures Path(p, [0]) && PathSource(p, [0]) == Stale
  {
  }

  lemma StoppedStays(p: seq<XLine>, c: XConfig, stray: XFlags)
    ensures Current(p, c).None? ==> Current(p, XStep(p, c, stray)).None?
  {
  }

  /** In an admissible function every run executes only faithful forms. */
  lemma AdmissibleRunsFaithfully(p: seq<XLine>, strays: nat -> XFlags, s: XState, n: nat)
    requires Placed(p) && Admissible(p)
    ensures NextFaithful(p, XRun(p, strays, s, n), SourceAfter(p, strays, s, n))
  {
    if Current(p, XRun(p, strays, s, n)).Some? {
      var trace := RunFollowsPath(p, strays, s, n);
      assert Admits(p, trace);
    }
  }

  // Checking admissibility instruction by instruction.

  predicate Weaker(a: Source, b: Source) {
    Readable(a) <= Readable(b)
  }

  /** One origin for each instruction, respected by every step. */
  predicate Certifies(p: seq<XLine>, sources: seq<Source>) {
    && |sources| == |p|
    && (p != [] ==> sources[0] == Stale)
    && (forall k :: 0 <= k < |p| ==> Faithful(p[k].insn, sources[k]))
    && (forall k, l :: 0 <= k < |p| && 0 <= l < |p| && StaticStep(p, k, l) ==>
          Weaker(sources[l], Transfer(p[k].insn, sources[k])))
  }

  lemma TransferMonotone(i: XInsn, a: Source, b: Source)
    requires Weaker(a, b)
    ensures Weaker(Transfer(i, a), Transfer(i, b))
  {
  }

  lemma FaithfulMonotone(i: XInsn, a: Source, b: Source)
    requires Weaker(a, b) && Faithful(i, a)
    ensures Faithful(i, b)
  {
  }

  lemma {:induction false} CertificateBounds(p: seq<XLine>, sources: seq<Source>, trace: seq<nat>)
    requires Certifies(p, sources) && Path(p, trace)
    ensures Weaker(sources[trace[|trace| - 1]], PathSource(p, trace))
    decreases |trace|
  {
    hide Transfer, Faithful;
    if |trace| > 1 {
      var front := trace[..|trace| - 1];
      var k, l := trace[|trace| - 2], trace[|trace| - 1];
      CertificateBounds(p, sources, front);
      TransferMonotone(p[k].insn, sources[k], PathSource(p, front));
      assert StaticStep(p, k, l);
    }
  }

  /** A finite check: a function is admissible if its instructions can be given such origins. */
  lemma CertificateSuffices(p: seq<XLine>, sources: seq<Source>)
    requires Certifies(p, sources)
    ensures Admissible(p)
  {
    forall trace | Path(p, trace) ensures Admits(p, trace) {
      CertificateBounds(p, sources, trace);
      var k := trace[|trace| - 1];
      FaithfulMonotone(p[k].insn, sources[k], PathSource(p, trace));
    }
  }
}
