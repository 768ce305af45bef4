/** What the edges mean: a walk of the graph and a run of the flat code visit the same instructions. */
module CfgWalk {
  import opened Wrappers
  import opened Text
  import opened Partition
  import opened Frontend
  import opened Cfg

  // Edge lists.

  lemma EdgesFromExact(id: nat, ts: seq<nat>, b: nat, c: nat)
    ensures (b, c) in EdgesFrom(id, ts) <==> b == id && c in ts
  {
    if b == id && c in ts {
      var i :| 0 <= i < |ts| && ts[i] == c;
      assert EdgesFrom(id, ts)[i] == (b, c);
    }
  }

  lemma {:induction false} EdgesExact(targets: nat -> seq<nat>, n: nat, b: nat, c: nat)
    ensures (b, c) in EdgeList(targets, n) <==> b < n && c in targets(b)
  {
    if n > 0 {
      EdgesExact(targets, n - 1, b, c);
      EdgesFromExact(n - 1, targets(n - 1), b, c);
    }
  }

  // The control skeleton of an instruction list: addresses, ends and flows, without the text.

  datatype Skeleton = Skeleton(addrs: seq<nat>, ends: seq<nat>, flows: seq<Flow>) {
    predicate Valid() {
      |addrs| == |ends| == |flows|
    }

    /** Control may pass from instruction k to instruction l. */
    predicate FlatStep(k: nat, l: nat)
      requires Valid() && k < |addrs| && l < |addrs|
    {
      || (flows[k].target.Some? && flows[k].target.value == addrs[l])
      || (flows[k].falls && addrs[l] == ends[k])
    }

    /** Each instruction ends where the next one starts, and nowhere else. */
    predicate Chained()
      requires Valid()
    {
      forall k, l :: 0 <= k < |addrs| && 0 <= l < |addrs| ==> (addrs[l] == ends[k] <==> l == k + 1)
    }

    /** Targets lead blocks, and only plain instructions come before an index that does not lead. */
    predicate LedBy(lead: nat -> bool)
      requires Valid()
    {
      && (forall k, l :: 0 <= k < |addrs| && 0 <= l < |addrs| && flows[k].target == Some(addrs[l]) ==> lead(l))
      && (forall k :: 0 <= k < |addrs| - 1 && !lead(k + 1) ==> flows[k] == Flow(None, true))
    }

    /** The index finds the start of every block, and nothing else. */
    predicate IndexedBy(lead: nat -> bool, m: map<nat, nat>) {
      && (forall b :: 0 <= b < Count(lead, |addrs|) ==>
            addrs[Cut(lead, |addrs|, b)] in m && m[addrs[Cut(lead, |addrs|, b)]] == b)
      && (forall a :: a in m ==> m[a] < Count(lead, |addrs|) && addrs[Cut(lead, |addrs|, m[a])] == a)
    }

    /** Control stays in a block, or goes from the end of one block to the start of a recorded target. */
    predicate GraphStep(lead: nat -> bool, m: map<nat, nat>, k: nat, l: nat)
      requires Valid() && k < |addrs| && l < |addrs|
    {
      var b, c := BlockOf(lead, k), BlockOf(lead, l);
      || (b == c && l == k + 1)
      || (&& k + 1 == Cut(lead, |addrs|, b + 1) && l == Cut(lead, |addrs|, c)
          && c in EdgeTargets(flows[k], b, Count(lead, |addrs|), m))
    }

    lemma InsideBlockAgrees(lead: nat -> bool, m: map<nat, nat>, k: nat, l: nat)
      requires Valid() && Chained() && LedBy(lead) && k < |addrs| && l < |addrs|
      requires k + 1 < Cut(lead, |addrs|, BlockOf(lead, k) + 1)
      ensures FlatStep(k, l) <==> GraphStep(lead, m, k, l)
    {
      var b := BlockOf(lead, k);
      BlockOfExact(lead, |addrs|, k);
      InsideBlock(lead, |addrs|, b, k + 1);
      assert flows[k] == Flow(None, true);
      if l == k + 1 {
        BlockOfUnique(lead, |addrs|, l, b);
      }
    }

    lemma StepLeadsTarget(lead: nat -> bool, m: map<nat, nat>, k: nat, l: nat)
      requires Valid() && LedBy(lead) && IndexedBy(lead, m) && k < |addrs| && l < |addrs|
      requires flows[k].target == Some(addrs[l])
      ensures l == Cut(lead, |addrs|, BlockOf(lead, l)) && addrs[l] in m && m[addrs[l]] == BlockOf(lead, l)
    {
      LeadStartsBlock(lead, |addrs|, l);
      BlockOfExact(lead, |addrs|, l);
    }

    lemma NextStartsBlock(lead: nat -> bool, k: nat)
      requires k + 1 < |addrs| && k + 1 == Cut(lead, |addrs|, BlockOf(lead, k) + 1)
      ensures BlockOf(lead, k + 1) == BlockOf(lead, k) + 1 < Count(lead, |addrs|)
    {
      CutMonotone(lead, |addrs|, BlockOf(lead, k) + 1, BlockOf(lead, k) + 2);
      BlockOfUnique(lead, |addrs|, k + 1, BlockOf(lead, k) + 1);
    }

    /** At the end of a block the next instruction starts the next block. */
    lemma NextAgrees(lead: nat -> bool, k: nat, l: nat)
      requires k + 1 < |addrs| && l < |addrs| && k + 1 == Cut(lead, |addrs|, BlockOf(lead, k) + 1)
      ensures l == k + 1 <==> l == Cut(lead, |addrs|, BlockOf(lead, l)) && BlockOf(lead, l) == BlockOf(lead, k) + 1
    {
      hide Cut, BlockOf;
      NextStartsBlock(lead, k);
    }

    lemma BlockEndAgrees(lead: nat -> bool, m: map<nat, nat>, k: nat, l: nat)
      requires Valid() && Chained() && LedBy(lead) && IndexedBy(lead, m) && k < |addrs| && l < |addrs|
      requires k + 1 == Cut(lead, |addrs|, BlockOf(lead, k) + 1)
      ensures FlatStep(k, l) <==> GraphStep(lead, m, k, l)
    {
      hide Cut, Count, LedBy;
      var b, c, n := BlockOf(lead, k), BlockOf(lead, l), Count(lead, |addrs|);
      BlockOfExact(lead, |addrs|, l);
      if k + 1 < |addrs| {
        NextStartsBlock(lead, k);
        NextAgrees(lead, k, l);
      }
      if flows[k].target == Some(addrs[l]) {
        StepLeadsTarget(lead, m, k, l);
      }
      assert FlatStep(k, l) ==> GraphStep(lead, m, k, l);
      if l == Cut(lead, |addrs|, c) && c in EdgeTargets(flows[k], b, n, m) {
        assert c == b + 1 < n ==> l == k + 1;
      }
    }

    lemma StepsAgree(lead: nat -> bool, m: map<nat, nat>, k: nat, l: nat)
      requires Valid() && Chained() && LedBy(lead) && IndexedBy(lead, m) && k < |addrs| && l < |addrs|
      ensures FlatStep(k, l) <==> GraphStep(lead, m, k, l)
    {
      BlockOfExact(lead, |addrs|, k);
      if k + 1 < Cut(lead, |addrs|, BlockOf(lead, k) + 1) {
        InsideBlockAgrees(lead, m, k, l);
      } else {
        BlockEndAgrees(lead, m, k, l);
      }
    }
  }

  // The instruction list.

  function SkeletonOf(insns: seq<DisassembledInsn>): (r: Skeleton)
    ensures r.Valid() && |r.addrs| == |insns|
  {
    Skeleton(seq(|insns|, i requires 0 <= i < |insns| => insns[i].address),
             seq(|insns|, i requires 0 <= i < |insns| => insns[i].address + insns[i].size),
             seq(|insns|, i requires 0 <= i < |insns| => FlowOf(insns[i])))
  }

  /** Control may pass from instruction k to instruction l: l is the target of k, or follows it. */
  predicate FlatStep(insns: seq<DisassembledInsn>, k: nat, l: nat)
    requires k < |insns| && l < |insns|
  {
    || JumpsTo(insns[k], insns[l].address)
    || (FallsThrough(insns[k].mnemonic) && insns[l].address == insns[k].address + insns[k].size)
  }

  /** Control stays in a block, or follows an edge from its last instruction to a first one. */
  predicate CfgStep(insns: seq<DisassembledInsn>, k: nat, l: nat)
    requires k < |insns| && l < |insns|
  {
    var lead := Lead(insns);
    var b, c := BlockOf(lead, k), BlockOf(lead, l);
    || (b == c && l == k + 1)
    || (k + 1 == Cut(lead, |insns|, b + 1) && l == Cut(lead, |insns|, c) && (b, c) in Edges(insns, BlockCount(insns)))
  }

  lemma NextIs(insns: seq<DisassembledInsn>, k: nat, l: nat)
    requires Contiguous(insns) && k < |insns| && l < |insns|
    ensures insns[l].address == insns[k].address + insns[k].size <==> l == k + 1
  {
    if l == k + 1 {
      assert insns[k + 1].address == insns[k].address + insns[k].size;
    } else if k < l {
      ContiguousFrom(insns, k + 1, l);
      assert insns[k + 1].address == insns[k].address + insns[k].size;
    } else if l < k {
      ContiguousFrom(insns, l, k);
    }
  }

  lemma SkeletonChained(insns: seq<DisassembledInsn>)
    requires Contiguous(insns)
    ensures SkeletonOf(insns).Chained()
  {
    forall k, l | 0 <= k < |insns| && 0 <= l < |insns|
      ensures insns[l].address == insns[k].address + insns[k].size <==> l == k + 1
    {
      NextIs(insns, k, l);
    }
  }

  lemma SkeletonLed(insns: seq<DisassembledInsn>)
    ensures SkeletonOf(insns).LedBy(Lead(insns))
  {
    var s, lead := SkeletonOf(insns), Lead(insns);
    forall k, l | 0 <= k < |insns| && 0 <= l < |insns| && s.flows[k].target == Some(s.addrs[l]) ensures lead(l) {
      assert JumpsTo(insns[k], insns[l].address);
    }
    forall k | 0 <= k < |insns| - 1 && !lead(k + 1) ensures s.flows[k] == Flow(None, true) {
      assert !IsControl(insns[k].mnemonic);
    }
  }

  lemma SkeletonIndexed(insns: seq<DisassembledInsn>)
    requires AscendingAddresses(insns)
    ensures SkeletonOf(insns).IndexedBy(Lead(insns), BlockByAddr(insns))
  {
    var s, lead, m := SkeletonOf(insns), Lead(insns), BlockByAddr(insns);
    forall b | 0 <= b < Count(lead, |insns|)
      ensures s.addrs[Cut(lead, |insns|, b)] in m && m[s.addrs[Cut(lead, |insns|, b)]] == b
    {
      AddrToBlockFinds(insns, BlockCount(insns), b);
      assert s.addrs[Cut(lead, |insns|, b)] == StartAddr(insns, b);
    }
    forall a | a in m ensures m[a] < Count(lead, |insns|) && s.addrs[Cut(lead, |insns|, m[a])] == a {
      assert s.addrs[Cut(lead, |insns|, m[a])] == StartAddr(insns, m[a]);
    }
  }

  lemma FlatStepOfSkeleton(insns: seq<DisassembledInsn>, k: nat, l: nat)
    requires k < |insns| && l < |insns|
    ensures SkeletonOf(insns).FlatStep(k, l) <==> FlatStep(insns, k, l)
  {
  }

  lemma EdgeIsTarget(insns: seq<DisassembledInsn>, b: nat, c: nat)
    requires b < BlockCount(insns)
    ensures (b, c) in Edges(insns, BlockCount(insns)) <==> c in TargetsOf(insns, b)
  {
    EdgesExact((b: nat) => if b < BlockCount(insns) then TargetsOf(insns, b) else [], BlockCount(insns), b, c);
  }

  lemma TargetsAtEnd(insns: seq<DisassembledInsn>, b: nat, k: nat)
    requires b < BlockCount(insns) && k < |insns| && k + 1 == Cut(Lead(insns), |insns|, b + 1)
    ensures TargetsOf(insns, b) == EdgeTargets(FlowOf(insns[k]), b, BlockCount(insns), BlockByAddr(insns))
  {
    CutMonotone(Lead(insns), |insns|, b, b + 1);
    assert LastOf(insns, b) == insns[k];
  }

  lemma GraphStepOfSkeleton(insns: seq<DisassembledInsn>, k: nat, l: nat)
    requires k < |insns| && l < |insns|
    ensures SkeletonOf(insns).GraphStep(Lead(insns), BlockByAddr(insns), k, l) <==> CfgStep(insns, k, l)
  {
    var lead := Lead(insns);
    var b, c := BlockOf(lead, k), BlockOf(lead, l);
    BlockOfExact(lead, |insns|, k);
    if k + 1 == Cut(lead, |insns|, b + 1) {
      EdgeIsTarget(insns, b, c);
      TargetsAtEnd(insns, b, k);
      assert SkeletonOf(insns).flows[k] == FlowOf(insns[k]);
    }
  }

  /** Whatever the text of the instructions, control can pass from k to l in the flat code exactly
      when the graph allows it. */
  lemma StepsAgree(insns: seq<DisassembledInsn>, k: nat, l: nat)
    requires Contiguous(insns) && k < |insns| && l < |insns|
    ensures FlatStep(insns, k, l) <==> CfgStep(insns, k, l)
  {
    ContiguousIsAscending(insns);
    SkeletonChained(insns);
    SkeletonLed(insns);
    SkeletonIndexed(insns);
    SkeletonOf(insns).StepsAgree(Lead(insns), BlockByAddr(insns), k, l);
    FlatStepOfSkeleton(insns, k, l);
    GraphStepOfSkeleton(insns, k, l);
  }

  predicate FlatRun(insns: seq<DisassembledInsn>, trace: seq<nat>) {
    && (forall i :: 0 <= i < |trace| ==> trace[i] < |insns|)
    && (forall i :: 0 < i < |trace| ==> FlatStep(insns, trace[i - 1], trace[i]))
  }

  predicate CfgRun(insns: seq<DisassembledInsn>, trace: seq<nat>) {
    && (forall i :: 0 <= i < |trace| ==> trace[i] < |insns|)
    && (forall i :: 0 < i < |trace| ==> CfgStep(insns, trace[i - 1], trace[i]))
  }

  /** Runs of every length: the flat code and the graph have the same traces. */
  lemma RunsAgree(insns: seq<DisassembledInsn>, trace: seq<nat>)
    requires Contiguous(insns)
    ensures FlatRun(insns, trace) <==> CfgRun(insns, trace)
  {
    if forall i :: 0 <= i < |trace| ==> trace[i] < |insns| {
      forall i | 0 < i < |trace| ensures FlatStep(insns, trace[i - 1], trace[i]) <==> CfgStep(insns, trace[i - 1], trace[i]) {
        StepsAgree(insns, trace[i - 1], trace[i]);
      }
    }
  }

  lemma LaterStartsAbove(insns: seq<DisassembledInsn>, b: nat)
    requires AscendingAddresses(insns) && insns != [] && b < BlockCount(insns)
    ensures b > 0 ==> insns[0].address < StartAddr(insns, b)
  {
    if b > 0 {
      StartsAscend(insns, 0, b);
    }
  }

  /** The entry block of a non-empty function is block 0, even when the function's start address
      (a symbol, say) falls inside or between instructions. */
  lemma EntryIsFirst(func: DisassembledFunction)
    requires AscendingAddresses(func.instructions) && func.instructions != []
    requires func.startAddr <= func.instructions[0].address
    ensures CfgOf(func).entryBlock == 0
  {
    var insns := func.instructions;
    var m := BlockByAddr(insns);
    if func.startAddr in m {
      var b := m[func.startAddr];
      assert StartAddr(insns, b) == func.startAddr;
      LaterStartsAbove(insns, b);
    }
  }

  // Terminators.

  /** The blocks that a terminator names as coming next. */
  function Successors(t: Terminator): set<nat> {
    match t
    case Fallthrough(next) => {next}
    case Jump(target) => {target}
    case ConditionalJump(taken, fallthrough, _) => {taken, fallthrough}
    case Return => {}
    case Call(_, after) => {after}
    case Halt => {}
  }

  /** A terminator names exactly the blocks that the edges lead to, save that a call at the very end of
      the function names its own block. */
  lemma TerminatorExactly(last: DisassembledInsn, id: nat, count: nat, addrToBlock: map<nat, nat>)
    requires id < count
    ensures Successors(TerminatorOf(last, id, count, addrToBlock))
            == (set b | b in EdgeTargets(FlowOf(last), id, count, addrToBlock))
            <==> !(last.mnemonic == "call" && id + 1 == count)
  {
    hide ParseHexTarget, IsCondJump, IsHalt;
    var mn := last.mnemonic;
    MnemonicsDisjoint(mn);
    var edges := EdgeTargets(FlowOf(last), id, count, addrToBlock);
    if mn == "call" {
      assert edges == if id + 1 < count then [id + 1] else [];
    } else if IsJump(mn) {
      JumpEdges(last, id, count, addrToBlock);
    } else {
      assert edges == if FallsThrough(mn) && id + 1 < count then [id + 1] else [];
    }
  }

  lemma JumpEdges(last: DisassembledInsn, id: nat, count: nat, addrToBlock: map<nat, nat>)
    requires IsJump(last.mnemonic) && !IsReturn(last.mnemonic) && !IsHalt(last.mnemonic)
    ensures var t := ResolveJumpTarget(last.opStr, addrToBlock);
      EdgeTargets(FlowOf(last), id, count, addrToBlock)
      == (if t.Some? then [t.value] else []) + (if last.mnemonic != "jmp" && id + 1 < count then [id + 1] else [])
  {
    hide ParseHexTarget, IsCondJump, IsHalt;
  }

  lemma MnemonicsDisjoint(mn: string)
    ensures IsCondJump(mn) ==> !IsReturn(mn) && !IsHalt(mn) && mn != "call" && mn != "jmp"
    ensures IsHalt(mn) ==> !IsReturn(mn) && mn != "call" && mn != "jmp"
  {
    assert IsCondJump(mn) ==> mn[0] == 'j' && mn[1] != 'm';
  }
}
