/** The block builder: the loops of the original, against the specification in `Cfg`. */
module CfgBuilder {
  import opened Text
  import opened Orders
  import opened Partition
  import opened Frontend
  import opened Cfg

  /** a starts the instruction after one of the first n, which is a control instruction. */
  predicate FollowsControl(insns: seq<DisassembledInsn>, n: nat, a: nat)
    requires n <= |insns|
  {
    exists k :: 0 < k < |insns| && k <= n && FollowsAt(insns, k, a)
  }

  predicate FollowsAt(insns: seq<DisassembledInsn>, k: nat, a: nat)
    requires 0 < k < |insns|
  {
    IsControl(insns[k - 1].mnemonic) && insns[k].address == a
  }

  /** The leaders known once the first n instructions have been examined. */
  predicate FoundLeader(insns: seq<DisassembledInsn>, n: nat, a: nat)
    requires n <= |insns| && insns != []
  {
    a == insns[0].address || FollowsControl(insns, n, a) || (IsAddress(insns, a) && TargetedAmong(insns, n, a))
  }

  lemma FollowsStep(insns: seq<DisassembledInsn>, n: nat)
    requires n < |insns|
    ensures forall a :: FollowsControl(insns, n + 1, a) <==>
              (FollowsControl(insns, n, a) || (n + 1 < |insns| && FollowsAt(insns, n + 1, a)))
  {
  }

  lemma TargetedStep(insns: seq<DisassembledInsn>, n: nat)
    requires n < |insns|
    ensures forall a :: TargetedAmong(insns, n + 1, a) <==> (TargetedAmong(insns, n, a) || JumpsTo(insns[n], a))
  {
  }

  method CollectLeaders(insns: seq<DisassembledInsn>) returns (leaders: set<nat>)
    requires insns != []
    ensures forall a :: a in leaders <==> FoundLeader(insns, |insns|, a)
  {
    leaders := {insns[0].address};
    var validAddrs := set i | 0 <= i < |insns| :: insns[i].address;
    for idx := 0 to |insns|
      invariant forall a :: a in leaders <==> FoundLeader(insns, idx, a)
    {
      FollowsStep(insns, idx);
      TargetedStep(insns, idx);
      var mn := insns[idx].mnemonic;
      if IsJump(mn) || mn == "call" || IsReturn(mn) || IsHalt(mn) {
        if idx + 1 < |insns| {
          leaders := leaders + {insns[idx + 1].address};
        }
        if IsJump(mn) {
          var target := ParseHexTarget(insns[idx].opStr);
          if target.Some? && target.value in validAddrs {
            leaders := leaders + {target.value};
          }
        }
      }
    }
  }

  lemma FoundLeadersAreStarts(insns: seq<DisassembledInsn>, a: nat)
    requires insns != []
    ensures FoundLeader(insns, |insns|, a) <==> exists b :: 0 <= b < BlockCount(insns) && StartAddr(insns, b) == a
  {
    var lead := Lead(insns);
    if FoundLeader(insns, |insns|, a) {
      var k :| 0 <= k < |insns| && insns[k].address == a && LeaderAt(insns, k);
      var b := CutAt(lead, |insns|, k);
      assert StartAddr(insns, b) == a;
    }
    if b :| 0 <= b < BlockCount(insns) && StartAddr(insns, b) == a {
      var k := Cut(lead, |insns|, b);
      if b > 0 {
        CutLeads(lead, |insns|, b);
      }
      assert k > 0 && IsControl(insns[k - 1].mnemonic) ==> FollowsAt(insns, k, a);
    }
  }

  /** The leaders in increasing order are the start addresses of the blocks. */
  lemma LeadersInOrder(insns: seq<DisassembledInsn>, leaders: seq<nat>)
    requires AscendingAddresses(insns) && insns != [] && Increasing(leaders)
    requires forall a :: a in leaders <==> FoundLeader(insns, |insns|, a)
    ensures |leaders| == BlockCount(insns)
    ensures forall b :: 0 <= b < |leaders| ==> leaders[b] == StartAddr(insns, b)
  {
    var starts: seq<nat> := seq(BlockCount(insns), b requires 0 <= b < BlockCount(insns) => StartAddr(insns, b));
    forall b, c | 0 <= b < c < |starts| ensures starts[b] < starts[c] {
      StartsAscend(insns, b, c);
    }
    forall a ensures a in leaders <==> a in starts {
      if a >= 0 {
        FoundLeadersAreStarts(insns, a);
      }
      assert forall b :: 0 <= b < |starts| ==> starts[b] == StartAddr(insns, b);
    }
    IncreasingUnique(leaders, starts);
  }

  /** How the blocks stand when the first i instructions have been handed out. */
  ghost predicate Filled<T>(s: seq<T>, lead: nat -> bool, blocks: seq<seq<T>>, current: nat, i: nat) {
    && current < |blocks| == Count(lead, |s|)
    && (forall b :: 0 <= b < current ==> blocks[b] == Block(s, lead, b))
    && (forall b :: current < b < |blocks| ==> blocks[b] == [])
    && Cut(lead, |s|, current) <= i <= Cut(lead, |s|, current + 1)
    && blocks[current] == s[Cut(lead, |s|, current)..i]
  }

  /** The index finds instruction i exactly when it leads a block, and then finds that block. */
  predicate Indexed(insns: seq<DisassembledInsn>, lead: nat -> bool, addrToBlock: map<nat, nat>) {
    forall i :: 0 <= i < |insns| ==>
      var a := insns[i].address;
      if i == 0 || lead(i) then a in addrToBlock && addrToBlock[a] == BlockOf(lead, i) else a !in addrToBlock
  }

  lemma BlocksAreIndexed(insns: seq<DisassembledInsn>)
    requires AscendingAddresses(insns) && insns != []
    ensures Indexed(insns, Lead(insns), BlockByAddr(insns))
  {
    var lead, m := Lead(insns), BlockByAddr(insns);
    forall i | 0 <= i < |insns|
      ensures var a := insns[i].address;
        if i == 0 || lead(i) then a in m && m[a] == BlockOf(lead, i) else a !in m
    {
      if i == 0 || lead(i) {
        LeadStartsBlock(lead, |insns|, i);
        BlockOfExact(lead, |insns|, i);
        AddrToBlockFinds(insns, BlockCount(insns), BlockOf(lead, i));
      } else if insns[i].address in m {
        var b := m[insns[i].address];
        assert Cut(lead, |insns|, b) == i;
        CutLeads(lead, |insns|, b);
      }
    }
  }

  /** Instruction i belongs to the current block, or else it leads the next one. */
  lemma AdvanceBlock<T>(s: seq<T>, lead: nat -> bool, blocks: seq<seq<T>>, current: nat, i: nat)
    requires i < |s| && Filled(s, lead, blocks, current, i)
    ensures var next := NextBlock(lead, current, i);
      Filled(s, lead, blocks, next, i) && Cut(lead, |s|, next) <= i < Cut(lead, |s|, next + 1)
  {
    hide Cuts, Cut, Count;
    BlockOfExact(lead, |s|, i);
    if i < Cut(lead, |s|, current + 1) {
      BlockOfUnique(lead, |s|, i, current);
    } else {
      CutMonotone(lead, |s|, current + 1, current + 2);
      BlockOfUnique(lead, |s|, i, current + 1);
      CutLeads(lead, |s|, current + 1);
    }
  }

  lemma SliceSnoc<T>(s: seq<T>, i: nat, j: nat)
    requires i <= j < |s|
    ensures s[i..j] + [s[j]] == s[i..j + 1]
  {
  }

  lemma PlaceInsn<T>(s: seq<T>, lead: nat -> bool, blocks: seq<seq<T>>, current: nat, i: nat)
    requires i < |s| && Filled(s, lead, blocks, current, i) && i < Cut(lead, |s|, current + 1)
    ensures Filled(s, lead, blocks[current := blocks[current] + [s[i]]], current, i + 1)
  {
    SliceSnoc(s, Cut(lead, |s|, current), i);
  }

  /** The block that takes instruction i. */
  function NextBlock(lead: nat -> bool, current: nat, i: nat): nat {
    if i == 0 || lead(i) then BlockOf(lead, i) else current
  }

  /** The blocks and the current block after the first i instructions have been handed out one by one. */
  ghost function HandedOut<T>(s: seq<T>, lead: nat -> bool, i: nat): (r: (seq<seq<T>>, nat))
    requires s != [] && i <= |s|
    ensures r.1 < |r.0| == Count(lead, |s|)
  {
    if i == 0 then (seq(Count(lead, |s|), _ => []), 0)
    else
      var before := HandedOut(s, lead, i - 1);
      BlockOfExact(lead, |s|, i - 1);
      var next := NextBlock(lead, before.1, i - 1);
      (before.0[next := before.0[next] + [s[i - 1]]], next)
  }

  lemma FilledAtStart<T>(s: seq<T>, lead: nat -> bool)
    requires s != []
    ensures Filled(s, lead, seq(Count(lead, |s|), _ => []), 0, 0)
  {
  }

  lemma {:induction false} HandedOutFills<T>(s: seq<T>, lead: nat -> bool, i: nat)
    requires s != [] && i <= |s|
    ensures Filled(s, lead, HandedOut(s, lead, i).0, HandedOut(s, lead, i).1, i)
  {
    hide Filled, NextBlock, Cuts;
    FilledAtStart(s, lead);
    if i > 0 {
      var before := HandedOut(s, lead, i - 1);
      HandedOutFills(s, lead, i - 1);
      AdvanceBlock(s, lead, before.0, before.1, i - 1);
      PlaceInsn(s, lead, before.0, NextBlock(lead, before.1, i - 1), i - 1);
    }
  }

  lemma AllHandedOut<T>(s: seq<T>, lead: nat -> bool, b: nat)
    requires s != [] && b < Count(lead, |s|)
    ensures HandedOut(s, lead, |s|).0[b] == Block(s, lead, b)
  {
    HandedOutFills(s, lead, |s|);
    var current := HandedOut(s, lead, |s|).1;
    assert Cut(lead, |s|, current + 1) == |s|;
  }

  method FillBlocks(insns: seq<DisassembledInsn>, ghost lead: nat -> bool, count: nat, addrToBlock: map<nat, nat>)
    returns (blocks: seq<seq<DisassembledInsn>>)
    requires insns != [] && Indexed(insns, lead, addrToBlock) && count == Count(lead, |insns|)
    ensures blocks == HandedOut(insns, lead, |insns|).0
  {
    blocks := seq(count, _ => []);
    var current := 0;
    for i := 0 to |insns|
      invariant (blocks, current) == HandedOut(insns, lead, i)
    {
      ghost var step := HandedOut(insns, lead, i + 1);
      if insns[i].address in addrToBlock {
        current := addrToBlock[insns[i].address];
      }
      assert current == step.1;
      blocks := blocks[current := blocks[current] + [insns[i]]];
    }
  }

  method BuildCfg(func: DisassembledFunction) returns (cfg: ControlFlowGraph)
    requires AscendingAddresses(func.instructions)
    ensures cfg == CfgOf(func)
  {
    var insns := func.instructions;
    if insns == [] {
      return ControlFlowGraph(func.name, func.startAddr, [], 0, [], map[]);
    }
    var leaders := CollectLeaders(insns);
    var leaderVec := InOrder(leaders);
    LeadersInOrder(insns, leaderVec);

    var addrToBlock := IndexBlocks(insns, leaderVec);
    BlocksAreIndexed(insns);
    var blockInsns := FillBlocks(insns, Lead(insns), |leaderVec|, addrToBlock);
    forall b | 0 <= b < |blockInsns| ensures blockInsns[b] == Block(insns, Lead(insns), b) {
      AllHandedOut(insns, Lead(insns), b);
    }
    var blocks, edges := CloseBlocks(insns, blockInsns, addrToBlock);
    var entry := if func.startAddr in addrToBlock then addrToBlock[func.startAddr] else 0;
    cfg := ControlFlowGraph(func.name, func.startAddr, blocks, entry, edges, addrToBlock);
  }

  method IndexBlocks(insns: seq<DisassembledInsn>, leaderVec: seq<nat>) returns (addrToBlock: map<nat, nat>)
    requires |leaderVec| == BlockCount(insns)
    requires forall b :: 0 <= b < |leaderVec| ==> leaderVec[b] == StartAddr(insns, b)
    ensures addrToBlock == BlockByAddr(insns)
  {
    addrToBlock := map[];
    for id := 0 to |leaderVec|
      invariant addrToBlock == AddrToBlock(insns, id)
    {
      addrToBlock := addrToBlock[leaderVec[id] := id];
    }
  }

  method CloseBlocks(insns: seq<DisassembledInsn>, blockInsns: seq<seq<DisassembledInsn>>, addrToBlock: map<nat, nat>)
    returns (blocks: seq<BasicBlock>, edges: seq<(nat, nat)>)
    requires addrToBlock == BlockByAddr(insns) && |blockInsns| == BlockCount(insns)
    requires forall b :: 0 <= b < |blockInsns| ==> blockInsns[b] == Block(insns, Lead(insns), b)
    ensures blocks == Blocks(insns, BlockCount(insns))
    ensures edges == Edges(insns, BlockCount(insns))
  {
    blocks, edges := [], [];
    for id := 0 to |blockInsns|
      invariant blocks == Blocks(insns, id)
      invariant edges == Edges(insns, id)
    {
      var block, targets := CloseBlock(insns, id, |blockInsns|, blockInsns[id], addrToBlock);
      edges := edges + EdgesFrom(id, targets);
      blocks := blocks + [block];
    }
  }

  method CloseBlock(ghost insns: seq<DisassembledInsn>, id: nat, count: nat, body: seq<DisassembledInsn>,
                    addrToBlock: map<nat, nat>)
    returns (block: BasicBlock, targets: seq<nat>)
    requires id < count == BlockCount(insns) && body == BlockInsns(insns, id) && addrToBlock == BlockByAddr(insns)
    ensures block == BlockRecord(insns, id) && targets == TargetsOf(insns, id)
  {
    var last := body[|body| - 1];
    var terminator;
    terminator, targets := Terminate(last, id, count, addrToBlock);
    block := BasicBlock(id, body[0].address, last.address + last.size, body, terminator);
  }

  method Terminate(last: DisassembledInsn, id: nat, count: nat, addrToBlock: map<nat, nat>)
    returns (terminator: Terminator, targets: seq<nat>)
    ensures terminator == TerminatorOf(last, id, count, addrToBlock)
    ensures targets == EdgeTargets(FlowOf(last), id, count, addrToBlock)
  {
    var mn, hasNext := last.mnemonic, id + 1 < count;
    targets := [];
    if IsReturn(mn) {
      terminator := Return;
    } else if mn == "jmp" {
      var target := ResolveJumpTarget(last.opStr, addrToBlock);
      if target.Some? {
        targets := [target.value];
        terminator := Jump(target.value);
      } else {
        terminator := Halt;
      }
    } else if IsCondJump(mn) {
      var taken := ResolveJumpTarget(last.opStr, addrToBlock);
      if taken.Some? && hasNext {
        targets := [taken.value, id + 1];
        terminator := ConditionalJump(taken.value, id + 1, mn);
      } else if taken.Some? {
        targets := [taken.value];
        terminator := Jump(taken.value);
      } else if hasNext {
        targets := [id + 1];
        terminator := Fallthrough(id + 1);
      } else {
        terminator := Halt;
      }
    } else if mn == "call" {
      var callee := ParseHexTarget(last.opStr).GetOr(0);
      if hasNext {
        targets := [id + 1];
        terminator := Call(callee, id + 1);
      } else {
        terminator := Call(callee, id);
      }
    } else if IsHalt(mn) {
      terminator := Halt;
    } else if hasNext {
      targets := [id + 1];
      terminator := Fallthrough(id + 1);
    } else {
      terminator := Return;
    }
  }
}
