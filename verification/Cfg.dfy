/** Splitting a function into basic blocks joined by typed edges: data, leaders and the resulting graph. */
module Cfg {
  import opened Wrappers
  import opened Words
  import opened Text
  import opened Partition
  import opened Frontend

  datatype Terminator =
    | Fallthrough(next: nat)
    | Jump(target: nat)
    | ConditionalJump(taken: nat, fallthrough: nat, condition: string)
    | Return
    | Call(callee: nat, after: nat)
    | Halt

  datatype BasicBlock = BasicBlock(
    id: nat, startAddr: nat, endAddr: nat, instructions: seq<DisassembledInsn>, terminator: Terminator)

  /** The id of a block is its index in `blocks`. */
  datatype ControlFlowGraph = ControlFlowGraph(
    funcName: string, funcAddr: nat, blocks: seq<BasicBlock>, entryBlock: nat,
    edges: seq<(nat, nat)>, addrToBlock: map<nat, nat>)

  const COND_JUMPS := [
    "je", "jne", "jz", "jnz", "jg", "jge", "jl", "jle", "ja", "jae", "jb", "jbe", "jo", "jno",
    "js", "jns", "jp", "jnp"
  ]

  const HALT_MNEMONICS := ["hlt", "int3", "ud2"]

  predicate IsCondJump(mn: string) {
    mn in COND_JUMPS
  }

  predicate IsJump(mn: string) {
    mn == "jmp" || IsCondJump(mn)
  }

  predicate IsReturn(mn: string) {
    mn == "ret" || mn == "retn"
  }

  predicate IsHalt(mn: string) {
    mn in HALT_MNEMONICS
  }

  /** The mnemonics that end a block. */
  predicate IsControl(mn: string) {
    IsJump(mn) || mn == "call" || IsReturn(mn) || IsHalt(mn)
  }

  function JumpTarget(insn: DisassembledInsn): Option<word> {
    if IsJump(insn.mnemonic) then ParseHexTarget(insn.opStr) else None
  }

  predicate JumpsTo(insn: DisassembledInsn, a: nat) {
    JumpTarget(insn).Some? && JumpTarget(insn).value == a
  }

  /** One of the first n instructions jumps to a. */
  predicate TargetedAmong(insns: seq<DisassembledInsn>, n: nat, a: nat)
    requires n <= |insns|
  {
    exists j :: 0 <= j < n && JumpsTo(insns[j], a)
  }

  /** Instruction k starts a block: it is the first, follows a control instruction, or is a jump target. */
  predicate LeaderAt(insns: seq<DisassembledInsn>, k: nat)
    requires k < |insns|
  {
    k == 0 || IsControl(insns[k - 1].mnemonic) || TargetedAmong(insns, |insns|, insns[k].address)
  }

  function Lead(insns: seq<DisassembledInsn>): nat -> bool {
    (k: nat) => k < |insns| && LeaderAt(insns, k)
  }

  function BlockCount(insns: seq<DisassembledInsn>): nat {
    Count(Lead(insns), |insns|)
  }

  function BlockInsns(insns: seq<DisassembledInsn>, b: nat): seq<DisassembledInsn>
    requires b < BlockCount(insns)
  {
    Block(insns, Lead(insns), b)
  }

  /** The blocks in id order give back the function, none is empty, and their starts rise. */
  lemma BlocksPartition(insns: seq<DisassembledInsn>)
    requires AscendingAddresses(insns)
    ensures Concat(insns, Lead(insns), BlockCount(insns)) == insns
    ensures forall b :: 0 <= b < BlockCount(insns) ==> BlockInsns(insns, b) != []
    ensures forall b, c :: 0 <= b < c < BlockCount(insns) ==> StartAddr(insns, b) < StartAddr(insns, c)
  {
    BlocksConcatenate(insns, Lead(insns));
    forall b, c | 0 <= b < c < BlockCount(insns) ensures StartAddr(insns, b) < StartAddr(insns, c) {
      StartsAscend(insns, b, c);
    }
  }

  /** A control instruction can only come last in its block, and a jump target only first. */
  lemma ControlComesLast(insns: seq<DisassembledInsn>, b: nat, i: nat)
    requires b < BlockCount(insns) && 0 < i < |BlockInsns(insns, b)|
    ensures !IsControl(BlockInsns(insns, b)[i - 1].mnemonic)
    ensures !TargetedAmong(insns, |insns|, BlockInsns(insns, b)[i].address)
  {
    var lead := Lead(insns);
    CutMonotone(lead, |insns|, b, b + 1);
    InsideBlock(lead, |insns|, b, Cut(lead, |insns|, b) + i);
  }

  /** No boundary could be dropped: each follows a control instruction or is a jump target. */
  lemma BlocksAreMaximal(insns: seq<DisassembledInsn>, b: nat)
    requires 0 < b < BlockCount(insns)
    ensures IsControl(LastOf(insns, b - 1).mnemonic) || TargetedAmong(insns, |insns|, StartAddr(insns, b))
  {
    var lead := Lead(insns);
    CutLeads(lead, |insns|, b);
    CutMonotone(lead, |insns|, b - 1, b);
  }

  /** A jump target inside the function starts a block. */
  lemma TargetsStartBlocks(insns: seq<DisassembledInsn>, j: nat, k: nat)
    requires j < |insns| && k < |insns| && JumpsTo(insns[j], insns[k].address)
    ensures Cut(Lead(insns), |insns|, BlockOf(Lead(insns), k)) == k
  {
    assert Lead(insns)(k);
    LeadStartsBlock(Lead(insns), |insns|, k);
  }

  lemma LeadStartsBlock(lead: nat -> bool, n: nat, k: nat)
    requires k < n && lead(k)
    ensures Cut(lead, n, BlockOf(lead, k)) == k
  {
    var b := CutAt(lead, n, k);
    CutMonotone(lead, n, b, b + 1);
    BlockOfUnique(lead, n, k, b);
  }

  // Terminators and edges.

  function ResolveJumpTarget(opStr: string, addrToBlock: map<nat, nat>): Option<nat> {
    var a := ParseHexTarget(opStr);
    if a.Some? && a.value in addrToBlock then Some(addrToBlock[a.value]) else None
  }

  function TerminatorOf(last: DisassembledInsn, id: nat, count: nat, addrToBlock: map<nat, nat>): Terminator {
    var mn, hasNext := last.mnemonic, id + 1 < count;
    if IsReturn(mn) then Return
    else if mn == "jmp" then
      var t := ResolveJumpTarget(last.opStr, addrToBlock);
      if t.Some? then Jump(t.value) else Halt
    else if IsCondJump(mn) then
      var t := ResolveJumpTarget(last.opStr, addrToBlock);
      if t.Some? && hasNext then ConditionalJump(t.value, id + 1, mn)
      else if t.Some? then Jump(t.value)
      else if hasNext then Fallthrough(id + 1)
      else Halt
    else if mn == "call" then Call(ParseHexTarget(last.opStr).GetOr(0), if hasNext then id + 1 else id)
    else if IsHalt(mn) then Halt
    else if hasNext then Fallthrough(id + 1)
    else Return
  }

  /** Where an instruction may pass control: to its direct target, and to the next instruction. */
  datatype Flow = Flow(target: Option<word>, falls: bool)

  predicate FallsThrough(mn: string) {
    mn != "jmp" && !IsReturn(mn) && !IsHalt(mn)
  }

  function FlowOf(insn: DisassembledInsn): Flow {
    Flow(JumpTarget(insn), FallsThrough(insn.mnemonic))
  }

  /** The targets of the edges leaving block id, in the order they are recorded. */
  function EdgeTargets(flow: Flow, id: nat, count: nat, addrToBlock: map<nat, nat>): seq<nat> {
    (if flow.target.Some? && flow.target.value in addrToBlock then [addrToBlock[flow.target.value]] else [])
    + if flow.falls && id + 1 < count then [id + 1] else []
  }

  function EdgesFrom(id: nat, targets: seq<nat>): seq<(nat, nat)> {
    seq(|targets|, i requires 0 <= i < |targets| => (id, targets[i]))
  }

  /** The address at which block b starts. */
  function StartAddr(insns: seq<DisassembledInsn>, b: nat): nat
    requires b < BlockCount(insns)
  {
    insns[Cut(Lead(insns), |insns|, b)].address
  }

  lemma StartsAscend(insns: seq<DisassembledInsn>, b: nat, c: nat)
    requires AscendingAddresses(insns) && b < c < BlockCount(insns)
    ensures StartAddr(insns, b) < StartAddr(insns, c)
  {
    CutMonotone(Lead(insns), |insns|, b, c);
  }

  /** The first n blocks by start address. */
  function AddrToBlock(insns: seq<DisassembledInsn>, n: nat): (m: map<nat, nat>)
    requires n <= BlockCount(insns)
    ensures forall a :: a in m ==> m[a] < n && StartAddr(insns, m[a]) == a
  {
    if n == 0 then map[] else AddrToBlock(insns, n - 1)[StartAddr(insns, n - 1) := n - 1]
  }

  function BlockByAddr(insns: seq<DisassembledInsn>): map<nat, nat> {
    AddrToBlock(insns, BlockCount(insns))
  }

  /** Every block is found under its start address. */
  lemma {:induction false} AddrToBlockFinds(insns: seq<DisassembledInsn>, n: nat, b: nat)
    requires AscendingAddresses(insns) && b < n <= BlockCount(insns)
    ensures StartAddr(insns, b) in AddrToBlock(insns, n) && AddrToBlock(insns, n)[StartAddr(insns, b)] == b
  {
    if b < n - 1 {
      AddrToBlockFinds(insns, n - 1, b);
      StartsAscend(insns, b, n - 1);
    }
  }

  /** The last instruction of block id. */
  function LastOf(insns: seq<DisassembledInsn>, id: nat): DisassembledInsn
    requires id < BlockCount(insns)
  {
    var body := BlockInsns(insns, id);
    body[|body| - 1]
  }

  function BlockRecord(insns: seq<DisassembledInsn>, id: nat): BasicBlock
    requires id < BlockCount(insns)
  {
    var body, last := BlockInsns(insns, id), LastOf(insns, id);
    BasicBlock(id, body[0].address, last.address + last.size, body,
               TerminatorOf(last, id, BlockCount(insns), BlockByAddr(insns)))
  }

  /** The first n blocks. */
  function Blocks(insns: seq<DisassembledInsn>, n: nat): (r: seq<BasicBlock>)
    requires n <= BlockCount(insns)
    ensures |r| == n
  {
    if n == 0 then [] else Blocks(insns, n - 1) + [BlockRecord(insns, n - 1)]
  }

  lemma {:induction false} BlocksAt(insns: seq<DisassembledInsn>, n: nat, b: nat)
    requires b < n <= BlockCount(insns)
    ensures Blocks(insns, n)[b] == BlockRecord(insns, b)
  {
    if b < n - 1 {
      BlocksAt(insns, n - 1, b);
    }
  }

  function TargetsOf(insns: seq<DisassembledInsn>, b: nat): seq<nat>
    requires b < BlockCount(insns)
  {
    EdgeTargets(FlowOf(LastOf(insns, b)), b, BlockCount(insns), BlockByAddr(insns))
  }

  /** The edges leaving the first n blocks, given the targets of each. */
  function EdgeList(targets: nat -> seq<nat>, n: nat): seq<(nat, nat)> {
    if n == 0 then [] else EdgeList(targets, n - 1) + EdgesFrom(n - 1, targets(n - 1))
  }

  function Edges(insns: seq<DisassembledInsn>, n: nat): seq<(nat, nat)> {
    EdgeList((b: nat) => if b < BlockCount(insns) then TargetsOf(insns, b) else [], n)
  }

  function CfgOf(func: DisassembledFunction): ControlFlowGraph {
    var insns := func.instructions;
    var addrs := BlockByAddr(insns);
    ControlFlowGraph(
      func.name, func.startAddr,
      Blocks(insns, BlockCount(insns)),
      if func.startAddr in addrs then addrs[func.startAddr] else 0,
      Edges(insns, BlockCount(insns)),
      addrs)
  }
}
