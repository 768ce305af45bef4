/** Lifting conserves instructions: their order, their number and where they fall through to. */
module Conservation {
  import opened Text
  import opened Ir
  import opened Operands
  import opened Frontend
  import opened Partition
  import Cfg
  import opened Lifter
  import opened Gotos

  /** How many IR opcodes an instruction becomes. */
  function OpcodeCount(insn: DisassembledInsn): nat {
    if FormOfInsn(insn) == FLeave then 2 else 1
  }

  lemma InsnCount(insn: DisassembledInsn, versions: Versions)
    ensures |LiftInsn(insn, versions).ops| == OpcodeCount(insn)
  {
    hide FormOf, Mnemonic, ParseOperandsSpec, ParseSingleOperand, ParseMemoryOperandSpec, IsMemoryOperand, DstBase, Bump, Fresh;
    hide LiftCall, LiftJmp, BranchTarget;
  }

  /** The addresses of the instructions, as often as each has opcodes. */
  function Trail(insns: seq<DisassembledInsn>): seq<nat> {
    if insns == [] then []
    else
      var last := insns[|insns| - 1];
      Trail(insns[..|insns| - 1]) + seq(OpcodeCount(last), _ => last.address)
  }

  function AddressesOf(code: seq<IRInstruction>): seq<nat> {
    seq(|code|, i requires 0 <= i < |code| => code[i].addr)
  }

  lemma LocatedAddresses(code: seq<IRInstruction>, addr: nat, ops: seq<Opcode>)
    ensures AddressesOf(code + Located(addr, ops)) == AddressesOf(code) + seq(|ops|, _ => addr)
  {
  }

  /** Lifting keeps the instructions in order: each contributes one opcode at its own address, a leave two. */
  lemma {:induction false} LiftingConserves(insns: seq<DisassembledInsn>)
    ensures AddressesOf(LiftInsns(insns).code) == Trail(insns)
    ensures |LiftInsns(insns).code| == |insns| + Leaves(insns)
  {
    hide LiftInsn, OpcodeCount, AddressesOf;
    if insns == [] {
      assert AddressesOf([]) == [] by {
        NoAddresses();
      }
    } else {
      var front, last := insns[..|insns| - 1], insns[|insns| - 1];
      LiftingConserves(front);
      var before := LiftInsns(front);
      InsnCount(last, before.versions);
      CountOfInsn(last);
      LocatedAddresses(before.code, last.address, LiftInsn(last, before.versions).ops);
    }
  }

  lemma NoAddresses()
    ensures AddressesOf([]) == []
  {
  }

  function Leaves(insns: seq<DisassembledInsn>): nat {
    if insns == [] then 0
    else Leaves(insns[..|insns| - 1]) + if FormOfInsn(insns[|insns| - 1]) == FLeave then 1 else 0
  }

  lemma CountOfInsn(insn: DisassembledInsn)
    ensures OpcodeCount(insn) == 1 + if FormOfInsn(insn) == FLeave then 1 else 0
  {
    hide FormOf, Mnemonic;
  }

  // Fall-through addresses.

  /** A conditional jump and a direct, external or memory call remember the next address; calls through a
      register and indirect jumps remember zero. */
  predicate FallsTo(op: Opcode, isJmp: bool, next: nat) {
    match op
    case Jcc(_, _, fallthrough) => fallthrough == next
    case Call(Indirect(t), fallthrough) => fallthrough == if isJmp || t.Var? then 0 else next
    case Call(_, fallthrough) => fallthrough == next
    case _ => true
  }

  lemma InsnFallsTo(insn: DisassembledInsn, versions: Versions)
    ensures forall op :: op in LiftInsn(insn, versions).ops ==> FallsTo(op, FormOfInsn(insn) == FJmp, insn.address + insn.size)
  {
    hide FormOf, Mnemonic, ParseOperandsSpec, ParseSingleOperand, AddTerms, MemoryTerms, IsMemoryOperand, DstBase, Bump, Fresh;
    hide BranchTarget, ParseImmediate, ParseRegister, Trim;
  }

  /** The fall-through address of a block's last opcode is where the next block starts. */
  lemma FallthroughIsNextBlock(insns: seq<DisassembledInsn>, b: nat)
    requires Contiguous(insns) && b + 1 < Cfg.BlockCount(insns)
    ensures var code := LiftInsns(Cfg.BlockInsns(insns, b)).code;
      code != [] && FallsTo(code[|code| - 1].opcode, FormOfInsn(Cfg.LastOf(insns, b)) == FJmp, Cfg.StartAddr(insns, b + 1))
  {
    hide LiftInsn, FallsTo, Cfg.Lead, FormOf, Mnemonic;
    var body := Cfg.BlockInsns(insns, b);
    var before, last := LiftInsns(body[..|body| - 1]), body[|body| - 1];
    InsnFallsTo(last, before.versions);
    InsnCount(last, before.versions);
    CountOfInsn(last);
    var ops := LiftInsn(last, before.versions).ops;
    var code := LiftInsns(body).code;
    assert code[|code| - 1].opcode == ops[|ops| - 1] && ops[|ops| - 1] in ops;
    var k := Cut(Cfg.Lead(insns), |insns|, b + 1);
    CutMonotone(Cfg.Lead(insns), |insns|, b, b + 1);
    assert last == insns[k - 1];
    assert insns[k - 1 + 1].address == insns[k - 1].address + insns[k - 1].size;
  }

  // What else the lifter carries over.

  lemma {:induction false} LiftedHeaders(blocks: seq<Cfg.BasicBlock>, b: nat)
    requires b < |blocks|
    ensures LiftBlocks(blocks)[b].id == blocks[b].id && LiftBlocks(blocks)[b].startAddr == blocks[b].startAddr
  {
    hide LiftInsns;
    if b < |blocks| - 1 {
      LiftedHeaders(blocks[..|blocks| - 1], b);
    }
  }

  /** Name, address, entry block and the ids and starts of the blocks are those of the graph. */
  lemma LiftingKeepsHeaders(cfg: Cfg.ControlFlowGraph)
    ensures var f := LiftFunction(cfg);
      && f.name == cfg.funcName && f.addr == cfg.funcAddr && f.entryBlock == cfg.entryBlock
      && |f.blocks| == |cfg.blocks|
      && forall b :: 0 <= b < |f.blocks| ==> f.blocks[b].id == cfg.blocks[b].id && f.blocks[b].startAddr == cfg.blocks[b].startAddr
  {
    hide LiftBlocks;
    forall b | 0 <= b < |cfg.blocks|
      ensures LiftBlocks(cfg.blocks)[b].id == cfg.blocks[b].id && LiftBlocks(cfg.blocks)[b].startAddr == cfg.blocks[b].startAddr
    {
      LiftedHeaders(cfg.blocks, b);
    }
  }
}
