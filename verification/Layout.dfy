/** The layout theorem: blocks, lifting and emission together print the instruction list in order,
    with a label before every leader. */
module Layout {
  import opened Ir
  import opened Partition
  import opened Frontend
  import Operands
  import Cfg
  import opened Lifter
  import opened CLang
  import opened Backend
  import opened Erasure

  /** The items of one instruction. */
  function InsnItems(insn: DisassembledInsn, names: Names): seq<CItem> {
    EmitOpcodes(Located(insn.address, LiftInsn(insn, map[]).ops), names)
  }

  /** The items of several, in order. */
  function BodyItems(insns: seq<DisassembledInsn>, names: Names): seq<CItem> {
    if insns == [] then []
    else BodyItems(insns[..|insns| - 1], names) + InsnItems(insns[|insns| - 1], names)
  }

  function LabelItems(insns: seq<DisassembledInsn>, lead: nat -> bool, k: nat): seq<CItem>
    requires k < |insns|
  {
    if k == 0 || lead(k) then [CLabel(insns[k].address)] else []
  }

  /** The items of the first n instructions, each leader preceded by its label. */
  function FlatItems(insns: seq<DisassembledInsn>, lead: nat -> bool, names: Names, n: nat): seq<CItem>
    requires n <= |insns|
  {
    if n == 0 then []
    else FlatItems(insns, lead, names, n - 1) + LabelItems(insns, lead, n - 1) + InsnItems(insns[n - 1], names)
  }

  // Blocks.

  lemma EmitAppend(a: seq<IRInstruction>, b: seq<IRInstruction>, names: Names)
    ensures EmitOpcodes(a + b, names) == EmitOpcodes(a, names) + EmitOpcodes(b, names)
  {
  }

  /** Lifted under any versions, an instruction prints its items. */
  lemma InsnPrinted(insn: DisassembledInsn, versions: Operands.Versions, names: Names)
    ensures EmitOpcodes(Located(insn.address, LiftInsn(insn, versions).ops), names) == InsnItems(insn, names)
  {
    hide LiftInsn, EmitOpcode;
    InstructionErased(insn, versions, names);
  }

  lemma {:induction false} BodyPrinted(insns: seq<DisassembledInsn>, names: Names)
    ensures EmitOpcodes(LiftInsns(insns).code, names) == BodyItems(insns, names)
  {
    hide LiftInsn, EmitOpcode, InsnItems;
    if insns == [] {
      assert LiftInsns(insns).code == [];
    } else {
      var front, last := insns[..|insns| - 1], insns[|insns| - 1];
      BodyPrinted(front, names);
      var before := LiftInsns(front);
      InsnPrinted(last, before.versions, names);
      EmitAppend(before.code, Located(last.address, LiftInsn(last, before.versions).ops), names);
    }
  }

  lemma BlockPrinted(block: Cfg.BasicBlock, names: Names)
    ensures EmitBlock(LiftBlock(block), names) == [CLabel(block.startAddr)] + BodyItems(block.instructions, names)
  {
    hide BodyItems, EmitOpcodes, LiftInsns;
    BodyPrinted(block.instructions, names);
  }

  lemma BodySnoc(insns: seq<DisassembledInsn>, names: Names, i: nat, k: nat)
    requires i < k <= |insns|
    ensures BodyItems(insns[i..k], names) == BodyItems(insns[i..k - 1], names) + InsnItems(insns[k - 1], names)
  {
    hide InsnItems;
    var body := insns[i..k];
    assert body[..|body| - 1] == insns[i..k - 1] && body[|body| - 1] == insns[k - 1];
  }

  lemma EmptyBody(insns: seq<DisassembledInsn>, names: Names, i: nat)
    requires i <= |insns|
    ensures BodyItems(insns[i..i], names) == []
  {
  }

  lemma FlatSnoc(insns: seq<DisassembledInsn>, lead: nat -> bool, names: Names, k: nat)
    requires 0 < k <= |insns|
    ensures FlatItems(insns, lead, names, k)
            == FlatItems(insns, lead, names, k - 1) + LabelItems(insns, lead, k - 1) + InsnItems(insns[k - 1], names)
  {
    hide InsnItems, LabelItems;
  }

  /** Within a block the flat items are its label and its body so far. */
  lemma {:induction false} FlatInBlock(insns: seq<DisassembledInsn>, lead: nat -> bool, names: Names, i: nat, k: nat)
    requires i < k <= |insns| && (i == 0 || lead(i)) && forall j :: i < j < k ==> !lead(j)
    ensures FlatItems(insns, lead, names, k)
            == FlatItems(insns, lead, names, i) + [CLabel(insns[i].address)] + BodyItems(insns[i..k], names)
    decreases k
  {
    hide InsnItems, FlatItems, BodyItems;
    BodySnoc(insns, names, i, k);
    FlatSnoc(insns, lead, names, k);
    if k == i + 1 {
      EmptyBody(insns, names, i);
    } else {
      FlatInBlock(insns, lead, names, i, k - 1);
    }
  }

  /** The blocks of an instruction list under any leaders, lifted and printed. */
  function PrintedBlocks(insns: seq<DisassembledInsn>, lead: nat -> bool, names: Names, b: nat): seq<CItem>
    requires b <= Count(lead, |insns|)
  {
    if b == 0 then []
    else
      PrintedBlocks(insns, lead, names, b - 1)
      + [CLabel(insns[Cut(lead, |insns|, b - 1)].address)] + BodyItems(Block(insns, lead, b - 1), names)
  }

  lemma {:induction false} PrintedIsFlat(insns: seq<DisassembledInsn>, lead: nat -> bool, names: Names, b: nat)
    requires b <= Count(lead, |insns|) && insns != []
    ensures PrintedBlocks(insns, lead, names, b) == FlatItems(insns, lead, names, Cut(lead, |insns|, b))
  {
    hide InsnItems, BodyItems;
    if b > 0 {
      var i, k := Cut(lead, |insns|, b - 1), Cut(lead, |insns|, b);
      PrintedIsFlat(insns, lead, names, b - 1);
      CutMonotone(lead, |insns|, b - 1, b);
      forall j | i < j < k ensures !lead(j) {
        InsideBlock(lead, |insns|, b - 1, j);
      }
      if b - 1 > 0 {
        CutLeads(lead, |insns|, b - 1);
      }
      FlatInBlock(insns, lead, names, i, k);
    } else {
      assert Cut(lead, |insns|, 0) == 0;
    }
  }

  // Sorting.

  predicate StartsAscending(blocks: seq<IRBlock>) {
    forall i, j :: 0 <= i < j < |blocks| ==> blocks[i].startAddr < blocks[j].startAddr
  }

  predicate StartsRise(blocks: seq<IRBlock>) {
    forall i, j :: 0 <= i < j < |blocks| ==> blocks[i].startAddr <= blocks[j].startAddr
  }

  lemma {:induction false} Inserted(sorted: seq<IRBlock>, b: IRBlock)
    requires StartsRise(sorted)
    ensures StartsRise(InsertBlock(sorted, b)) && multiset(InsertBlock(sorted, b)) == multiset(sorted) + multiset{b}
  {
    if sorted != [] && sorted[|sorted| - 1].startAddr > b.startAddr {
      var front, last := sorted[..|sorted| - 1], sorted[|sorted| - 1];
      assert sorted == front + [last];
      Inserted(front, b);
      var r := InsertBlock(front, b);
      InsertedBelow(r, front, b, last);
    }
  }

  lemma InsertedBelow(r: seq<IRBlock>, front: seq<IRBlock>, b: IRBlock, last: IRBlock)
    requires StartsRise(r) && multiset(r) == multiset(front) + multiset{b} && b.startAddr <= last.startAddr
    requires forall i :: 0 <= i < |front| ==> front[i].startAddr <= last.startAddr
    ensures StartsRise(r + [last])
  {
    forall i | 0 <= i < |r| ensures r[i].startAddr <= last.startAddr {
      assert r[i] in multiset(r);
      assert r[i] in front || r[i] == b;
    }
  }

  /** Sorting arranges the blocks by start address, and neither loses nor invents one. */
  lemma {:induction false} SortingSorts(blocks: seq<IRBlock>)
    ensures StartsRise(SortBlocks(blocks)) && multiset(SortBlocks(blocks)) == multiset(blocks)
  {
    hide InsertBlock;
    if blocks != [] {
      var front, last := blocks[..|blocks| - 1], blocks[|blocks| - 1];
      assert blocks == front + [last];
      SortingSorts(front);
      Inserted(SortBlocks(front), last);
    }
  }

  lemma InsertedLast(sorted: seq<IRBlock>, b: IRBlock)
    requires sorted == [] || sorted[|sorted| - 1].startAddr <= b.startAddr
    ensures InsertBlock(sorted, b) == sorted + [b]
  {
  }

  /** Sorting leaves blocks in ascending order where they are. */
  lemma {:induction false} SortedStays(blocks: seq<IRBlock>)
    requires StartsAscending(blocks)
    ensures SortBlocks(blocks) == blocks
  {
    hide InsertBlock;
    if blocks != [] {
      var front, last := blocks[..|blocks| - 1], blocks[|blocks| - 1];
      SortedStays(front);
      InsertedLast(front, last);
    }
  }

  // The pipeline.

  lemma {:induction false} LiftedBlocksAt(blocks: seq<Cfg.BasicBlock>, b: nat)
    requires b < |blocks|
    ensures LiftBlocks(blocks)[b] == LiftBlock(blocks[b])
  {
    hide LiftBlock;
    if b < |blocks| - 1 {
      LiftedBlocksAt(blocks[..|blocks| - 1], b);
    }
  }

  lemma LiftSnoc(blocks: seq<Cfg.BasicBlock>, b: Cfg.BasicBlock)
    ensures LiftBlocks(blocks + [b]) == LiftBlocks(blocks) + [LiftBlock(b)]
  {
    hide LiftBlock;
    var all := blocks + [b];
    assert all[..|all| - 1] == blocks;
  }

  lemma EmitSnoc(blocks: seq<IRBlock>, b: IRBlock, names: Names)
    ensures EmitBlocks(blocks + [b], names) == EmitBlocks(blocks, names) + EmitBlock(b, names)
  {
    hide EmitBlock;
    var all := blocks + [b];
    assert all[..|all| - 1] == blocks;
  }

  lemma RecordStarts(insns: seq<DisassembledInsn>, b: nat)
    requires b < Cfg.BlockCount(insns)
    ensures var r := Cfg.BlockRecord(insns, b);
      r.startAddr == insns[Cut(Cfg.Lead(insns), |insns|, b)].address && r.instructions == Block(insns, Cfg.Lead(insns), b)
  {
    hide Cfg.TerminatorOf, Cfg.Lead, Cfg.BlockByAddr;
  }

  lemma {:induction false} BlocksPrinted(insns: seq<DisassembledInsn>, names: Names, n: nat)
    requires n <= Cfg.BlockCount(insns)
    ensures EmitBlocks(LiftBlocks(Cfg.Blocks(insns, n)), names) == PrintedBlocks(insns, Cfg.Lead(insns), names, n)
  {
    hide LiftBlock, EmitBlock, BodyItems, Cfg.BlockRecord, Cfg.Lead, LiftBlocks, EmitBlocks, Block, Cut;
    if n > 0 {
      var front, last := Cfg.Blocks(insns, n - 1), Cfg.BlockRecord(insns, n - 1);
      BlocksPrinted(insns, names, n - 1);
      LiftSnoc(front, last);
      EmitSnoc(LiftBlocks(front), LiftBlock(last), names);
      RecordStarts(insns, n - 1);
      BlockPrinted(last, names);
    } else {
      NoBlocks(names);
    }
  }

  lemma NoBlocks(names: Names)
    ensures EmitBlocks(LiftBlocks([]), names) == []
  {
  }

  lemma LiftedBlocksAscend(insns: seq<DisassembledInsn>)
    requires AscendingAddresses(insns)
    ensures StartsAscending(LiftBlocks(Cfg.Blocks(insns, Cfg.BlockCount(insns))))
  {
    hide LiftInsns, Cfg.TerminatorOf, Cfg.Lead, Cfg.BlockByAddr;
    var n := Cfg.BlockCount(insns);
    var blocks := Cfg.Blocks(insns, n);
    forall i, j | 0 <= i < j < n ensures LiftBlocks(blocks)[i].startAddr < LiftBlocks(blocks)[j].startAddr {
      LiftedBlocksAt(blocks, i);
      LiftedBlocksAt(blocks, j);
      Cfg.BlocksAt(insns, n, i);
      Cfg.BlocksAt(insns, n, j);
      Cfg.StartsAscend(insns, i, j);
    }
  }

  /** The C program printed for a disassembled function. */
  function Decompile(func: DisassembledFunction, names: Names): seq<CItem> {
    EmitFunction(LiftFunction(Cfg.CfgOf(func)), names)
  }

  /** For every function, whatever the text of its instructions: the C program is the instruction list
      in address order with a label before each leader, and the default return at the end. Textual
      fallthrough is therefore address order. */
  lemma EmissionIsFlat(func: DisassembledFunction, names: Names)
    requires AscendingAddresses(func.instructions)
    ensures Decompile(func, names)
            == FlatItems(func.instructions, Cfg.Lead(func.instructions), names, |func.instructions|) + [CCode([CReturnRax])]
  {
    hide FlatItems, EmitBlocks, Cfg.Lead, Cfg.BlockByAddr, Cfg.Edges, LiftBlocks;
    var insns := func.instructions;
    var n := Cfg.BlockCount(insns);
    LiftedBlocksAscend(insns);
    SortedStays(LiftBlocks(Cfg.Blocks(insns, n)));
    BlocksPrinted(insns, names, n);
    if insns == [] {
      EmptyPrinted(names);
    } else {
      PrintedIsFlat(insns, Cfg.Lead(insns), names, n);
      assert Cut(Cfg.Lead(insns), |insns|, n) == |insns|;
    }
  }

  lemma EmptyPrinted(names: Names)
    ensures forall lead :: PrintedBlocks([], lead, names, 0) == FlatItems([], lead, names, 0)
    ensures Cfg.BlockCount([]) == 0
  {
  }
}
