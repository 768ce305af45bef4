/** What the graph records of each block: where it ends, how, and with which blocks. */
module Terminators {
  import opened Wrappers
  import opened Words
  import opened Text
  import opened Ir
  import opened Partition
  import opened Frontend
  import opened Cfg
  import opened CfgWalk
  import opened Capstone
  import opened OperandProofs

  // Mnemonics.

  /** A mnemonic that the graph takes for a conditional jump: j and one of the sixteen conditions as Capstone
      spells them, or jz and jnz. */
  predicate IsConditional(mn: string) {
    mn == "jz" || mn == "jnz" || exists c :: mn == "j" + ConditionText(c)
  }

  predicate Stops(mn: string) {
    mn == "hlt" || mn == "int3" || mn == "ud2"
  }

  predicate Returns(mn: string) {
    mn == "ret" || mn == "retn"
  }

  predicate Plain(mn: string) {
    mn != "jmp" && mn != "call" && !IsConditional(mn) && !Returns(mn) && !Stops(mn)
  }

  lemma ConditionKnown(c: Condition)
    ensures IsCondJump("j" + ConditionText(c))
  {
    match c
    case Equal => assert "j" + "e" == COND_JUMPS[0];
    case NotEqual => assert "j" + "ne" == COND_JUMPS[1];
    case Greater => assert "j" + "g" == COND_JUMPS[4];
    case GreaterEqual => assert "j" + "ge" == COND_JUMPS[5];
    case Less => assert "j" + "l" == COND_JUMPS[6];
    case LessEqual => assert "j" + "le" == COND_JUMPS[7];
    case Above => assert "j" + "a" == COND_JUMPS[8];
    case AboveEqual => assert "j" + "ae" == COND_JUMPS[9];
    case Below => assert "j" + "b" == COND_JUMPS[10];
    case BelowEqual => assert "j" + "be" == COND_JUMPS[11];
    case Overflow => assert "j" + "o" == COND_JUMPS[12];
    case NotOverflow => assert "j" + "no" == COND_JUMPS[13];
    case Sign => assert "j" + "s" == COND_JUMPS[14];
    case NotSign => assert "j" + "ns" == COND_JUMPS[15];
    case Parity => assert "j" + "p" == COND_JUMPS[16];
    case NotParity => assert "j" + "np" == COND_JUMPS[17];
  }

  /** The condition behind an entry of the list. */
  function ConditionAt(i: nat): Condition {
    match i
    case 4 => Greater case 5 => GreaterEqual case 6 => Less case 7 => LessEqual
    case 8 => Above case 9 => AboveEqual case 10 => Below case 11 => BelowEqual
    case 12 => Overflow case 13 => NotOverflow case 14 => Sign case 15 => NotSign
    case 16 => Parity case 17 => NotParity
    case 1 => NotEqual
    case _ => Equal
  }

  lemma EntrySpelled(i: nat)
    requires i < |COND_JUMPS| && i != 2 && i != 3
    ensures COND_JUMPS[i] == "j" + ConditionText(ConditionAt(i))
  {
  }

  /** The list of conditional jumps is complete and holds nothing else. */
  lemma ConditionalsExactly(mn: string)
    ensures IsCondJump(mn) <==> IsConditional(mn)
  {
    hide ConditionText;
    if IsConditional(mn) {
      assert COND_JUMPS[2] == "jz" && COND_JUMPS[3] == "jnz";
      if c :| mn == "j" + ConditionText(c) {
        ConditionKnown(c);
      }
    }
    if IsCondJump(mn) {
      var i :| 0 <= i < |COND_JUMPS| && COND_JUMPS[i] == mn;
      if i != 2 && i != 3 {
        EntrySpelled(i);
      }
    }
  }

  lemma KindsExactly(mn: string)
    ensures IsCondJump(mn) <==> IsConditional(mn)
    ensures IsHalt(mn) <==> Stops(mn)
    ensures IsReturn(mn) <==> Returns(mn)
    ensures IsControl(mn) <==> !Plain(mn)
    ensures IsConditional(mn) ==> mn != "jmp" && mn != "call" && !Returns(mn) && !Stops(mn)
  {
    hide IsCondJump, IsConditional;
    ConditionalsExactly(mn);
    MnemonicsDisjoint(mn);
    HaltsExactly(mn);
  }

  lemma HaltsExactly(mn: string)
    ensures IsHalt(mn) <==> Stops(mn)
  {
    assert HALT_MNEMONICS[0] == "hlt" && HALT_MNEMONICS[1] == "int3" && HALT_MNEMONICS[2] == "ud2";
  }

  // Boundaries.

  /** A direct jump to address a. */
  predicate GoesTo(insn: DisassembledInsn, a: nat) {
    && (insn.mnemonic == "jmp" || IsConditional(insn.mnemonic))
    && ParseHexTarget(insn.opStr).Some? && ParseHexTarget(insn.opStr).value == a
  }

  lemma JumpsExactly(insn: DisassembledInsn, a: nat)
    ensures JumpsTo(insn, a) <==> GoesTo(insn, a)
  {
    hide ParseHexTarget, IsCondJump, IsConditional;
    ConditionalsExactly(insn.mnemonic);
  }

  /** A block ends after instruction k exactly when k is a jump, a call, a return or a stop, or a jump of the
      function goes to the next instruction. */
  lemma BoundariesExactly(insns: seq<DisassembledInsn>, k: nat)
    requires k + 1 < |insns|
    ensures BlockOf(Lead(insns), k) != BlockOf(Lead(insns), k + 1)
            <==> !Plain(insns[k].mnemonic) || exists j :: 0 <= j < |insns| && GoesTo(insns[j], insns[k + 1].address)
  {
    hide JumpsTo, GoesTo, IsControl, Plain;
    KindsExactly(insns[k].mnemonic);
    forall j | 0 <= j < |insns| ensures JumpsTo(insns[j], insns[k + 1].address) <==> GoesTo(insns[j], insns[k + 1].address) {
      JumpsExactly(insns[j], insns[k + 1].address);
    }
    assert Lead(insns)(k + 1)
           <==> IsControl(insns[k].mnemonic) || TargetedAmong(insns, |insns|, insns[k + 1].address);
    LeadSeparates(Lead(insns), k);
  }

  lemma LeadSeparates(lead: nat -> bool, k: nat)
    ensures BlockOf(lead, k) != BlockOf(lead, k + 1) <==> lead(k + 1)
  {
    assert Count(lead, k + 2) == Count(lead, k + 1) + if lead(k + 1) then 1 else 0;
  }

  // Blocks.

  /** Block b has id b, spans its instructions, and ends where the next one starts. */
  lemma BlockSpans(func: DisassembledFunction, b: nat)
    requires Contiguous(func.instructions) && b < |CfgOf(func).blocks|
    ensures var blocks, block := CfgOf(func).blocks, CfgOf(func).blocks[b];
      && block.id == b && block.instructions != []
      && block.startAddr == block.instructions[0].address
      && (var last := block.instructions[|block.instructions| - 1]; block.endAddr == last.address + last.size)
      && (b + 1 < |blocks| ==> block.endAddr == blocks[b + 1].startAddr)
  {
    hide TerminatorOf, Lead, BlockByAddr, Contiguous;
    var insns := func.instructions;
    BlocksAt(insns, BlockCount(insns), b);
    if b + 1 < BlockCount(insns) {
      BlocksAt(insns, BlockCount(insns), b + 1);
      NextStarts(insns, b);
    }
  }

  lemma NextStarts(insns: seq<DisassembledInsn>, b: nat)
    requires Contiguous(insns) && b + 1 < BlockCount(insns)
    ensures StartAddr(insns, b + 1) == LastOf(insns, b).address + LastOf(insns, b).size
  {
    hide Lead;
    CutMonotone(Lead(insns), |insns|, b, b + 1);
    var k := Cut(Lead(insns), |insns|, b + 1);
    assert LastOf(insns, b) == insns[k - 1];
    assert insns[k - 1 + 1].address == insns[k - 1].address + insns[k - 1].size;
  }

  // Terminators.

  /** Block c of the graph starts at address a. */
  predicate StartsAt(func: DisassembledFunction, c: nat, a: nat) {
    c < |CfgOf(func).blocks| && CfgOf(func).blocks[c].startAddr == a
  }

  /** What the terminator of a block must be, from its last instruction: by mnemonic, by whether its target is
      an instruction of the function, and by whether a block follows. */
  predicate TerminatorMeans(func: DisassembledFunction, b: nat)
    requires b < |CfgOf(func).blocks| && CfgOf(func).blocks[b].instructions != []
  {
    var block := CfgOf(func).blocks[b];
    var last := block.instructions[|block.instructions| - 1];
    var mn, target, end := last.mnemonic, ParseHexTarget(last.opStr), last.address + last.size;
    var inside := target.Some? && IsAddress(func.instructions, target.value);
    var hasNext := b + 1 < |CfgOf(func).blocks|;
    && (block.terminator.Return? <==> Returns(mn) || (Plain(mn) && !hasNext))
    && (block.terminator.Halt? <==>
          Stops(mn) || (mn == "jmp" && !inside) || (IsConditional(mn) && !inside && !hasNext))
    && (block.terminator.Jump? <==> (mn == "jmp" && inside) || (IsConditional(mn) && inside && !hasNext))
    && (block.terminator.ConditionalJump? <==> IsConditional(mn) && inside && hasNext)
    && (block.terminator.Fallthrough? <==> hasNext && (Plain(mn) || (IsConditional(mn) && !inside)))
    && (block.terminator.Call? <==> mn == "call")
    && match block.terminator
       case Jump(t) => StartsAt(func, t, target.value)
       case ConditionalJump(t, f, c) => StartsAt(func, t, target.value) && StartsAt(func, f, end) && c == mn
       case Fallthrough(f) => StartsAt(func, f, end)
       case Call(callee, after) => callee == target.GetOr(0) && if hasNext then StartsAt(func, after, end) else after == b
       case _ => true
  }

  /** A jump's target has a block exactly when it is an instruction of the function, and the block starts there. */
  lemma TargetResolved(insns: seq<DisassembledInsn>, k: nat)
    requires AscendingAddresses(insns) && k < |insns| && JumpTarget(insns[k]).Some?
    ensures var a, m := JumpTarget(insns[k]).value, BlockByAddr(insns);
      && (a in m <==> IsAddress(insns, a))
      && (a in m ==> m[a] < BlockCount(insns) && StartAddr(insns, m[a]) == a)
  {
    hide ParseHexTarget, IsCondJump, IsControl;
    var a := JumpTarget(insns[k]).value;
    if l :| 0 <= l < |insns| && insns[l].address == a {
      assert JumpsTo(insns[k], insns[l].address);
      TargetsStartBlocks(insns, k, l);
      BlockOfExact(Lead(insns), |insns|, l);
      AddrToBlockFinds(insns, BlockCount(insns), BlockOf(Lead(insns), l));
    }
  }

  lemma JumpSeen(insn: DisassembledInsn)
    ensures JumpTarget(insn)
            == if insn.mnemonic == "jmp" || IsConditional(insn.mnemonic) then ParseHexTarget(insn.opStr) else None
  {
    hide ParseHexTarget, IsCondJump, IsConditional;
    ConditionalsExactly(insn.mnemonic);
  }

  lemma LastIsInsn(insns: seq<DisassembledInsn>, b: nat) returns (k: nat)
    requires b < BlockCount(insns)
    ensures k < |insns| && LastOf(insns, b) == insns[k]
  {
    hide Lead;
    CutMonotone(Lead(insns), |insns|, b, b + 1);
    k := Cut(Lead(insns), |insns|, b + 1) - 1;
  }

  lemma BlockStarts(func: DisassembledFunction, c: nat)
    requires c < BlockCount(func.instructions)
    ensures StartsAt(func, c, StartAddr(func.instructions, c))
  {
    hide TerminatorOf, Lead, BlockByAddr;
    BlocksAt(func.instructions, BlockCount(func.instructions), c);
  }

  /** The cases of a terminator, in terms of the index of block starts. */
  predicate ByIndex(t: Terminator, last: DisassembledInsn, b: nat, count: nat, m: map<nat, nat>) {
    var mn, target, hasNext := last.mnemonic, ParseHexTarget(last.opStr), b + 1 < count;
    var found := target.Some? && target.value in m;
    && (t.Return? <==> Returns(mn) || (Plain(mn) && !hasNext))
    && (t.Halt? <==> Stops(mn) || (mn == "jmp" && !found) || (IsConditional(mn) && !found && !hasNext))
    && (t.Jump? <==> (mn == "jmp" && found) || (IsConditional(mn) && found && !hasNext))
    && (t.ConditionalJump? <==> IsConditional(mn) && found && hasNext)
    && (t.Fallthrough? <==> hasNext && (Plain(mn) || (IsConditional(mn) && !found)))
    && (t.Call? <==> mn == "call")
    && match t
       case Jump(c) => c == m[target.value]
       case ConditionalJump(c, f, k) => c == m[target.value] && f == b + 1 && k == mn
       case Fallthrough(f) => f == b + 1
       case Call(callee, after) => callee == target.GetOr(0) && after == if hasNext then b + 1 else b
       case _ => true
  }

  lemma TerminatorByIndex(last: DisassembledInsn, b: nat, count: nat, m: map<nat, nat>)
    ensures ByIndex(TerminatorOf(last, b, count, m), last, b, count, m)
  {
    hide IsCondJump, IsConditional, IsHalt, ParseHexTarget;
    KindsExactly(last.mnemonic);
  }

  /** The record of block b and its terminator, by index. */
  lemma RecordByIndex(func: DisassembledFunction, b: nat)
    requires b < |CfgOf(func).blocks|
    ensures var block, n := CfgOf(func).blocks[b], |CfgOf(func).blocks|;
      && n == BlockCount(func.instructions)
      && block.instructions != [] && block.instructions[|block.instructions| - 1] == LastOf(func.instructions, b)
      && ByIndex(block.terminator, LastOf(func.instructions, b), b, n, BlockByAddr(func.instructions))
  {
    hide TerminatorOf, Lead, BlockByAddr, ByIndex, Edges;
    var insns := func.instructions;
    BlocksAt(insns, BlockCount(insns), b);
    TerminatorByIndex(LastOf(insns, b), b, BlockCount(insns), BlockByAddr(insns));
  }

  /** For every function, whatever its text: the terminator of every block means what its last instruction
      does, with each block it names starting at the address that instruction gives. */
  lemma TerminatorIsRight(func: DisassembledFunction, b: nat)
    requires Contiguous(func.instructions) && b < |CfgOf(func).blocks|
    ensures CfgOf(func).blocks[b].instructions != [] && TerminatorMeans(func, b)
  {
    hide Lead, BlockByAddr, Contiguous, IsConditional, IsCondJump, ParseHexTarget, IsAddress, StartsAt, CfgOf, JumpTarget;
    var insns := func.instructions;
    ContiguousIsAscending(insns);
    RecordByIndex(func, b);
    var last := LastOf(insns, b);
    KindsExactly(last.mnemonic);
    JumpSeen(last);
    var k := LastIsInsn(insns, b);
    if JumpTarget(last).Some? {
      TargetResolved(insns, k);
      var m := BlockByAddr(insns);
      if JumpTarget(last).value in m {
        BlockStarts(func, m[JumpTarget(last).value]);
      }
    }
    if b + 1 < BlockCount(insns) {
      NextStarts(insns, b);
      BlockStarts(func, b + 1);
    }
    var t := CfgOf(func).blocks[b].terminator;
    assert t.Call? ==> b + 1 < BlockCount(insns) ==> StartsAt(func, t.after, last.address + last.size);
    assert t.Jump? ==> StartsAt(func, t.target, ParseHexTarget(last.opStr).value);
    assert t.ConditionalJump? ==> StartsAt(func, t.taken, ParseHexTarget(last.opStr).value);
  }

  /** The callee recorded for a printed call is the address printed. */
  lemma CalleeIsPrinted(func: DisassembledFunction, b: nat, t: word)
    requires Contiguous(func.instructions) && b < |CfgOf(func).blocks|
    requires var block := CfgOf(func).blocks[b];
      block.terminator.Call? && block.instructions != []
      && block.instructions[|block.instructions| - 1].opStr == NatText(t)
    ensures CfgOf(func).blocks[b].terminator.callee == t
  {
    hide CfgOf, ParseHexTarget, NatText, IsConditional, Plain;
    TerminatorIsRight(func, b);
    TargetTextParsed(t);
  }
}
