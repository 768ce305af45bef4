/** The lifter in the form of the original: a version map and an instruction list updated in place. */
module LifterLoop {
  import opened Text
  import opened Ir
  import opened Operands
  import opened Frontend
  import Cfg
  import opened Lifter

  lemma LocatedOne(addr: nat, op: Opcode)
    ensures Located(addr, [op]) == [IRInstruction(addr, op)]
  {
  }

  lemma LocatedTwo(addr: nat, ops: seq<Opcode>)
    requires |ops| == 2
    ensures Located(addr, ops) == [IRInstruction(addr, ops[0])] + [IRInstruction(addr, ops[1])]
  {
  }

  lemma LeaveForm(mn: string, operands: seq<string>, addr: nat, next: nat, versions: Versions)
    ensures LiftForm(FLeave, mn, operands, addr, next, versions) == LiftLeave(versions)
  {
  }

  class BlockLifter {
    var versions: Versions
    var code: seq<IRInstruction>

    constructor ()
      ensures versions == map[] && code == []
    {
      versions, code := map[], [];
    }

    method NewVersion(base: VarBase) returns (id: VarId)
      modifies this`versions
      ensures id == Fresh(old(versions), base)
      ensures versions == Bump(old(versions), base)
    {
      var version := if base in versions then versions[base] else 0;
      versions := versions[base := version + 1];
      id := VarId(base, version + 1);
    }

    method DoLiftMov(operands: seq<string>, mn: string, addr: nat) returns (op: Opcode)
      modifies this`versions
      ensures Lifted([op], versions) == LiftMov(operands, mn, addr, old(versions))
    {
      if |operands| < 2 {
        return Unknown(mn, addr);
      }
      var dst, src := operands[0], operands[1];
      if IsMemoryOperand(dst) && !IsMemoryOperand(src) {
        var to := ParseMemoryOperand(dst, versions);
        op := Store(to, ParseSingleOperand(src, versions));
      } else if !IsMemoryOperand(dst) && IsMemoryOperand(src) {
        var id := NewVersion(DstBase(dst));
        var from := ParseMemoryOperand(src, versions);
        op := Load(id, from);
      } else {
        var id := NewVersion(DstBase(dst));
        op := Mov(id, ParseSingleOperand(src, versions));
      }
    }

    method DoLiftBinaryAlu(kind: AluOp, operands: seq<string>, mn: string, addr: nat) returns (op: Opcode)
      modifies this`versions
      ensures Lifted([op], versions) == LiftBinaryAlu(kind, operands, mn, addr, old(versions))
    {
      if |operands| < 2 {
        return Unknown(mn, addr);
      }
      var rhs := ParseSingleOperand(operands[|operands| - 1], versions);
      var lhs;
      if |operands| >= 3 {
        lhs := ParseSingleOperand(operands[1], versions);
      } else {
        lhs := ParseSingleOperand(operands[0], versions);
      }
      var id := NewVersion(DstBase(operands[0]));
      op := Alu(kind, id, lhs, rhs);
    }

    method DoLiftUnaryReg(isNot: bool, operands: seq<string>, addr: nat) returns (op: Opcode)
      modifies this`versions
      ensures Lifted([op], versions) == LiftUnaryReg(isNot, operands, addr, old(versions))
    {
      var kind := if isNot then "not" else "neg";
      if operands == [] || IsMemoryOperand(operands[0]) {
        return Unknown(kind, addr);
      }
      var base := DstBase(operands[0]);
      var src := Var(CurrentVar(versions, base));
      var id := NewVersion(base);
      op := if isNot then Not(id, src) else Neg(id, src);
    }

    method Emit(addr: nat, op: Opcode)
      modifies this`code
      ensures code == old(code) + [IRInstruction(addr, op)]
    {
      code := code + [IRInstruction(addr, op)];
    }

    method DoLiftLeave(addr: nat) returns (op: Opcode)
      modifies this
      ensures var r := LiftLeave(old(versions));
        versions == r.versions && code == old(code) + [IRInstruction(addr, r.ops[0])] && op == r.ops[1]
    {
      var rbp := Var(CurrentVar(versions, RBP));
      var rsp := NewVersion(RSP);
      Emit(addr, Mov(rsp, rbp));
      var id := NewVersion(RBP);
      op := Pop(id);
    }

    method DoLiftLea(operands: seq<string>, mn: string, addr: nat) returns (op: Opcode)
      modifies this`versions
      ensures Lifted([op], versions) == LiftLea(operands, mn, addr, old(versions))
    {
      if |operands| < 2 {
        return Unknown(mn, addr);
      }
      var id := NewVersion(DstBase(operands[0]));
      var from := ParseMemoryOperand(operands[1], versions);
      op := Lea(id, from);
    }

    method DoLiftMul(operands: seq<string>, addr: nat) returns (op: Opcode)
      modifies this`versions
      ensures Lifted([op], versions) == LiftMul(operands, addr, old(versions))
    {
      if |operands| == 1 {
        var src := ParseSingleOperand(operands[0], versions);
        var lhs := Var(CurrentVar(versions, RAX));
        var id := NewVersion(RAX);
        op := Alu(MulOp, id, lhs, src);
      } else {
        op := DoLiftBinaryAlu(MulOp, operands, "imul", addr);
      }
    }

    method DoLiftStepByOne(kind: AluOp, operands: seq<string>, mn: string, addr: nat) returns (op: Opcode)
      modifies this`versions
      ensures Lifted([op], versions) == LiftStepByOne(kind, operands, mn, addr, old(versions))
    {
      if operands == [] {
        return Unknown(mn, addr);
      }
      var base := DstBase(operands[0]);
      var lhs := Var(CurrentVar(versions, base));
      var id := NewVersion(base);
      op := Alu(kind, id, lhs, Imm(1));
    }

    /** pop, cmovcc and setcc. */
    method DoLiftDefiner(form: Form, operands: seq<string>, mn: string, addr: nat, next: nat) returns (op: Opcode)
      requires form.FPop? || form.FCmov? || form.FSet?
      modifies this`versions
      ensures Lifted([op], versions) == LiftForm(form, mn, operands, addr, next, old(versions))
    {
      hide ParseSingleOperand, DstBase, Bump, Fresh;
      if |operands| < if form.FCmov? then 2 else 1 {
        return Unknown(mn, addr);
      }
      var id;
      match form
      case FCmov(c) =>
        var src := ParseSingleOperand(operands[1], versions);
        id := NewVersion(DstBase(operands[0]));
        op := Cmovcc(c, id, src);
      case FSet(c) =>
        id := NewVersion(DstBase(operands[0]));
        op := Setcc(c, id);
      case FPop =>
        id := NewVersion(DstBase(operands[0]));
        op := Pop(id);
    }

    /** The arms that yield one opcode; the last case is the arms that define nothing. */
    method LiftOne(form: Form, mn: string, operands: seq<string>, addr: nat, next: nat) returns (op: Opcode)
      requires form != FLeave
      modifies this`versions
      ensures Lifted([op], versions) == LiftForm(form, mn, operands, addr, next, old(versions))
    {
      hide LiftMov, LiftLea, LiftBinaryAlu, LiftMul, LiftUnaryReg, LiftStepByOne, LiftLeave, LiftCall, LiftJmp, BranchTarget;
      hide ParseSingleOperand, DstBase, Bump, Fresh;
      match form
      case FMov => op := DoLiftMov(operands, mn, addr);
      case FLea => op := DoLiftLea(operands, mn, addr);
      case FAlu(kind) => op := DoLiftBinaryAlu(kind, operands, mn, addr);
      case FNot => op := DoLiftUnaryReg(true, operands, addr);
      case FNeg => op := DoLiftUnaryReg(false, operands, addr);
      case FMul => op := DoLiftMul(operands, addr);
      case FInc => op := DoLiftStepByOne(AddOp, operands, mn, addr);
      case FDec => op := DoLiftStepByOne(SubOp, operands, mn, addr);
      case FPop => op := DoLiftDefiner(form, operands, mn, addr, next);
      case FCmov(_) => op := DoLiftDefiner(form, operands, mn, addr, next);
      case FSet(_) => op := DoLiftDefiner(form, operands, mn, addr, next);
      case FLeave => assert false;
      case _ => op := LiftForm(form, mn, operands, addr, next, versions).ops[0];
    }

    method Lift(insn: DisassembledInsn)
      modifies this
      ensures LiftedBlock(code, versions) == AppendLifted(LiftedBlock(old(code), old(versions)), insn)
    {
      hide Mnemonic, FormOf, LiftForm, LiftLeave, ParseOperandsSpec, ToLower, Located;
      var m := Mnemonic(insn);
      var form := FormOf(m, "lock " <= ToLower(insn.mnemonic));
      var operands := ParseOperands(insn.opStr);
      if form == FLeave {
        LeaveForm(m, operands, insn.address, insn.address + insn.size, versions);
        LocatedTwo(insn.address, LiftLeave(versions).ops);
        var op := DoLiftLeave(insn.address);
        Emit(insn.address, op);
      } else {
        var op := LiftOne(form, m, operands, insn.address, insn.address + insn.size);
        Emit(insn.address, op);
        LocatedOne(insn.address, op);
      }
    }
  }

  method LiftFunctionLoop(cfg: Cfg.ControlFlowGraph) returns (f: IRFunction)
    ensures f == LiftFunction(cfg)
  {
    hide LiftInsn;
    var blocks: seq<IRBlock> := [];
    for id := 0 to |cfg.blocks|
      invariant blocks == LiftBlocks(cfg.blocks[..id])
    {
      var block := cfg.blocks[id];
      var lifter := new BlockLifter();
      for i := 0 to |block.instructions|
        invariant LiftedBlock(lifter.code, lifter.versions) == LiftInsns(block.instructions[..i])
      {
        lifter.Lift(block.instructions[i]);
        assert block.instructions[..i + 1][..i] == block.instructions[..i];
      }
      assert block.instructions[..|block.instructions|] == block.instructions;
      blocks := blocks + [IRBlock(block.id, block.startAddr, lifter.code)];
      assert cfg.blocks[..id + 1][..id] == cfg.blocks[..id];
    }
    assert cfg.blocks[..|cfg.blocks|] == cfg.blocks;
    f := IRFunction(cfg.funcName, cfg.funcAddr, blocks, cfg.entryBlock);
  }
}
