/** The lifter as the object the source has: its methods append to a block, advance the register
    counter and update the flag state, exactly as the functions of module Lifter say. */
module FunctionLifter {
  import opened Wrappers
  import opened Bits
  import opened IR
  import opened Flags
  import X86
  import L = Lifter
  import Labels

  class FunctionLifter {
    const fn: IRFunction
    const flagState: FlagState
    var blockNames: map<U64, string>

    constructor ()
      ensures fresh(fn) && fresh(flagState) && blockNames == map[]
      ensures fn.nextVregId == 20 && fn.blocks == [] && flagState.Snapshot() == INITIAL
    {
      fn := new IRFunction();
      flagState := new FlagState();
      blockNames := map[];
    }

    /** Code is pushed through this: a fresh temporary defined by one instruction. */
    method PushTemp(i: Inst, v: Value, block: IRBasicBlock) returns (r: Result<Value>)
      requires v.VReg? && fn.nextVregId == v.id + 1
      modifies block`instructions
      ensures Emitted(r, v, old(EmitterOf(block, fn)).Push(i), block, fn)
    {
      var pushed := block.PushInst(i);
      return if pushed.Pass? then Success(v) else Failure(pushed.error);
    }

    method ReadReg(reg: X86.Register, block: IRBasicBlock) returns (r: Result<Value>)
      modifies block`instructions, fn`nextVregId
      ensures var o := L.ReadReg(reg, old(EmitterOf(block, fn))); Emitted(r, o.v, o.e, block, fn)
    {
      match L.GprVRegId(L.CanonicalReg(reg))
      case None => r := Success(Imm(0, L.I64));
      case Some(id) =>
        var full, ty := VReg(id, L.I64), L.TypeOfReg(reg);
        if ty == L.I64 {
          return Success(full);
        }
        var t := fn.AllocVreg();
        r := PushTemp(Cast(TRUNC, t, ty, full), VReg(t, ty), block);
    }

    method WriteReg(reg: X86.Register, v: Value, block: IRBasicBlock) returns (r: Result<()>)
      modifies block`instructions, fn`nextVregId
      ensures Emitted(r, (), L.WriteReg(reg, v, old(EmitterOf(block, fn))), block, fn)
    {
      hide WellTerminated, L.CanonicalReg;
      var o := Pass;
      match L.GprVRegId(L.CanonicalReg(reg)) {
        case None =>
        case Some(id) =>
          match L.TypeOfReg(reg) {
            case Int(W64) =>
              o := block.PushInst(Mov(id, L.I64, v));
            case Int(W32) =>
              var z :- Extend(ZEXT, L.I64, v, block);
              o := block.PushInst(Mov(id, L.I64, z));
            case Int(w) =>
              var masked :- Arith(Opcode.AND, L.I64, VReg(id, L.I64), Imm(0 - Modulus(w), L.I64), block);
              var z :- Extend(ZEXT, L.I64, v, block);
              o := block.PushInst(Binop(Opcode.OR, id, L.I64, masked, z));
            case _ =>
          }
      }
      return o.ToResult();
    }

    /** A conversion into a fresh temporary. */
    method Extend(op: Opcode, ty: IRType, v: Value, block: IRBasicBlock) returns (r: Result<Value>)
      modifies block`instructions, fn`nextVregId
      ensures var e := old(EmitterOf(block, fn));
              Emitted(r, VReg(e.next, ty), e.Skip().Push(Cast(op, e.next, ty, v)), block, fn)
    {
      var t := fn.AllocVreg();
      r := PushTemp(Cast(op, t, ty, v), VReg(t, ty), block);
    }

    method Arith(op: Opcode, ty: IRType, a: Value, b: Value, block: IRBasicBlock) returns (r: Result<Value>)
      modifies block`instructions, fn`nextVregId
      ensures var o := L.EmitArith(op, ty, a, b, old(EmitterOf(block, fn))); Emitted(r, o.v, o.e, block, fn)
    {
      var t := fn.AllocVreg();
      r := PushTemp(Binop(op, t, ty, a, b), VReg(t, ty), block);
    }

    method AddrBase(m: X86.Operand, block: IRBasicBlock) returns (r: Result<Value>)
      requires m.MemOp?
      modifies block`instructions, fn`nextVregId
      ensures var o := L.AddrBase(m, old(EmitterOf(block, fn))); Emitted(r, o.v, o.e, block, fn)
    {
      match m.base
      case NoRegister => r := Success(Imm(0, L.I64));
      case RIP => r := Success(Imm(m.disp, L.I64));
      case _ => r := ReadReg(m.base, block);
    }

    method AddrIndex(m: X86.Operand, base: Value, block: IRBasicBlock) returns (r: Result<Value>)
      requires m.MemOp?
      modifies block`instructions, fn`nextVregId
      ensures var o := L.AddrIndex(m, Out(old(EmitterOf(block, fn)), base)); Emitted(r, o.v, o.e, block, fn)
    {
      if m.index.NoRegister? {
        return Success(base);
      }
      var idx :- ReadReg(m.index, block);
      if m.scale > 1 {
        idx :- Arith(Opcode.MUL, L.I64, idx, Imm(m.scale, L.I64), block);
      }
      r := Arith(Opcode.ADD, L.I64, base, idx, block);
    }

    method ComputeAddr(m: X86.Operand, block: IRBasicBlock) returns (r: Result<Value>)
      requires m.MemOp?
      modifies block`instructions, fn`nextVregId
      ensures var o := L.ComputeAddr(m, old(EmitterOf(block, fn))); Emitted(r, o.v, o.e, block, fn)
    {
      var addr :- AddrBase(m, block);
      addr :- AddrIndex(m, addr, block);
      if m.hasDisp && m.disp != 0 {
        addr :- Arith(Opcode.ADD, L.I64, addr, Imm(m.disp, L.I64), block);
      }
      var t := fn.AllocVreg();
      r := PushTemp(Cast(INTTOPTR, t, Ptr, addr), VReg(t, Ptr), block);
    }

    method ReadOperand(op: X86.Operand, hint: IRType, block: IRBasicBlock) returns (r: Result<Value>)
      modifies block`instructions, fn`nextVregId
      ensures var o := L.ReadOperand(op, hint, old(EmitterOf(block, fn))); Emitted(r, o.v, o.e, block, fn)
    {
      match op
      case RegOp(reg) => r := ReadReg(reg, block);
      case ImmOp(v, _, _) => r := Success(Imm(v, hint));
      case MemOp(_, _, _, _, _, _) =>
        var ptr :- ComputeAddr(op, block);
        var t := fn.AllocVreg();
        r := PushTemp(Load(t, hint, ptr), VReg(t, hint), block);
      case NoOperand => r := Success(Imm(0, L.I64));
    }

    method WriteOperand(op: X86.Operand, v: Value, block: IRBasicBlock) returns (r: Result<()>)
      modifies block`instructions, fn`nextVregId
      ensures Emitted(r, (), L.WriteOperand(op, v, old(EmitterOf(block, fn))), block, fn)
    {
      match op
      case RegOp(reg) => r := WriteReg(reg, v, block);
      case MemOp(_, _, _, _, _, _) =>
        var ptr :- ComputeAddr(op, block);
        var o := block.PushInst(Store(v, ptr));
        r := o.ToResult();
      case _ => r := Success(());
    }

    method LiftMov(di: X86.DecodedInstr, block: IRBasicBlock) returns (r: Result<()>)
      modifies block`instructions, fn`nextVregId
      ensures Emitted(r, (), L.LiftMov(di, old(EmitterOf(block, fn))), block, fn)
    {
      var src :- ReadOperand(di.Op(1), L.MovWidth(di), block);
      r := WriteOperand(di.Op(0), src, block);
    }

    method LiftExtend(di: X86.DecodedInstr, block: IRBasicBlock) returns (r: Result<()>)
      modifies block`instructions, fn`nextVregId
      ensures Emitted(r, (), L.LiftExtend(di, old(EmitterOf(block, fn))), block, fn)
    {
      var srcTy := if di.Op(1).RegOp? then L.TypeOfReg(di.Op(1).r) else L.TypeFromSize(L.SizeOf(di.Op(1)), Int(W8));
      var dstTy := L.TypeOfReg(L.RegOf(di.Op(0)));
      var src :- ReadOperand(di.Op(1), srcTy, block);
      var v :- Extend(L.ExtendOpcode(di.mnemonic), dstTy, src, block);
      r := WriteReg(L.RegOf(di.Op(0)), v, block);
    }

    /** Reads, computes, and records what set the flags; the flag state stays as it was on a throw. */
    method LiftBinary(m: X86.Mnemonic, src0: X86.Operand, src1: X86.Operand, ty: IRType, block: IRBasicBlock)
      returns (r: Result<Value>)
      modifies block`instructions, fn`nextVregId, flagState
      ensures var (o, f) := L.LiftBinary(m, src0, src1, ty, old(EmitterOf(block, fn)));
              Emitted(r, o.v, o.e, block, fn) && (r.Success? ==> flagState.Snapshot() == f)
    {
      var lhs :- ReadOperand(src0, ty, block);
      var rhs :- ReadOperand(src1, ty, block);
      var v :- Arith(L.AluOpcode(m), ty, lhs, rhs, block);
      flagState.Set(L.AluFlagOp(m), v, lhs, rhs, ty);
      return Success(v);
    }

    method LiftAlu(di: X86.DecodedInstr, block: IRBasicBlock) returns (r: Result<()>)
      modifies block`instructions, fn`nextVregId, flagState
      ensures var l := L.LiftAlu(di, old(EmitterOf(block, fn)));
              Emitted(r, (), l.e, block, fn) && (r.Success? ==> flagState.Snapshot() == l.f)
    {
      var v :- LiftBinary(di.mnemonic, di.Op(0), di.Op(1), L.DestWidth(di.Op(0)), block);
      r := WriteOperand(di.Op(0), v, block);
    }

    method LiftCompare(di: X86.DecodedInstr, block: IRBasicBlock) returns (r: Result<()>)
      modifies block`instructions, fn`nextVregId, flagState
      ensures var l := L.LiftCompare(di, old(EmitterOf(block, fn)));
              Emitted(r, (), l.e, block, fn) && (r.Success? ==> flagState.Snapshot() == l.f)
    {
      var _ :- LiftBinary(di.mnemonic, di.Op(0), di.Op(1), L.DestWidth(di.Op(0)), block);
      return Success(());
    }

    method LiftImul(di: X86.DecodedInstr, block: IRBasicBlock) returns (r: Result<()>)
      modifies block`instructions, fn`nextVregId, flagState
      ensures var l := L.LiftImul(di, old(EmitterOf(block, fn)));
              Emitted(r, (), l.e, block, fn) && (r.Success? ==> flagState.Snapshot() == l.f)
    {
      var ty := L.TypeOfReg(L.RegOf(di.Op(0)));
      var k := if |di.ops| == 2 then 0 else 1;
      var v :- LiftBinary(X86.IMUL, di.Op(k), di.Op(k + 1), ty, block);
      r := WriteReg(L.RegOf(di.Op(0)), v, block);
    }

    method Unary(op: Opcode, ty: IRType, src: Value, block: IRBasicBlock) returns (r: Result<Value>)
      modifies block`instructions, fn`nextVregId
      ensures var e := old(EmitterOf(block, fn));
              Emitted(r, VReg(e.next, ty), e.Skip().Push(Unop(op, e.next, ty, src)), block, fn)
    {
      var t := fn.AllocVreg();
      r := PushTemp(Unop(op, t, ty, src), VReg(t, ty), block);
    }

    method LiftUnary(di: X86.DecodedInstr, block: IRBasicBlock) returns (r: Result<()>)
      modifies block`instructions, fn`nextVregId, flagState
      ensures var l := L.LiftUnary(di, old(EmitterOf(block, fn)), old(flagState.Snapshot()));
              Emitted(r, (), l.e, block, fn) && (r.Success? ==> flagState.Snapshot() == l.f)
    {
      var isNeg := di.mnemonic.NEG?;
      var ty := L.TypeOfReg(L.RegOf(di.Op(0)));
      var src :- ReadOperand(di.Op(0), ty, block);
      var v :- Unary(if isNeg then Opcode.NEG else Opcode.NOT, ty, src, block);
      if isNeg {
        flagState.Set(FlagOp.SUB, v, Imm(0, ty), src, ty);
      }
      r := WriteOperand(di.Op(0), v, block);
    }

    method LiftIncDec(di: X86.DecodedInstr, block: IRBasicBlock) returns (r: Result<()>)
      modifies block`instructions, fn`nextVregId, flagState
      ensures var l := L.LiftIncDec(di, old(EmitterOf(block, fn)));
              Emitted(r, (), l.e, block, fn) && (r.Success? ==> flagState.Snapshot() == l.f)
    {
      var isDec := di.mnemonic.DEC?;
      var ty := L.TypeOfReg(L.RegOf(di.Op(0)));
      var src :- ReadOperand(di.Op(0), ty, block);
      var v :- Arith(if isDec then Opcode.SUB else Opcode.ADD, ty, src, Imm(1, ty), block);
      flagState.Set(if isDec then FlagOp.DEC else FlagOp.INC, v, src, Imm(1, ty), ty);
      r := WriteOperand(di.Op(0), v, block);
    }

    method LiftLea(di: X86.DecodedInstr, block: IRBasicBlock) returns (r: Result<()>)
      modifies block`instructions, fn`nextVregId
      ensures Emitted(r, (), L.LiftLea(di, old(EmitterOf(block, fn))), block, fn)
    {
      if !di.Op(1).MemOp? {
        return Success(());
      }
      var ptr :- ComputeAddr(di.Op(1), block);
      var t := fn.AllocVreg();
      var v :- PushTemp(Cast(PTRTOINT, t, Int(W16), ptr), VReg(t, L.I64), block);
      r := WriteReg(L.RegOf(di.Op(0)), v, block);
    }

    method LiftWideImul(di: X86.DecodedInstr, block: IRBasicBlock) returns (r: Result<()>)
      modifies block`instructions, fn`nextVregId, flagState
      ensures var l := L.LiftWideImul(di, old(EmitterOf(block, fn)));
              Emitted(r, (), l.e, block, fn) && (r.Success? ==> flagState.Snapshot() == l.f)
    {
      var v :- LiftBinary(X86.IMUL, X86.RegOp(L.RAX64), di.Op(0), L.I64, block);
      var _ :- WriteReg(L.RAX64, v, block);
      r := WriteReg(L.RDX64, Imm(0, L.I64), block);
    }

    method PushBoth(i: Inst, j: Inst, block: IRBasicBlock) returns (r: Result<()>)
      modifies block`instructions
      ensures Emitted(r, (), old(EmitterOf(block, fn)).Push(i).Push(j), block, fn)
    {
      var o := block.PushInst(i);
      if o.Pass? {
        o := block.PushInst(j);
      }
      return o.ToResult();
    }

    method LiftDivide(di: X86.DecodedInstr, block: IRBasicBlock) returns (r: Result<()>)
      modifies block`instructions, fn`nextVregId, flagState
      ensures var l := L.LiftDivide(di, L.Lifted(old(EmitterOf(block, fn)), old(flagState.Snapshot())));
              Emitted(r, (), l.e, block, fn) && (r.Success? ==> flagState.Snapshot() == l.f)
    {
      hide L.ReadReg, L.ReadOperand, L.WriteReg, L.DivOpcode, L.RemOpcode, WellTerminated;
      var rax :- ReadReg(L.RAX64, block);
      var src :- ReadOperand(di.Op(0), L.I64, block);
      var q := fn.AllocVreg();
      var m := fn.AllocVreg();
      var _ :- PushBoth(Binop(L.DivOpcode(di.mnemonic), q, L.I64, rax, src), Binop(L.RemOpcode(di.mnemonic), m, L.I64, rax, src), block);
      var _ :- WriteReg(L.RAX64, VReg(q, L.I64), block);
      var _ :- WriteReg(L.RDX64, VReg(m, L.I64), block);
      flagState.Invalidate();
      return Success(());
    }

    method LiftShift(di: X86.DecodedInstr, block: IRBasicBlock) returns (r: Result<()>)
      modifies block`instructions, fn`nextVregId, flagState
      ensures var l := L.LiftShift(di, old(EmitterOf(block, fn)));
              Emitted(r, (), l.e, block, fn) && (r.Success? ==> flagState.Snapshot() == l.f)
    {
      var ty := L.TypeOfReg(L.RegOf(di.Op(0)));
      var src :- ReadOperand(di.Op(0), ty, block);
      var amt :- ReadOperand(di.Op(1), Int(W8), block);
      var count :- Extend(ZEXT, ty, amt, block);
      var v :- Arith(L.ShiftOpcode(di.mnemonic), ty, src, count, block);
      flagState.Set(L.ShiftFlagOp(di.mnemonic), v, src, count, ty);
      r := WriteOperand(di.Op(0), v, block);
    }

    /** The scan over the operands for a PC-relative target. */
    method FindTarget(di: X86.DecodedInstr) returns (va: U64)
      ensures va == di.DirectTarget()
    {
      for k := 0 to |di.ops|
        invariant di.RelativeTarget(0) == di.RelativeTarget(k)
      {
        if di.ops[k].ImmOp? && di.ops[k].relative {
          return (di.End() + di.ops[k].value) % TWO64;
        }
      }
      return 0;
    }

    method LiftJcc(di: X86.DecodedInstr, block: IRBasicBlock) returns (r: Result<()>)
      modifies block`instructions, fn`nextVregId
      ensures Emitted(r, (), L.LiftJcc(di, blockNames, flagState.Snapshot(), old(EmitterOf(block, fn))), block, fn)
    {
      var takenVA := FindTarget(di);
      var ifTrue, ifFalse := L.LabelOf(blockNames, takenVA), L.LabelOf(blockNames, di.End());
      var o;
      match L.FlagRequestForJcc(di.mnemonic) {
        case None =>
          o := block.PushInst(Jmp(ifFalse));
        case Some(req) =>
          var c :- flagState.MaterialiseInto(req, block, fn);
          o := block.PushInst(Cjmp(c, ifTrue, ifFalse));
      }
      return o.ToResult();
    }

    method LiftJmp(di: X86.DecodedInstr, block: IRBasicBlock) returns (r: Result<()>)
      modifies block`instructions
      ensures Emitted(r, (), L.LiftJmp(di, blockNames, old(EmitterOf(block, fn))), block, fn)
    {
      var target := FindTarget(di);
      var o := block.PushInst(if target in blockNames then Jmp(blockNames[target]) else Nop);
      return o.ToResult();
    }

    method LiftCall(di: X86.DecodedInstr, block: IRBasicBlock) returns (r: Result<()>)
      modifies block`instructions, fn`nextVregId
      ensures Emitted(r, (), L.LiftCall(di, old(EmitterOf(block, fn))), block, fn)
    {
      var callee := Imm(0, Ptr);
      if di.Op(0).ImmOp? && di.Op(0).relative {
        callee := Imm((di.End() + di.Op(0).value) % TWO64, Ptr);
      } else {
        var addr :- ReadOperand(di.Op(0), L.I64, block);
        callee :- Extend(INTTOPTR, Ptr, addr, block);
      }
      var ret := fn.AllocVreg();
      var v :- PushTemp(Call(ret, L.I64, callee), VReg(ret, L.I64), block);
      r := WriteReg(L.RAX64, v, block);
    }

    /** The dispatch over mnemonics. */
    method LiftInstr(di: X86.DecodedInstr, block: IRBasicBlock) returns (r: Result<()>)
      modifies block`instructions, fn`nextVregId, flagState
      ensures var l := L.LiftInstr(di, blockNames, L.Lifted(old(EmitterOf(block, fn)), old(flagState.Snapshot())));
              Emitted(r, (), l.e, block, fn) && (r.Success? ==> flagState.Snapshot() == l.f)
    {
      hide L.LiftMov, L.LiftExtend, L.LiftAlu, L.LiftCompare, L.LiftImul, L.LiftWideImul, L.LiftUnary, L.LiftIncDec,
        L.LiftLea, L.LiftDivide, L.LiftShift, L.LiftCall, L.LiftJcc, L.LiftJmp;
      match di.mnemonic
      case NOP =>
        var o := block.PushInst(Nop);
        r := o.ToResult();
      case MOV => r := LiftMov(di, block);
      case MOVZX | MOVSX => r := LiftExtend(di, block);
      case ADD | SUB | AND | OR | XOR => r := LiftAlu(di, block);
      case CMP | TEST => r := LiftCompare(di, block);
      case IMUL =>
        if |di.ops| == 1 {
          r := LiftWideImul(di, block);
        } else {
          r := LiftImul(di, block);
        }
      case NOT | NEG => r := LiftUnary(di, block);
      case INC | DEC => r := LiftIncDec(di, block);
      case JZ | JNZ | JS | JNS | JO | JNO | JB | JNB | JBE | JNBE | JL | JNL | JLE | JNLE =>
        r := LiftJcc(di, block);
      case JMP => r := LiftJmp(di, block);
      case LEA => r := LiftLea(di, block);
      case DIV | IDIV => r := LiftDivide(di, block);
      case SHL | SHR | SAR => r := LiftShift(di, block);
      case CALL =>
        var _ :- LiftCall(di, block);
        flagState.Invalidate();
        r := Success(());
      case RET | RETF | JP | JNP | LOOP | LOOPE | LOOPNE | UNHANDLED => r := Success(());
    }

    /** The instructions of one basic block, in order. */
    method LiftBody(instrs: seq<X86.DecodedInstr>, block: IRBasicBlock) returns (r: Result<()>)
      modifies block`instructions, fn`nextVregId, flagState
      ensures var l := L.LiftAll(instrs, blockNames, L.Lifted(old(EmitterOf(block, fn)), old(flagState.Snapshot())));
              Emitted(r, (), l.e, block, fn) && (r.Success? ==> flagState.Snapshot() == l.f)
    {
      ghost var l0 := L.Lifted(EmitterOf(block, fn), flagState.Snapshot());
      for k := 0 to |instrs|
        invariant L.Lifted(EmitterOf(block, fn), flagState.Snapshot()) == L.LiftAll(instrs[..k], blockNames, l0)
      {
        assert instrs[..k + 1][..k] == instrs[..k];
        r := LiftInstr(instrs[k], block);
        if r.Failure? {
          L.LiftAllThrown(instrs, k + 1, blockNames, l0);
          return;
        }
      }
      assert instrs[..|instrs|] == instrs;
      return Success(());
    }

    /** Lifts one basic block into its IR block, and closes it with a JMP to the next address when its
        instructions have left no terminator. */
    method LiftBlock(instrs: seq<X86.DecodedInstr>, block: IRBasicBlock) returns (r: Result<()>)
      modifies block`instructions, fn`nextVregId, flagState
      ensures var l := L.LiftBlock(instrs, blockNames, L.Lifted(old(EmitterOf(block, fn)), old(flagState.Snapshot())));
              Emitted(r, (), l.e, block, fn) && (r.Success? ==> flagState.Snapshot() == l.f)
    {
      hide L.LiftAll;
      var _ :- LiftBody(instrs, block);
      var o := Pass;
      if instrs != [] && !block.IsTerminated() {
        o := block.PushInst(Jmp(L.LabelOf(blockNames, instrs[|instrs| - 1].End())));
      }
      return o.ToResult();
    }

    /** One label per block leader. */
    method NameBlocks(keys: seq<U64>)
      modifies this`blockNames
      ensures blockNames == NamesOf(keys)
    {
      blockNames := map[];
      for k := 0 to |keys|
        invariant blockNames == NamesOf(keys[..k])
      {
        blockNames := blockNames[keys[k] := Labels.MakeLabel(keys[k])];
        assert keys[..k + 1] == keys[..k] + [keys[k]];
      }
      assert keys[..|keys|] == keys;
    }

    /** All blocks are created, empty and in key order, before any is lifted. */
    method CreateBlocks(keys: seq<U64>)
      modifies fn`blocks
      ensures Created(fn.blocks, keys)
      ensures forall j :: 0 <= j < |fn.blocks| ==> fresh(fn.blocks[j]) && fn.blocks[j].instructions == []
    {
      fn.blocks := [];
      for k := 0 to |keys|
        invariant Created(fn.blocks, keys[..k])
        invariant forall j :: 0 <= j < k ==> fresh(fn.blocks[j]) && fn.blocks[j].instructions == []
      {
        var b := new IRBasicBlock(Labels.MakeLabel(keys[k]), keys[k]);
        fn.AddBlock(b);
      }
      assert keys[..|keys|] == keys;
    }

    /** Lifts every block, in key order, into the block created for it. */
    method LiftBlocks(parts: seq<seq<X86.DecodedInstr>>) returns (r: Result<()>)
      requires |parts| == |fn.blocks| && Distinct(fn.blocks)
      requires forall j :: 0 <= j < |fn.blocks| ==> fn.blocks[j].instructions == []
      requires fn.nextVregId == 20 && flagState.Snapshot() == INITIAL
      modifies fn`nextVregId, flagState, fn.blocks
      ensures var code := L.LiftParts(parts, blockNames);
              && (r.Success? <==> !code.thrown)
              && (r.Success? ==> HoldsCode(fn.blocks, code.blocks, |parts|))
    {
      hide L.LiftBlock;
      for k := 0 to |parts|
        invariant forall j :: k <= j < |parts| ==> fn.blocks[j].instructions == []
        invariant HoldsCode(fn.blocks, L.LiftParts(parts[..k], blockNames).blocks, k)
        invariant !L.LiftParts(parts[..k], blockNames).thrown
        invariant fn.nextVregId == L.LiftParts(parts[..k], blockNames).next
        invariant flagState.Snapshot() == L.LiftParts(parts[..k], blockNames).f
      {
        L.LiftPartsNext(parts, k, blockNames);
        hide L.LiftParts;
        r := LiftBlock(parts[k], fn.blocks[k]);
        if r.Failure? {
          L.LiftPartsThrown(parts, k + 1, blockNames);
          return;
        }
      }
      assert parts[..|parts|] == parts;
      return Success(());
    }

    /** Lifts a whole control-flow graph. Its code is that of LiftParts, block by block. */
    method Lift(blocks: map<U64, seq<X86.DecodedInstr>>, keys: seq<U64>) returns (r: Result<()>)
      requires forall j :: 0 <= j < |keys| ==> keys[j] in blocks
      requires fn.nextVregId == 20 && flagState.Snapshot() == INITIAL
      modifies this`blockNames, fn, flagState
      ensures blockNames == NamesOf(keys) && Created(fn.blocks, keys)
      ensures var code := L.LiftParts(PartsOf(blocks, keys), NamesOf(keys));
              && (r.Success? <==> !code.thrown)
              && (r.Success? ==> HoldsCode(fn.blocks, code.blocks, |keys|))
    {
      NameBlocks(keys);
      CreateBlocks(keys);
      r := LiftBlocks(PartsOf(blocks, keys));
    }
  }

  /** The first k blocks hold the given code. */
  ghost predicate HoldsCode(blocks: seq<IRBasicBlock>, code: seq<seq<Inst>>, k: nat)
    requires k <= |blocks| && k <= |code|
    reads blocks
  {
    forall j :: 0 <= j < k ==> blocks[j].instructions == code[j]
  }

  ghost predicate Distinct(blocks: seq<IRBasicBlock>) {
    forall i, j :: 0 <= i < j < |blocks| ==> blocks[i] != blocks[j]
  }

  function PartsOf(blocks: map<U64, seq<X86.DecodedInstr>>, keys: seq<U64>): seq<seq<X86.DecodedInstr>>
    requires forall j :: 0 <= j < |keys| ==> keys[j] in blocks
  {
    seq(|keys|, j requires 0 <= j < |keys| => blocks[keys[j]])
  }

  function NamesOf(keys: seq<U64>): map<U64, string> {
    map va | va in keys :: Labels.MakeLabel(va)
  }

  /** The blocks of a function, named and placed after the keys, all different objects. */
  ghost predicate Created(blocks: seq<IRBasicBlock>, keys: seq<U64>) {
    && |blocks| == |keys|
    && (forall j :: 0 <= j < |keys| ==> blocks[j].name == Labels.MakeLabel(keys[j]) && blocks[j].startAddr == keys[j])
    && Distinct(blocks)
  }
}
