/** Register ids over a whole function: lifted code defines general-purpose registers and temporaries only,
    and every temporary once, in the order in which ids are handed out. */
module Temporaries {
  import opened Wrappers
  import opened Bits
  import opened IR
  import opened Flags
  import opened Lifter
  import X86

  function Defines(i: Inst): Option<nat> {
    match i
    case Mov(d, _, _) => Some(d)
    case Binop(_, d, _, _, _) => Some(d)
    case Unop(_, d, _, _) => Some(d)
    case Icmp(_, d, _, _) => Some(d)
    case Cast(_, d, _, _) => Some(d)
    case Load(d, _, _) => Some(d)
    case Call(d, _, _) => Some(d)
    case _ => None
  }

  /** The instruction defines a register that is not general-purpose. */
  predicate DefinesOther(i: Inst) {
    Defines(i).Some? && Defines(i).value >= 16
  }

  /** Everything defined is a general-purpose register or a temporary in [lo, hi), and the temporaries'
      ids strictly increase in the order of the code. */
  predicate Orderly(insts: seq<Inst>, lo: nat, hi: nat) {
    && (forall k :: 0 <= k < |insts| && DefinesOther(insts[k]) ==> lo <= Defines(insts[k]).value < hi)
    && (forall j, k :: 0 <= j < k < |insts| && DefinesOther(insts[j]) && DefinesOther(insts[k]) ==>
          Defines(insts[j]).value < Defines(insts[k]).value)
  }

  /** The code emitted so far is orderly from lo up to the counter. */
  predicate Tidy(e: Emitter, lo: nat) {
    lo <= e.next && Orderly(e.insts, lo, e.next)
  }

  // ----- one instruction -----

  /** An instruction that defines the next id, or a general-purpose register, or nothing. */
  lemma TidyTemp(e: Emitter, i: Inst, lo: nat)
    requires Tidy(e, lo) && (DefinesOther(i) ==> Defines(i) == Some(e.next))
    ensures Tidy(e.Skip().Push(i), lo)
  {
    hide Terminated, Defines;
  }

  lemma TidyWrite(e: Emitter, i: Inst, lo: nat)
    requires Tidy(e, lo) && !DefinesOther(i)
    ensures Tidy(e.Push(i), lo)
  {
    hide Terminated, Defines;
  }

  // ----- conditions -----

  lemma TidyIcmp(cond: IcmpCond, a: Value, b: Value, e: Emitter, lo: nat)
    requires Tidy(e, lo)
    ensures Tidy(EmitIcmp(cond, a, b, e).e, lo)
  {
    hide Tidy;
    TidyTemp(e, Icmp(cond, e.next, a, b), lo);
  }

  lemma TidyBinop(op: Opcode, a: Value, b: Value, e: Emitter, lo: nat)
    requires Tidy(e, lo)
    ensures Tidy(EmitBinop(op, a, b, e).e, lo)
  {
    hide Tidy;
    TidyTemp(e, Binop(op, e.next, I1, a, b), lo);
  }

  lemma TidyNot(v: Value, e: Emitter, lo: nat)
    requires Tidy(e, lo)
    ensures Tidy(EmitNot(v, e).e, lo)
  {
    hide Tidy, EmitBinop;
    TidyBinop(Opcode.XOR, v, Imm(1, I1), e, lo);
  }

  lemma TidyFlag(f: Lazy, e: Emitter, lo: nat)
    requires Tidy(e, lo)
    ensures Tidy(EmitZF(f, e).e, lo) && Tidy(EmitSF(f, e).e, lo) && Tidy(EmitCF(f, e).e, lo)
  {
    hide Tidy, EmitIcmp;
    var zero := Imm(0, f.ty);
    TidyIcmp(EQ, f.result, zero, e, lo);
    TidyIcmp(SLT, f.result, zero, e, lo);
    TidyIcmp(ULT, f.result, f.lhs, e, lo);
    TidyIcmp(UGT, f.result, f.lhs, e, lo);
  }

  lemma TidySigns(condA: IcmpCond, a: Value, condB: IcmpCond, b: Value, ty: IRType, e: Emitter, lo: nat)
    requires Tidy(e, lo)
    ensures Tidy(EmitSigns(condA, a, condB, b, ty, e).e, lo)
  {
    hide Tidy, EmitIcmp, EmitBinop;
    TidyIcmp(condA, a, Imm(0, ty), e, lo);
    var o1 := EmitIcmp(condA, a, Imm(0, ty), e);
    TidyIcmp(condB, b, Imm(0, ty), o1.e, lo);
    var o2 := EmitIcmp(condB, b, Imm(0, ty), o1.e);
    TidyBinop(Opcode.AND, o1.v, o2.v, o2.e, lo);
  }

  lemma TidyOF(f: Lazy, e: Emitter, lo: nat)
    requires Tidy(e, lo)
    ensures Tidy(EmitOF(f, e).e, lo)
  {
    hide Tidy, EmitSigns, EmitBinop;
    TidySigns(SGE, f.lhs, SLT, f.result, f.ty, e, lo);
    TidySigns(SLT, f.lhs, SGE, f.result, f.ty, e, lo);
    var pos := EmitSigns(SGE, f.lhs, SLT, f.result, f.ty, e);
    TidySigns(SLT, f.lhs, SGE, f.result, f.ty, pos.e, lo);
    var neg := EmitSigns(SLT, f.lhs, SGE, f.result, f.ty, pos.e);
    TidyBinop(Opcode.OR, pos.v, neg.v, neg.e, lo);
  }

  lemma TidySFxorOF(f: Lazy, e: Emitter, lo: nat)
    requires Tidy(e, lo)
    ensures Tidy(EmitSFxorOF(f, e).e, lo)
  {
    hide Tidy, EmitSF, EmitOF, EmitBinop;
    TidyFlag(f, e, lo);
    var sf := EmitSF(f, e);
    TidyOF(f, sf.e, lo);
    var ovf := EmitOF(f, sf.e);
    TidyBinop(Opcode.XOR, sf.v, ovf.v, ovf.e, lo);
  }

  lemma TidyRequest(f: Lazy, req: FlagRequest, e: Emitter, lo: nat)
    requires Tidy(e, lo)
    ensures Tidy(EmitRequest(f, req, e).e, lo)
  {
    hide Tidy, EmitZF, EmitSF, EmitCF, EmitOF, EmitNot, EmitSFxorOF, EmitBinop;
    TidyFlag(f, e, lo);
    TidyOF(f, e, lo);
    TidySFxorOF(f, e, lo);
    match req
    case ZF | SF | CF | OF | SF_XOR_OF =>
    case NOT_ZF => var z := EmitZF(f, e); TidyNot(z.v, z.e, lo);
    case NOT_SF => var s := EmitSF(f, e); TidyNot(s.v, s.e, lo);
    case NOT_CF => var c := EmitCF(f, e); TidyNot(c.v, c.e, lo);
    case NOT_OF => var v := EmitOF(f, e); TidyNot(v.v, v.e, lo);
    case NOT_SF_XOR_OF => var x := EmitSFxorOF(f, e); TidyNot(x.v, x.e, lo);
    case CF_OR_ZF =>
      var c := EmitCF(f, e);
      TidyFlag(f, c.e, lo);
      var z := EmitZF(f, c.e);
      TidyBinop(Opcode.OR, c.v, z.v, z.e, lo);
    case NOT_CF_AND_NOT_ZF =>
      var c := EmitCF(f, e);
      TidyNot(c.v, c.e, lo);
      var nc := EmitNot(c.v, c.e);
      TidyFlag(f, nc.e, lo);
      var z := EmitZF(f, nc.e);
      TidyNot(z.v, z.e, lo);
      var nz := EmitNot(z.v, z.e);
      TidyBinop(Opcode.AND, nc.v, nz.v, nz.e, lo);
    case ZF_OR_SF_XOR_OF =>
      var z := EmitZF(f, e);
      TidySFxorOF(f, z.e, lo);
      var x := EmitSFxorOF(f, z.e);
      TidyBinop(Opcode.OR, z.v, x.v, x.e, lo);
    case NOT_ZF_AND_NOT_SF_XOR_OF =>
      var z := EmitZF(f, e);
      TidyNot(z.v, z.e, lo);
      var nz := EmitNot(z.v, z.e);
      TidySFxorOF(f, nz.e, lo);
      var x := EmitSFxorOF(f, nz.e);
      TidyNot(x.v, x.e, lo);
      var nx := EmitNot(x.v, x.e);
      TidyBinop(Opcode.AND, nz.v, nx.v, nx.e, lo);
  }

  // ----- operands -----

  lemma TidyReadReg(r: X86.Register, e: Emitter, lo: nat)
    requires Tidy(e, lo)
    ensures Tidy(ReadReg(r, e).e, lo)
  {
    hide Tidy;
    match GprVRegId(CanonicalReg(r))
    case None =>
    case Some(id) => TidyTemp(e, Cast(TRUNC, e.next, TypeOfReg(r), VReg(id, I64)), lo);
  }

  lemma TidyWriteReg(r: X86.Register, v: Value, e: Emitter, lo: nat)
    requires Tidy(e, lo)
    ensures Tidy(WriteReg(r, v, e), lo)
  {
    hide Tidy;
    match GprVRegId(CanonicalReg(r))
    case None =>
    case Some(id) =>
      GprIdSmall(r);
      match TypeOfReg(r) {
        case Int(W64) => TidyWrite(e, Mov(id, I64, v), lo);
        case Int(W32) =>
          TidyTemp(e, Cast(ZEXT, e.next, I64, v), lo);
          TidyWrite(e.Skip().Push(Cast(ZEXT, e.next, I64, v)), Mov(id, I64, VReg(e.next, I64)), lo);
        case Int(w) =>
          var i1 := Binop(Opcode.AND, e.next, I64, VReg(id, I64), Imm(0 - Modulus(w), I64));
          TidyTemp(e, i1, lo);
          var e1 := e.Skip().Push(i1);
          TidyTemp(e1, Cast(ZEXT, e1.next, I64, v), lo);
          TidyWrite(e1.Skip().Push(Cast(ZEXT, e1.next, I64, v)),
                    Binop(Opcode.OR, id, I64, VReg(e.next, I64), VReg(e1.next, I64)), lo);
        case _ =>
      }
  }

  lemma GprIdSmall(r: X86.Register)
    ensures match GprVRegId(CanonicalReg(r)) case Some(id) => id < 16 case None => true
  {
  }

  lemma TidyArith(op: Opcode, ty: IRType, a: Value, b: Value, e: Emitter, lo: nat)
    requires Tidy(e, lo)
    ensures Tidy(EmitArith(op, ty, a, b, e).e, lo)
  {
    hide Tidy;
    TidyTemp(e, Binop(op, e.next, ty, a, b), lo);
  }

  lemma TidyAddr(m: X86.Operand, e: Emitter, lo: nat)
    requires Tidy(e, lo) && m.MemOp?
    ensures Tidy(ComputeAddr(m, e).e, lo)
  {
    hide Tidy, ReadReg, EmitArith;
    TidyReadReg(m.base, e, lo);
    var base := AddrBase(m, e);
    TidyReadReg(m.index, base.e, lo);
    var idx := ReadReg(m.index, base.e);
    TidyArith(Opcode.MUL, I64, idx.v, Imm(m.scale, I64), idx.e, lo);
    var scaled := ScaledIndex(m, base.e);
    TidyArith(Opcode.ADD, I64, base.v, scaled.v, scaled.e, lo);
    var addr := AddrIndex(m, base);
    TidyArith(Opcode.ADD, I64, addr.v, Imm(m.disp, I64), addr.e, lo);
    var a := AddrDisp(m, addr);
    TidyTemp(a.e, Cast(INTTOPTR, a.e.next, Ptr, a.v), lo);
  }

  lemma TidyRead(op: X86.Operand, hint: IRType, e: Emitter, lo: nat)
    requires Tidy(e, lo)
    ensures Tidy(ReadOperand(op, hint, e).e, lo)
  {
    hide Tidy, ReadReg, ComputeAddr;
    match op
    case RegOp(r) => TidyReadReg(r, e, lo);
    case MemOp(_, _, _, _, _, _) =>
      TidyAddr(op, e, lo);
      var p := ComputeAddr(op, e);
      TidyTemp(p.e, Load(p.e.next, hint, p.v), lo);
    case _ =>
  }

  lemma TidyWriteOperand(op: X86.Operand, v: Value, e: Emitter, lo: nat)
    requires Tidy(e, lo)
    ensures Tidy(WriteOperand(op, v, e), lo)
  {
    hide Tidy, WriteReg, ComputeAddr;
    match op
    case RegOp(r) => TidyWriteReg(r, v, e, lo);
    case MemOp(_, _, _, _, _, _) =>
      TidyAddr(op, e, lo);
      TidyWrite(ComputeAddr(op, e).e, Store(v, ComputeAddr(op, e).v), lo);
    case _ =>
  }

  // ----- instructions -----

  lemma TidyBinary(m: X86.Mnemonic, src0: X86.Operand, src1: X86.Operand, ty: IRType, e: Emitter, lo: nat)
    requires Tidy(e, lo)
    ensures Tidy(LiftBinary(m, src0, src1, ty, e).0.e, lo)
  {
    hide Tidy, ReadOperand, EmitArith;
    TidyRead(src0, ty, e, lo);
    var lhs := ReadOperand(src0, ty, e);
    TidyRead(src1, ty, lhs.e, lo);
    var rhs := ReadOperand(src1, ty, lhs.e);
    TidyArith(AluOpcode(m), ty, lhs.v, rhs.v, rhs.e, lo);
  }

  lemma TidyMoves(di: DecodedInstr, e: Emitter, lo: nat)
    requires Tidy(e, lo)
    ensures Tidy(LiftMov(di, e), lo) && Tidy(LiftExtend(di, e), lo) && Tidy(LiftLea(di, e), lo)
  {
    hide Tidy, ReadOperand, WriteOperand, WriteReg, ComputeAddr;
    var src := ReadOperand(di.Op(1), MovWidth(di), e);
    TidyRead(di.Op(1), MovWidth(di), e, lo);
    TidyWriteOperand(di.Op(0), src.v, src.e, lo);
    var srcTy := if di.Op(1).RegOp? then TypeOfReg(di.Op(1).r) else TypeFromSize(SizeOf(di.Op(1)), Int(W8));
    var dstTy := TypeOfReg(RegOf(di.Op(0)));
    TidyRead(di.Op(1), srcTy, e, lo);
    var z := ReadOperand(di.Op(1), srcTy, e);
    TidyTemp(z.e, Cast(ExtendOpcode(di.mnemonic), z.e.next, dstTy, z.v), lo);
    TidyWriteReg(RegOf(di.Op(0)), VReg(z.e.next, dstTy), z.e.Skip().Push(Cast(ExtendOpcode(di.mnemonic), z.e.next, dstTy, z.v)), lo);
    if di.Op(1).MemOp? {
      TidyAddr(di.Op(1), e, lo);
      var p := ComputeAddr(di.Op(1), e);
      TidyTemp(p.e, Cast(PTRTOINT, p.e.next, Int(W16), p.v), lo);
      TidyWriteReg(RegOf(di.Op(0)), VReg(p.e.next, I64), p.e.Skip().Push(Cast(PTRTOINT, p.e.next, Int(W16), p.v)), lo);
    }
  }

  lemma TidyBinaries(di: DecodedInstr, e: Emitter, lo: nat)
    requires Tidy(e, lo)
    ensures Tidy(LiftAlu(di, e).e, lo) && Tidy(LiftCompare(di, e).e, lo)
    ensures Tidy(LiftImul(di, e).e, lo) && Tidy(LiftWideImul(di, e).e, lo)
  {
    hide Tidy, LiftBinary, WriteOperand, WriteReg;
    var w, ty := DestWidth(di.Op(0)), TypeOfReg(RegOf(di.Op(0)));
    TidyBinary(di.mnemonic, di.Op(0), di.Op(1), w, e, lo);
    var o := LiftBinary(di.mnemonic, di.Op(0), di.Op(1), w, e).0;
    TidyWriteOperand(di.Op(0), o.v, o.e, lo);
    var k := if |di.ops| == 2 then 0 else 1;
    TidyBinary(X86.IMUL, di.Op(k), di.Op(k + 1), ty, e, lo);
    var p := LiftBinary(X86.IMUL, di.Op(k), di.Op(k + 1), ty, e).0;
    TidyWriteReg(RegOf(di.Op(0)), p.v, p.e, lo);
    TidyBinary(X86.IMUL, X86.RegOp(RAX64), di.Op(0), I64, e, lo);
    var q := LiftBinary(X86.IMUL, X86.RegOp(RAX64), di.Op(0), I64, e).0;
    TidyWriteReg(RAX64, q.v, q.e, lo);
    TidyWriteReg(RDX64, Imm(0, I64), WriteReg(RAX64, q.v, q.e), lo);
  }

  lemma TidyUnaries(di: DecodedInstr, e: Emitter, f: Lazy, lo: nat)
    requires Tidy(e, lo)
    ensures Tidy(LiftUnary(di, e, f).e, lo) && Tidy(LiftIncDec(di, e).e, lo)
  {
    hide Tidy, ReadOperand, WriteOperand, EmitArith;
    var ty := TypeOfReg(RegOf(di.Op(0)));
    TidyRead(di.Op(0), ty, e, lo);
    var src := ReadOperand(di.Op(0), ty, e);
    var i := Unop(if di.mnemonic.NEG? then Opcode.NEG else Opcode.NOT, src.e.next, ty, src.v);
    TidyTemp(src.e, i, lo);
    TidyWriteOperand(di.Op(0), VReg(src.e.next, ty), src.e.Skip().Push(i), lo);
    var op := if di.mnemonic.DEC? then Opcode.SUB else Opcode.ADD;
    TidyArith(op, ty, src.v, Imm(1, ty), src.e, lo);
    var o := EmitArith(op, ty, src.v, Imm(1, ty), src.e);
    TidyWriteOperand(di.Op(0), o.v, o.e, lo);
  }

  lemma TidyShift(di: DecodedInstr, e: Emitter, lo: nat)
    requires Tidy(e, lo)
    ensures Tidy(LiftShift(di, e).e, lo)
  {
    hide Tidy, ReadOperand, WriteOperand, EmitArith;
    var ty := TypeOfReg(RegOf(di.Op(0)));
    TidyRead(di.Op(0), ty, e, lo);
    var src := ReadOperand(di.Op(0), ty, e);
    TidyRead(di.Op(1), Int(W8), src.e, lo);
    var amt := ReadOperand(di.Op(1), Int(W8), src.e);
    var i := Cast(ZEXT, amt.e.next, ty, amt.v);
    TidyTemp(amt.e, i, lo);
    TidyArith(ShiftOpcode(di.mnemonic), ty, src.v, VReg(amt.e.next, ty), amt.e.Skip().Push(i), lo);
    var o := EmitArith(ShiftOpcode(di.mnemonic), ty, src.v, VReg(amt.e.next, ty), amt.e.Skip().Push(i));
    TidyWriteOperand(di.Op(0), o.v, o.e, lo);
  }

  /** Quotient and remainder take their ids together, and are defined in that order. */
  lemma TidyTwo(e: Emitter, i: Inst, j: Inst, lo: nat)
    requires Tidy(e, lo) && Defines(i) == Some(e.next) && Defines(j) == Some(e.next + 1)
    ensures Tidy(e.Skip().Skip().Push(i).Push(j), lo)
  {
    hide Terminated, Defines;
    var e1 := e.Skip().Push(i);
    TidyTemp(e, i, lo);
    assert e.Skip().Skip().Push(i) == e1.Skip();
    TidyTemp(e1, j, lo);
  }

  lemma TidyDivide(di: DecodedInstr, l: Lifted, lo: nat)
    requires Tidy(l.e, lo)
    ensures Tidy(LiftDivide(di, l).e, lo)
  {
    hide Tidy, ReadReg, ReadOperand, WriteReg;
    TidyReadReg(RAX64, l.e, lo);
    var rax := ReadReg(RAX64, l.e);
    TidyRead(di.Op(0), I64, rax.e, lo);
    var src := ReadOperand(di.Op(0), I64, rax.e);
    var q := src.e.next;
    var i, j := Binop(DivOpcode(di.mnemonic), q, I64, rax.v, src.v), Binop(RemOpcode(di.mnemonic), q + 1, I64, rax.v, src.v);
    TidyTwo(src.e, i, j, lo);
    var e2 := src.e.Skip().Skip().Push(i).Push(j);
    TidyWriteReg(RAX64, VReg(q, I64), e2, lo);
    TidyWriteReg(RDX64, VReg(q + 1, I64), WriteReg(RAX64, VReg(q, I64), e2), lo);
  }

  lemma TidyCall(di: DecodedInstr, e: Emitter, lo: nat)
    requires Tidy(e, lo)
    ensures Tidy(LiftCall(di, e), lo)
  {
    hide Tidy, ReadOperand, WriteReg;
    if !(di.Op(0).ImmOp? && di.Op(0).relative) {
      TidyRead(di.Op(0), I64, e, lo);
      var a := ReadOperand(di.Op(0), I64, e);
      TidyTemp(a.e, Cast(INTTOPTR, a.e.next, Ptr, a.v), lo);
    }
    var c := Callee(di, e);
    TidyTemp(c.e, Call(c.e.next, I64, c.v), lo);
    TidyWriteReg(RAX64, VReg(c.e.next, I64), c.e.Skip().Push(Call(c.e.next, I64, c.v)), lo);
  }

  lemma TidyClose(instrs: seq<DecodedInstr>, names: map<U64, string>, e: Emitter, lo: nat)
    requires Tidy(e, lo)
    ensures Tidy(CloseBlock(instrs, names, e), lo)
  {
    hide Tidy;
    if instrs != [] {
      TidyWrite(e, Jmp(LabelOf(names, instrs[|instrs| - 1].End())), lo);
    }
  }

  lemma TidyJumps(di: DecodedInstr, names: map<U64, string>, f: Lazy, e: Emitter, lo: nat)
    requires Tidy(e, lo)
    ensures Tidy(LiftJcc(di, names, f, e), lo) && Tidy(LiftJmp(di, names, e), lo)
  {
    hide Tidy, EmitRequest;
    var ifTrue, ifFalse := LabelOf(names, di.DirectTarget()), LabelOf(names, di.End());
    TidyWrite(e, Jmp(ifFalse), lo);
    TidyWrite(e, Jmp(ifTrue), lo);
    TidyWrite(e, Nop, lo);
    match FlagRequestForJcc(di.mnemonic)
    case None =>
    case Some(req) =>
      TidyRequest(f, req, e, lo);
      var c := Materialise(f, req, e);
      TidyWrite(c.e, Cjmp(c.v, ifTrue, ifFalse), lo);
  }

  lemma TidyInstr(di: DecodedInstr, names: map<U64, string>, l: Lifted, lo: nat)
    requires Tidy(l.e, lo)
    ensures Tidy(LiftInstr(di, names, l).e, lo)
  {
    hide Tidy, LiftMov, LiftExtend, LiftAlu, LiftCompare, LiftImul, LiftWideImul, LiftUnary, LiftIncDec, LiftLea, LiftDivide, LiftShift,
      LiftCall, LiftJcc, LiftJmp;
    TidyWrite(l.e, Nop, lo);
    TidyCall(di, l.e, lo);
    TidyMoves(di, l.e, lo);
    TidyBinaries(di, l.e, lo);
    TidyUnaries(di, l.e, l.f, lo);
    TidyShift(di, l.e, lo);
    TidyDivide(di, l, lo);
    TidyJumps(di, names, l.f, l.e, lo);
  }

  lemma {:induction false} TidyAll(instrs: seq<DecodedInstr>, names: map<U64, string>, l: Lifted, lo: nat)
    requires Tidy(l.e, lo)
    ensures Tidy(LiftAll(instrs, names, l).e, lo)
  {
    hide Tidy, LiftInstr;
    if instrs != [] {
      TidyAll(instrs[..|instrs| - 1], names, l, lo);
      TidyInstr(instrs[|instrs| - 1], names, LiftAll(instrs[..|instrs| - 1], names, l), lo);
    }
  }

  // ----- whole functions -----

  /** The code of a function in emission order: block after block. */
  function AllCode(blocks: seq<seq<Inst>>): seq<Inst> {
    if blocks == [] then [] else AllCode(blocks[..|blocks| - 1]) + blocks[|blocks| - 1]
  }

  lemma OrderlyJoin(a: seq<Inst>, b: seq<Inst>, lo: nat, mid: nat, hi: nat)
    requires lo <= mid <= hi && Orderly(a, lo, mid) && Orderly(b, mid, hi)
    ensures Orderly(a + b, lo, hi)
  {
    hide Defines;
    var c := a + b;
    forall k | 0 <= k < |c| && DefinesOther(c[k]) ensures lo <= Defines(c[k]).value < hi {
      if k >= |a| { assert c[k] == b[k - |a|]; } else { assert c[k] == a[k]; }
    }
    forall j, k | 0 <= j < k < |c| && DefinesOther(c[j]) && DefinesOther(c[k]) ensures Defines(c[j]).value < Defines(c[k]).value {
      if k < |a| {
        assert c[j] == a[j] && c[k] == a[k];
      } else if j < |a| {
        assert c[j] == a[j] && c[k] == b[k - |a|];
      } else {
        assert c[j] == b[j - |a|] && c[k] == b[k - |a|];
      }
    }
  }

  /** Over a whole lifted function everything defined is a general-purpose register or a temporary from 20
      up to the counter, no reserved flag register is touched, and the temporaries are pairwise distinct,
      strictly increasing in emission order across all blocks. */
  lemma {:induction false} TemporariesAreDistinct(parts: seq<seq<DecodedInstr>>, names: map<U64, string>)
    ensures var c := LiftParts(parts, names);
            20 <= c.next && Orderly(AllCode(c.blocks), 20, c.next)
  {
    hide Orderly, LiftAll;
    if parts == [] {
      assert Orderly([], 20, 20) by { NothingIsOrderly(20); }
    } else {
      var init, part := parts[..|parts| - 1], parts[|parts| - 1];
      TemporariesAreDistinct(init, names);
      var c := LiftParts(init, names);
      var l0 := BlockStart(c.next, c.f);
      NothingIsOrderly(c.next);
      TidyAll(part, names, l0, c.next);
      TidyClose(part, names, LiftAll(part, names, l0).e, c.next);
      var l := LiftBlock(part, names, l0);
      OrderlyJoin(AllCode(c.blocks), l.e.insts, 20, c.next, l.e.next);
      assert (c.blocks + [l.e.insts])[..|c.blocks|] == c.blocks;
    }
  }

  lemma NothingIsOrderly(n: nat)
    ensures Orderly([], n, n)
  {
  }
}
