/** The per-instruction lifter: what it emits, as functions on emitters. */
module Lifter {
  import opened Wrappers
  import opened Bits
  import opened IR
  import X86
  import opened Flags

  type DecodedInstr = X86.DecodedInstr

  // Register ids of the eagerly stored flags.
  const CF_VREG := 16
  const ZF_VREG := 17
  const SF_VREG := 18
  const OF_VREG := 19

  const I64 := Int(W64)

  // ----- register tables -----

  /** Every alias names its 64-bit register; the second bytes AH, BH, CH, DH are no exception. */
  function CanonicalReg(r: X86.Register): X86.Register {
    match r
    case Gp(g, _) => X86.Gp(g, W64)
    case High(g) => X86.Gp(g, W64)
    case _ => r
  }

  function TypeOfReg(r: X86.Register): IRType {
    match r
    case Gp(_, w) => Int(w)
    case High(_) => Int(W8)
    case _ => I64
  }

  function GprId(g: X86.Gpr): (id: nat)
    ensures id < 16
  {
    match g
    case RAX => 0 case RBX => 1 case RCX => 2 case RDX => 3
    case RSI => 4 case RDI => 5 case RSP => 6 case RBP => 7
    case R8 => 8 case R9 => 9 case R10 => 10 case R11 => 11
    case R12 => 12 case R13 => 13 case R14 => 14 case R15 => 15
  }

  /** None for registers that are not tracked. */
  function GprVRegId(canon: X86.Register): Option<nat> {
    match canon
    case Gp(g, W64) => Some(GprId(g))
    case _ => None
  }

  lemma GprIdInjective(g: X86.Gpr, h: X86.Gpr)
    ensures GprId(g) == GprId(h) ==> g == h
  {
  }

  // ----- operands -----

  function ReadReg(r: X86.Register, e: Emitter): (o: Out)
    ensures Continues(e, o.e)
  {
    match GprVRegId(CanonicalReg(r))
    case None => Out(e, Imm(0, I64))
    case Some(id) =>
      var full := VReg(id, I64);
      var ty := TypeOfReg(r);
      if ty == I64 then Out(e, full)
      else Out(e.Skip().Push(Cast(TRUNC, e.next, ty, full)), VReg(e.next, ty))
  }

  /** The mask is a signed immediate: all ones above the written bits. */
  function WriteReg(r: X86.Register, v: Value, e: Emitter): (e': Emitter)
    ensures Continues(e, e')
  {
    match GprVRegId(CanonicalReg(r))
    case None => e
    case Some(id) =>
      match TypeOfReg(r)
      case Int(W64) => e.Push(Mov(id, I64, v))
      case Int(W32) => e.Skip().Push(Cast(ZEXT, e.next, I64, v)).Push(Mov(id, I64, VReg(e.next, I64)))
      case Int(w) =>
        var e1 := e.Skip().Push(Binop(Opcode.AND, e.next, I64, VReg(id, I64), Imm(0 - Modulus(w), I64)));
        var e2 := e1.Skip().Push(Cast(ZEXT, e1.next, I64, v));
        e2.Push(Binop(Opcode.OR, id, I64, VReg(e.next, I64), VReg(e1.next, I64)))
      case _ => e
  }

  function EmitArith(op: Opcode, ty: IRType, a: Value, b: Value, e: Emitter): (o: Out)
    ensures Continues(e, o.e)
  {
    Out(e.Skip().Push(Binop(op, e.next, ty, a, b)), VReg(e.next, ty))
  }

  function AddrBase(m: X86.Operand, e: Emitter): (o: Out)
    requires m.MemOp?
    ensures Continues(e, o.e)
  {
    match m.base
    case NoRegister => Out(e, Imm(0, I64))
    case RIP => Out(e, Imm(m.disp, I64))
    case _ => ReadReg(m.base, e)
  }

  function ScaledIndex(m: X86.Operand, e: Emitter): (o: Out)
    requires m.MemOp?
    ensures Continues(e, o.e)
  {
    var idx := ReadReg(m.index, e);
    if m.scale > 1 then EmitArith(Opcode.MUL, I64, idx.v, Imm(m.scale, I64), idx.e) else idx
  }

  function AddrIndex(m: X86.Operand, base: Out): (o: Out)
    requires m.MemOp?
    ensures Continues(base.e, o.e)
  {
    if m.index.NoRegister? then base
    else
      var scaled := ScaledIndex(m, base.e);
      EmitArith(Opcode.ADD, I64, base.v, scaled.v, scaled.e)
  }

  function AddrDisp(m: X86.Operand, addr: Out): (o: Out)
    requires m.MemOp?
    ensures Continues(addr.e, o.e)
  {
    if m.hasDisp && m.disp != 0 then EmitArith(Opcode.ADD, I64, addr.v, Imm(m.disp, I64), addr.e) else addr
  }

  function ToPointer(a: Out): (o: Out)
    ensures Continues(a.e, o.e)
  {
    Out(a.e.Skip().Push(Cast(INTTOPTR, a.e.next, Ptr, a.v)), VReg(a.e.next, Ptr))
  }

  function ComputeAddr(m: X86.Operand, e: Emitter): (o: Out)
    requires m.MemOp?
    ensures Continues(e, o.e)
  {
    ToPointer(AddrDisp(m, AddrIndex(m, AddrBase(m, e))))
  }

  function ReadOperand(op: X86.Operand, hint: IRType, e: Emitter): (o: Out)
    ensures Continues(e, o.e)
  {
    match op
    case RegOp(r) => ReadReg(r, e)
    case ImmOp(v, _, _) => Out(e, Imm(v, hint))
    case MemOp(_, _, _, _, _, _) =>
      var p := ComputeAddr(op, e);
      Out(p.e.Skip().Push(Load(p.e.next, hint, p.v)), VReg(p.e.next, hint))
    case NoOperand => Out(e, Imm(0, I64))
  }

  function WriteOperand(op: X86.Operand, v: Value, e: Emitter): (e': Emitter)
    ensures Continues(e, e')
  {
    match op
    case RegOp(r) => WriteReg(r, v, e)
    case MemOp(_, _, _, _, _, _) => var p := ComputeAddr(op, e); p.e.Push(Store(v, p.v))
    case _ => e
  }

  function TypeFromSize(size: nat, other: IRType): IRType {
    if size == 8 then Int(W8) else if size == 16 then Int(W16) else if size == 32 then Int(W32) else other
  }

  /** The register field of an operand that is no register is empty. */
  function RegOf(op: X86.Operand): X86.Register {
    if op.RegOp? then op.r else X86.NoRegister
  }

  function SizeOf(op: X86.Operand): nat {
    match op
    case ImmOp(_, _, size) => size
    case MemOp(_, _, _, _, _, size) => size
    case _ => 0
  }

  /** Register operands carry their width, everything else its encoded size. */
  function DestWidth(op: X86.Operand): IRType {
    if op.RegOp? then TypeOfReg(op.r) else TypeFromSize(SizeOf(op), I64)
  }

  // ----- instructions -----

  /** Emission together with the lazy flags it leaves behind. */
  datatype Lifted = Lifted(e: Emitter, f: Lazy)

  function MovWidth(di: DecodedInstr): IRType {
    if di.Op(0).RegOp? then TypeOfReg(di.Op(0).r)
    else if di.Op(0).MemOp? && di.Op(1).RegOp? then TypeOfReg(di.Op(1).r)
    else TypeFromSize(SizeOf(di.Op(1)), I64)
  }

  function LiftMov(di: DecodedInstr, e: Emitter): (e': Emitter)
    ensures Continues(e, e')
  {
    var src := ReadOperand(di.Op(1), MovWidth(di), e);
    WriteOperand(di.Op(0), src.v, src.e)
  }

  function ExtendOpcode(m: X86.Mnemonic): Opcode { if m.MOVSX? then SEXT else ZEXT }

  function LiftExtend(di: DecodedInstr, e: Emitter): (e': Emitter)
    ensures Continues(e, e')
  {
    var srcTy := if di.Op(1).RegOp? then TypeOfReg(di.Op(1).r) else TypeFromSize(SizeOf(di.Op(1)), Int(W8));
    var dstTy := TypeOfReg(RegOf(di.Op(0)));
    var src := ReadOperand(di.Op(1), srcTy, e);
    WriteReg(RegOf(di.Op(0)), VReg(src.e.next, dstTy), src.e.Skip().Push(Cast(ExtendOpcode(di.mnemonic), src.e.next, dstTy, src.v)))
  }

  function AluOpcode(m: X86.Mnemonic): Opcode {
    match m
    case SUB | CMP => Opcode.SUB
    case AND | TEST => Opcode.AND
    case OR => Opcode.OR
    case XOR => Opcode.XOR
    case IMUL => Opcode.MUL
    case _ => Opcode.ADD
  }

  function AluFlagOp(m: X86.Mnemonic): FlagOp {
    match m
    case SUB | CMP => FlagOp.SUB
    case AND | TEST => FlagOp.AND
    case OR => FlagOp.OR
    case XOR => FlagOp.XOR
    case IMUL => FlagOp.IMUL
    case _ => FlagOp.ADD
  }

  /** Read two operands, combine them, and remember what set the flags. */
  function LiftBinary(m: X86.Mnemonic, src0: X86.Operand, src1: X86.Operand, ty: IRType, e: Emitter): (r: (Out, Lazy))
    ensures Continues(e, r.0.e)
  {
    var lhs := ReadOperand(src0, ty, e);
    var rhs := ReadOperand(src1, ty, lhs.e);
    var o := EmitArith(AluOpcode(m), ty, lhs.v, rhs.v, rhs.e);
    (o, Lazy(true, AluFlagOp(m), o.v, lhs.v, rhs.v, ty))
  }

  function LiftAlu(di: DecodedInstr, e: Emitter): (l: Lifted)
    ensures Continues(e, l.e)
  {
    var (o, f) := LiftBinary(di.mnemonic, di.Op(0), di.Op(1), DestWidth(di.Op(0)), e);
    Lifted(WriteOperand(di.Op(0), o.v, o.e), f)
  }

  /** CMP and TEST discard the result. */
  function LiftCompare(di: DecodedInstr, e: Emitter): (l: Lifted)
    ensures Continues(e, l.e)
  {
    var (o, f) := LiftBinary(di.mnemonic, di.Op(0), di.Op(1), DestWidth(di.Op(0)), e);
    Lifted(o.e, f)
  }

  function LiftImul(di: DecodedInstr, e: Emitter): (l: Lifted)
    ensures Continues(e, l.e)
  {
    var ty := TypeOfReg(RegOf(di.Op(0)));
    var (o, f) := if |di.ops| == 2 then LiftBinary(X86.IMUL, di.Op(0), di.Op(1), ty, e)
                  else LiftBinary(X86.IMUL, di.Op(1), di.Op(2), ty, e);
    Lifted(WriteReg(RegOf(di.Op(0)), o.v, o.e), f)
  }

  /** NEG counts as 0 - x for the flags; NOT leaves them alone. */
  function LiftUnary(di: DecodedInstr, e: Emitter, f: Lazy): (l: Lifted)
    ensures Continues(e, l.e)
  {
    var ty := TypeOfReg(RegOf(di.Op(0)));
    var op := if di.mnemonic.NEG? then Opcode.NEG else Opcode.NOT;
    var src := ReadOperand(di.Op(0), ty, e);
    var v := VReg(src.e.next, ty);
    Lifted(WriteOperand(di.Op(0), v, src.e.Skip().Push(Unop(op, src.e.next, ty, src.v))),
           if di.mnemonic.NEG? then Lazy(true, FlagOp.SUB, v, Imm(0, ty), src.v, ty) else f)
  }

  function LiftIncDec(di: DecodedInstr, e: Emitter): (l: Lifted)
    ensures Continues(e, l.e)
  {
    var ty := TypeOfReg(RegOf(di.Op(0)));
    var src := ReadOperand(di.Op(0), ty, e);
    var o := EmitArith(if di.mnemonic.DEC? then Opcode.SUB else Opcode.ADD, ty, src.v, Imm(1, ty), src.e);
    Lifted(WriteOperand(di.Op(0), o.v, o.e),
           Lazy(true, if di.mnemonic.DEC? then FlagOp.DEC else FlagOp.INC, o.v, src.v, Imm(1, ty), ty))
  }

  // ----- instructions lifted as approximations -----

  const RAX64 := X86.Gp(X86.RAX, W64)
  const RDX64 := X86.Gp(X86.RDX, W64)

  /** The address goes through a 16-bit integer. */
  function LiftLea(di: DecodedInstr, e: Emitter): (e': Emitter)
    ensures Continues(e, e')
  {
    if !di.Op(1).MemOp? then e
    else
      var p := ComputeAddr(di.Op(1), e);
      WriteReg(RegOf(di.Op(0)), VReg(p.e.next, I64), p.e.Skip().Push(Cast(PTRTOINT, p.e.next, Int(W16), p.v)))
  }

  /** One-operand IMUL: the low half into RAX, zero into RDX. */
  function LiftWideImul(di: DecodedInstr, e: Emitter): (l: Lifted)
    ensures Continues(e, l.e)
  {
    var (o, f) := LiftBinary(X86.IMUL, X86.RegOp(RAX64), di.Op(0), I64, e);
    Lifted(WriteReg(RDX64, Imm(0, I64), WriteReg(RAX64, o.v, o.e)), f)
  }

  function DivOpcode(m: X86.Mnemonic): Opcode { if m.IDIV? then SDIV else UDIV }

  function RemOpcode(m: X86.Mnemonic): Opcode { if m.IDIV? then SREM else UREM }

  /** RAX alone is divided; RDX is not looked at. */
  function LiftDivide(di: DecodedInstr, l: Lifted): (l': Lifted)
    ensures Continues(l.e, l'.e)
  {
    var rax := ReadReg(RAX64, l.e);
    var src := ReadOperand(di.Op(0), I64, rax.e);
    var q := src.e.next;
    var e1 := src.e.Skip().Skip().Push(Binop(DivOpcode(di.mnemonic), q, I64, rax.v, src.v));
    var e2 := e1.Push(Binop(RemOpcode(di.mnemonic), q + 1, I64, rax.v, src.v));
    Lifted(WriteReg(RDX64, VReg(q + 1, I64), WriteReg(RAX64, VReg(q, I64), e2)), l.f.(valid := false))
  }

  function ShiftOpcode(m: X86.Mnemonic): Opcode {
    match m
    case SHL => Opcode.SHL
    case SHR => LSHR
    case _ => ASHR
  }

  function ShiftFlagOp(m: X86.Mnemonic): FlagOp {
    match m
    case SHL => FlagOp.SHL
    case SHR => FlagOp.SHR
    case _ => FlagOp.SAR
  }

  /** The count is not masked. */
  function LiftShift(di: DecodedInstr, e: Emitter): (l: Lifted)
    ensures Continues(e, l.e)
  {
    var ty := TypeOfReg(RegOf(di.Op(0)));
    var src := ReadOperand(di.Op(0), ty, e);
    var amt := ReadOperand(di.Op(1), Int(W8), src.e);
    var count := VReg(amt.e.next, ty);
    var o := EmitArith(ShiftOpcode(di.mnemonic), ty, src.v, count, amt.e.Skip().Push(Cast(ZEXT, amt.e.next, ty, amt.v)));
    Lifted(WriteOperand(di.Op(0), o.v, o.e), Lazy(true, ShiftFlagOp(di.mnemonic), o.v, src.v, count, ty))
  }

  /** A call of the direct target, or of the address the operand holds; the result goes into RAX. */
  function LiftCall(di: DecodedInstr, e: Emitter): (e': Emitter)
    ensures Continues(e, e')
  {
    var callee := Callee(di, e);
    var e1 := callee.e.Skip().Push(Call(callee.e.next, I64, callee.v));
    WriteReg(RAX64, VReg(callee.e.next, I64), e1)
  }

  function Callee(di: DecodedInstr, e: Emitter): (o: Out)
    ensures Continues(e, o.e)
  {
    if di.Op(0).ImmOp? && di.Op(0).relative then Out(e, Imm((di.End() + di.Op(0).value) % TWO64, Ptr))
    else ToPointer(ReadOperand(di.Op(0), I64, e))
  }

  // ----- jumps -----

  function FlagRequestForJcc(m: X86.Mnemonic): Option<FlagRequest> {
    match m
    case JZ => Some(FlagRequest.ZF)
    case JNZ => Some(NOT_ZF)
    case JS => Some(FlagRequest.SF)
    case JNS => Some(NOT_SF)
    case JO => Some(FlagRequest.OF)
    case JNO => Some(NOT_OF)
    case JB => Some(FlagRequest.CF)
    case JNB => Some(NOT_CF)
    case JBE => Some(CF_OR_ZF)
    case JNBE => Some(NOT_CF_AND_NOT_ZF)
    case JL => Some(SF_XOR_OF)
    case JNL => Some(NOT_SF_XOR_OF)
    case JLE => Some(ZF_OR_SF_XOR_OF)
    case JNLE => Some(NOT_ZF_AND_NOT_SF_XOR_OF)
    case _ => None
  }

  /** The comparison that a jump makes right after CMP, where there is one. */
  function JccCond(m: X86.Mnemonic): Option<IcmpCond> {
    match m
    case JZ => Some(EQ)
    case JNZ => Some(NE)
    case JL => Some(SLT)
    case JLE => Some(SLE)
    case JNL => Some(SGE)
    case JNLE => Some(SGT)
    case JB => Some(ULT)
    case JBE => Some(ULE)
    case JNB => Some(UGE)
    case JNBE => Some(UGT)
    case JS => Some(SLT)
    case JNS => Some(SGE)
    case _ => None
  }

  const UNKNOWN := "unknown"

  function LabelOf(names: map<U64, string>, va: U64): string {
    if va in names then names[va] else UNKNOWN
  }

  /** A block to which at most its terminator has been added at the end. */
  predicate Ended(e: Emitter) {
    !e.thrown && WellTerminated(e.insts)
  }

  function LiftJcc(di: DecodedInstr, names: map<U64, string>, f: Lazy, e: Emitter): (e': Emitter)
    ensures e.thrown ==> e'.thrown && e'.insts == e.insts
    ensures e.Open() ==> Ended(e')
    ensures e.next <= e'.next
  {
    var ifTrue, ifFalse := LabelOf(names, di.DirectTarget()), LabelOf(names, di.End());
    match FlagRequestForJcc(di.mnemonic)
    case None => e.Push(Jmp(ifFalse))
    case Some(req) => var c := Materialise(f, req, e); c.e.Push(Cjmp(c.v, ifTrue, ifFalse))
  }

  function LiftJmp(di: DecodedInstr, names: map<U64, string>, e: Emitter): (e': Emitter)
    ensures e.thrown ==> e'.thrown && e'.insts == e.insts
    ensures e.Open() ==> Ended(e')
    ensures e.next <= e'.next
  {
    if di.DirectTarget() in names then e.Push(Jmp(names[di.DirectTarget()])) else e.Push(Nop)
  }

  /** One instruction. Mnemonics without a case emit nothing and leave the flags alone. */
  function LiftInstr(di: DecodedInstr, names: map<U64, string>, l: Lifted): (l': Lifted)
    ensures l.e.thrown ==> l'.e.thrown && l'.e.insts == l.e.insts
    ensures l.e.Open() ==> if X86.IsControlFlow(di.mnemonic) then Ended(l'.e) else l'.e.Open()
    ensures l.e.next <= l'.e.next
  {
    match di.mnemonic
    case NOP => l.(e := l.e.Push(Nop))
    case MOV => l.(e := LiftMov(di, l.e))
    case MOVZX | MOVSX => l.(e := LiftExtend(di, l.e))
    case ADD | SUB | AND | OR | XOR => LiftAlu(di, l.e)
    case CMP | TEST => LiftCompare(di, l.e)
    case IMUL => if |di.ops| == 1 then LiftWideImul(di, l.e) else LiftImul(di, l.e)
    case NOT | NEG => LiftUnary(di, l.e, l.f)
    case INC | DEC => LiftIncDec(di, l.e)
    case JZ | JNZ | JS | JNS | JO | JNO | JB | JNB | JBE | JNBE | JL | JNL | JLE | JNLE =>
      l.(e := LiftJcc(di, names, l.f, l.e))
    case JMP => l.(e := LiftJmp(di, names, l.e))
    case LEA => l.(e := LiftLea(di, l.e))
    case DIV | IDIV => LiftDivide(di, l)
    case SHL | SHR | SAR => LiftShift(di, l.e)
    case CALL => Lifted(LiftCall(di, l.e), l.f.(valid := false))
    case RET | RETF | JP | JNP | LOOP | LOOPE | LOOPNE | UNHANDLED => l
  }

  function LiftAll(instrs: seq<DecodedInstr>, names: map<U64, string>, l: Lifted): (l': Lifted)
    ensures l.e.thrown ==> l'.e.thrown && l'.e.insts == l.e.insts
    ensures l.e.next <= l'.e.next
  {
    if instrs == [] then l
    else LiftInstr(instrs[|instrs| - 1], names, LiftAll(instrs[..|instrs| - 1], names, l))
  }

  /** Once an exception has been thrown, the rest of the instructions changes nothing. */
  lemma {:induction false} LiftAllThrown(instrs: seq<DecodedInstr>, k: nat, names: map<U64, string>, l: Lifted)
    requires k <= |instrs| && LiftAll(instrs[..k], names, l).e.thrown
    ensures LiftAll(instrs, names, l).e.thrown
    ensures LiftAll(instrs, names, l).e.insts == LiftAll(instrs[..k], names, l).e.insts
  {
    if k == |instrs| {
      assert instrs[..k] == instrs;
    } else {
      var init := instrs[..|instrs| - 1];
      assert init[..k] == instrs[..k];
      LiftAllThrown(init, k, names, l);
    }
  }

  /** Where lifting a block ends without a terminator, a JMP to the next address is synthesised. */
  function CloseBlock(instrs: seq<DecodedInstr>, names: map<U64, string>, e: Emitter): (e': Emitter)
    ensures e.thrown ==> e'.thrown && e'.insts == e.insts
    ensures e'.next == e.next
  {
    if e.thrown || instrs == [] || Terminated(e.insts) then e
    else e.Push(Jmp(LabelOf(names, instrs[|instrs| - 1].End())))
  }

  function LiftBlock(instrs: seq<DecodedInstr>, names: map<U64, string>, l: Lifted): (l': Lifted)
    ensures l.e.thrown ==> l'.e.thrown && l'.e.insts == l.e.insts
    ensures l.e.next <= l'.e.next
  {
    var l2 := LiftAll(instrs, names, l);
    l2.(e := CloseBlock(instrs, names, l2.e))
  }

  // ----- whole functions -----

  /** The code of every block, with the counter and the lazy flags running on from block to block. */
  datatype Code = Code(blocks: seq<seq<Inst>>, next: nat, f: Lazy, thrown: bool)

  function LiftParts(parts: seq<seq<DecodedInstr>>, names: map<U64, string>): (c: Code)
    ensures |c.blocks| == |parts|
  {
    if parts == [] then Code([], 20, INITIAL, false)
    else
      var c := LiftParts(parts[..|parts| - 1], names);
      var l := LiftBlock(parts[|parts| - 1], names, BlockStart(c.next, c.f));
      Code(c.blocks + [l.e.insts], l.e.next, l.f, c.thrown || l.e.thrown)
  }

  /** Where the emission of a block begins. */
  function BlockStart(next: nat, f: Lazy): Lifted {
    Lifted(Emitter([], next, false), f)
  }

  /** Block j is lifted from the counter and flags that the blocks before it leave. */
  lemma {:induction false} LiftPartAt(parts: seq<seq<DecodedInstr>>, names: map<U64, string>, j: nat)
    requires j < |parts|
    ensures var c := LiftParts(parts[..j], names);
            LiftParts(parts, names).blocks[j] == LiftBlock(parts[j], names, BlockStart(c.next, c.f)).e.insts
    ensures LiftParts(parts[..j], names).next <= LiftParts(parts, names).next
    decreases |parts|
  {
    var init := parts[..|parts| - 1];
    if j < |init| {
      LiftPartAt(init, names, j);
      assert init[..j] == parts[..j];
    } else {
      assert init == parts[..j];
    }
  }

  lemma LiftPartsNext(parts: seq<seq<DecodedInstr>>, k: nat, names: map<U64, string>)
    requires k < |parts|
    ensures var c := LiftParts(parts[..k], names);
            var l := LiftBlock(parts[k], names, BlockStart(c.next, c.f));
            LiftParts(parts[..k + 1], names) == Code(c.blocks + [l.e.insts], l.e.next, l.f, c.thrown || l.e.thrown)
  {
    assert parts[..k + 1][..k] == parts[..k];
  }

  lemma {:induction false} LiftPartsThrown(parts: seq<seq<DecodedInstr>>, k: nat, names: map<U64, string>)
    requires k <= |parts| && LiftParts(parts[..k], names).thrown
    ensures LiftParts(parts, names).thrown
  {
    if k == |parts| {
      assert parts[..k] == parts;
    } else {
      assert parts[..|parts| - 1][..k] == parts[..k];
      LiftPartsThrown(parts[..|parts| - 1], k, names);
    }
  }

  lemma CounterStartsAt20(parts: seq<seq<DecodedInstr>>, names: map<U64, string>)
    ensures LiftParts(parts, names).next >= 20
  {
    if parts != [] {
      LiftPartAt(parts, names, 0);
      assert parts[..0] == [];
    }
  }

  /** Code whose only control transfer is the last instruction never pushes past a terminator. */
  lemma {:induction false} LiftAllNeverThrows(instrs: seq<DecodedInstr>, names: map<U64, string>, l: Lifted)
    requires l.e.Open()
    requires forall k :: 0 <= k < |instrs| - 1 ==> !X86.IsControlFlow(instrs[k].mnemonic)
    ensures var l2 := LiftAll(instrs, names, l);
            if instrs != [] && X86.IsControlFlow(instrs[|instrs| - 1].mnemonic) then Ended(l2.e) else l2.e.Open()
  {
    if instrs != [] {
      LiftAllNeverThrows(instrs[..|instrs| - 1], names, l);
    }
  }

  /** Lifting a block whose only control transfer is its last instruction leaves exactly one
      terminator, at the end. */
  lemma LiftBlockNeverThrows(instrs: seq<DecodedInstr>, names: map<U64, string>, l: Lifted)
    requires l.e.Open() && instrs != []
    requires forall k :: 0 <= k < |instrs| - 1 ==> !X86.IsControlFlow(instrs[k].mnemonic)
    ensures var e := LiftBlock(instrs, names, l).e; !e.thrown && Terminated(e.insts) && WellTerminated(e.insts)
  {
    LiftAllNeverThrows(instrs, names, l);
    CloseTerminates(instrs, names, LiftAll(instrs, names, l).e);
  }

  lemma CloseTerminates(instrs: seq<DecodedInstr>, names: map<U64, string>, e: Emitter)
    requires instrs != [] && Ended(e)
    ensures var e2 := CloseBlock(instrs, names, e); !e2.thrown && Terminated(e2.insts) && WellTerminated(e2.insts)
  {
    if !Terminated(e.insts) {
      var e2 := CloseBlock(instrs, names, e);
      forall k | 0 <= k < |e2.insts| - 1 ensures !IsTerminator(e2.insts[k]) {
        if k == |e.insts| - 1 { assert e2.insts[k] == e.insts[k]; }
      }
    }
  }

  // ----- the eager flags -----

  /** Emit a comparison and store its outcome in a flag register. */
  function StoreIcmp(cond: IcmpCond, flag: nat, a: Value, b: Value, e: Emitter): Emitter {
    var c := EmitIcmp(cond, a, b, e);
    c.e.Push(Mov(flag, I1, c.v))
  }

  /** Four temporaries: lhs >= 0, lhs < 0, result < lhs, result > lhs. */
  function EmitSignTemps(result: Value, lhs: Value, ty: IRType, e: Emitter): Emitter {
    var e1 := EmitIcmp(SGE, lhs, Imm(0, ty), e).e;
    var e2 := EmitIcmp(SLT, lhs, Imm(0, ty), e1).e;
    var e3 := EmitIcmp(SLT, result, lhs, e2).e;
    EmitIcmp(SGT, result, lhs, e3).e
  }

  /** OF = (lhs >= 0 and result < lhs) or (lhs < 0 and result > lhs), from the temporaries n .. n + 3. */
  function StoreOverflow(n: nat, e: Emitter): Emitter {
    var posOv := EmitBinop(Opcode.AND, VReg(n, I1), VReg(n + 2, I1), e);
    var negOv := EmitBinop(Opcode.AND, VReg(n + 1, I1), VReg(n + 3, I1), posOv.e);
    var ovf := EmitBinop(Opcode.OR, posOv.v, negOv.v, negOv.e);
    ovf.e.Push(Mov(OF_VREG, I1, ovf.v))
  }

  function EmitOverflow(result: Value, lhs: Value, ty: IRType, e: Emitter): Emitter {
    StoreOverflow(e.next, EmitSignTemps(result, lhs, ty, e))
  }

  function EmitFlagsForArith(result: Value, lhs: Value, ty: IRType, isSub: bool, e: Emitter): Emitter {
    var e1 := StoreIcmp(EQ, ZF_VREG, result, Imm(0, ty), e);
    var e2 := StoreIcmp(SLT, SF_VREG, result, Imm(0, ty), e1);
    var e3 := StoreIcmp(if isSub then UGT else ULT, CF_VREG, result, lhs, e2);
    EmitOverflow(result, lhs, ty, e3)
  }
}
