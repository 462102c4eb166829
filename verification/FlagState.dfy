/** The lazy flags: remember the operands of the last flag-setting instruction, and emit the
    code of a condition only when a conditional jump asks for it. */
module Flags {
  import opened Wrappers
  import opened Bits
  import opened IR

  datatype FlagOp = ADD | SUB | INC | DEC | AND | OR | XOR | SHL | SHR | SAR | IMUL

  datatype FlagRequest =
    | ZF | NOT_ZF | SF | NOT_SF | CF | NOT_CF | OF | NOT_OF
    | CF_OR_ZF | NOT_CF_AND_NOT_ZF
    | SF_XOR_OF | NOT_SF_XOR_OF
    | ZF_OR_SF_XOR_OF | NOT_ZF_AND_NOT_SF_XOR_OF

  /** A snapshot of the fields of a FlagState. */
  datatype Lazy = Lazy(valid: bool, op: FlagOp, result: Value, lhs: Value, rhs: Value, ty: IRType)

  const INITIAL := Lazy(false, FlagOp.ADD, Imm(0, Int(W64)), Imm(0, Int(W64)), Imm(0, Int(W64)), Int(W64))

  const FALSE := Imm(0, I1)

  // ----- what is emitted -----

  function EmitBinop(op: Opcode, a: Value, b: Value, e: Emitter): (o: Out)
    ensures Continues(e, o.e)
  {
    Out(e.Skip().Push(Binop(op, e.next, I1, a, b)), VReg(e.next, I1))
  }

  function EmitNot(v: Value, e: Emitter): (o: Out)
    ensures Continues(e, o.e)
  {
    EmitBinop(Opcode.XOR, v, Imm(1, I1), e)
  }

  function EmitIcmp(cond: IcmpCond, a: Value, b: Value, e: Emitter): (o: Out)
    ensures Continues(e, o.e)
  {
    Out(e.Skip().Push(Icmp(cond, e.next, a, b)), VReg(e.next, I1))
  }

  function EmitZF(f: Lazy, e: Emitter): (o: Out)
    ensures Continues(e, o.e)
  {
    EmitIcmp(EQ, f.result, Imm(0, f.ty), e)
  }

  function EmitSF(f: Lazy, e: Emitter): (o: Out)
    ensures Continues(e, o.e)
  {
    EmitIcmp(SLT, f.result, Imm(0, f.ty), e)
  }

  function EmitCF(f: Lazy, e: Emitter): (o: Out)
    ensures Continues(e, o.e)
  {
    match f.op
    case ADD => EmitIcmp(ULT, f.result, f.lhs, e)
    case SUB => EmitIcmp(UGT, f.result, f.lhs, e)
    case _ => Out(e, FALSE)
  }

  /** condA(a, 0) AND condB(b, 0) */
  function EmitSigns(condA: IcmpCond, a: Value, condB: IcmpCond, b: Value, ty: IRType, e: Emitter): (o: Out)
    ensures Continues(e, o.e)
  {
    var o1 := EmitIcmp(condA, a, Imm(0, ty), e);
    var o2 := EmitIcmp(condB, b, Imm(0, ty), o1.e);
    EmitBinop(Opcode.AND, o1.v, o2.v, o2.e)
  }

  function EmitOF(f: Lazy, e: Emitter): (o: Out)
    ensures Continues(e, o.e)
  {
    match f.op
    case ADD | SUB =>
      var pos := EmitSigns(SGE, f.lhs, SLT, f.result, f.ty, e);
      var neg := EmitSigns(SLT, f.lhs, SGE, f.result, f.ty, pos.e);
      EmitBinop(Opcode.OR, pos.v, neg.v, neg.e)
    case INC => EmitSigns(SGE, f.lhs, SLT, f.result, f.ty, e)
    case DEC => EmitSigns(SLT, f.lhs, SGE, f.result, f.ty, e)
    case _ => Out(e, FALSE)
  }

  function EmitSFxorOF(f: Lazy, e: Emitter): (o: Out)
    ensures Continues(e, o.e)
  {
    var sf := EmitSF(f, e);
    var ovf := EmitOF(f, sf.e);
    EmitBinop(Opcode.XOR, sf.v, ovf.v, ovf.e)
  }

  function EmitRequest(f: Lazy, req: FlagRequest, e: Emitter): (o: Out)
    ensures Continues(e, o.e)
  {
    match req
    case ZF => EmitZF(f, e)
    case NOT_ZF => var z := EmitZF(f, e); EmitNot(z.v, z.e)
    case SF => EmitSF(f, e)
    case NOT_SF => var s := EmitSF(f, e); EmitNot(s.v, s.e)
    case CF => EmitCF(f, e)
    case NOT_CF => var c := EmitCF(f, e); EmitNot(c.v, c.e)
    case OF => EmitOF(f, e)
    case NOT_OF => var v := EmitOF(f, e); EmitNot(v.v, v.e)
    case CF_OR_ZF =>
      var c := EmitCF(f, e);
      var z := EmitZF(f, c.e);
      EmitBinop(Opcode.OR, c.v, z.v, z.e)
    case NOT_CF_AND_NOT_ZF =>
      var c := EmitCF(f, e);
      var nc := EmitNot(c.v, c.e);
      var z := EmitZF(f, nc.e);
      var nz := EmitNot(z.v, z.e);
      EmitBinop(Opcode.AND, nc.v, nz.v, nz.e)
    case SF_XOR_OF => EmitSFxorOF(f, e)
    case NOT_SF_XOR_OF => var x := EmitSFxorOF(f, e); EmitNot(x.v, x.e)
    case ZF_OR_SF_XOR_OF =>
      var z := EmitZF(f, e);
      var x := EmitSFxorOF(f, z.e);
      EmitBinop(Opcode.OR, z.v, x.v, x.e)
    case NOT_ZF_AND_NOT_SF_XOR_OF =>
      var z := EmitZF(f, e);
      var nz := EmitNot(z.v, z.e);
      var x := EmitSFxorOF(f, nz.e);
      var nx := EmitNot(x.v, x.e);
      EmitBinop(Opcode.AND, nz.v, nx.v, nx.e)
  }

  /** Without a flag-setting instruction before it the jump is never taken. */
  function Materialise(f: Lazy, req: FlagRequest, e: Emitter): (o: Out)
    ensures Continues(e, o.e)
  {
    if f.valid then EmitRequest(f, req, e) else Out(e, FALSE)
  }

  // ----- what the emitted code computes -----

  predicate LazyZF(f: Lazy, s: State) { Val(f.result, s) == 0 }

  predicate LazySF(f: Lazy, s: State) { TypeSigned(Val(f.result, s), f.ty) < 0 }

  predicate LazyCF(f: Lazy, s: State) {
    match f.op
    case ADD => Val(f.result, s) < Val(f.lhs, s)
    case SUB => Val(f.result, s) > Val(f.lhs, s)
    case _ => false
  }

  predicate LazyOF(f: Lazy, s: State) {
    var l, r := TypeSigned(Val(f.lhs, s), f.ty), TypeSigned(Val(f.result, s), f.ty);
    match f.op
    case ADD | SUB => (l >= 0) != (r >= 0)
    case INC => l >= 0 && r < 0
    case DEC => l < 0 && r >= 0
    case _ => false
  }

  predicate Requested(req: FlagRequest, zf: bool, sf: bool, cf: bool, ovf: bool) {
    match req
    case ZF => zf
    case NOT_ZF => !zf
    case SF => sf
    case NOT_SF => !sf
    case CF => cf
    case NOT_CF => !cf
    case OF => ovf
    case NOT_OF => !ovf
    case CF_OR_ZF => cf || zf
    case NOT_CF_AND_NOT_ZF => !cf && !zf
    case SF_XOR_OF => sf != ovf
    case NOT_SF_XOR_OF => sf == ovf
    case ZF_OR_SF_XOR_OF => zf || sf != ovf
    case NOT_ZF_AND_NOT_SF_XOR_OF => !zf && sf == ovf
  }

  /** The captured values exist when n registers do, and carry the captured type. */
  predicate Captured(f: Lazy, n: nat) {
    && f.ty.Int? && f.result.ty == f.ty && f.lhs.ty == f.ty
    && Defined(f.result, n) && Defined(f.lhs, n)
  }

  /** The emitted condition is the truth value b. */
  ghost predicate Yields(e: Emitter, o: Out, s: State, b: bool) {
    Gives(e, o, s, I1, Flag(b))
  }

  lemma IcmpYields(e: Emitter, cond: IcmpCond, a: Value, b: Value, s: State)
    requires e.Open()
    ensures Yields(e, EmitIcmp(cond, a, b, e), s, IcmpHolds(cond, a.ty, Val(a, e.Run(s)), Val(b, e.Run(s))))
  {
    TempGives(e, Icmp(cond, e.next, a, b), I1, s);
  }

  lemma FlagBits(x: bool, y: bool)
    ensures BitAnd(Flag(x), Flag(y)) == Flag(x && y)
    ensures BitOr(Flag(x), Flag(y)) == Flag(x || y)
    ensures BitXor(Flag(x), Flag(y)) == Flag(x != y)
  {
  }

  lemma BinopYields(e: Emitter, op: Opcode, a: Value, b: Value, s: State, x: bool, y: bool)
    requires e.Open()
    requires op in {Opcode.AND, Opcode.OR, Opcode.XOR}
    requires Val(a, e.Run(s)) == Flag(x) && Val(b, e.Run(s)) == Flag(y)
    ensures Yields(e, EmitBinop(op, a, b, e), s,
                   if op.AND? then x && y else if op.OR? then x || y else x != y)
  {
    TempGives(e, Binop(op, e.next, I1, a, b), I1, s);
    FlagBits(x, y);
  }

  lemma NotYields(e: Emitter, o: Out, s: State, b: bool)
    requires Yields(e, o, s, b)
    ensures Yields(e, EmitNot(o.v, o.e), s, !b)
  {
    BinopYields(o.e, Opcode.XOR, o.v, Imm(1, I1), s, b, true);
    FreshTransitive(e, o.e, EmitNot(o.v, o.e).e);
  }

  /** Combining a condition emitted first with one emitted after it. */
  lemma CombineYields(e: Emitter, o1: Out, o2: Out, op: Opcode, s: State, x: bool, y: bool)
    requires Yields(e, o1, s, x) && Yields(o1.e, o2, s, y)
    requires op in {Opcode.AND, Opcode.OR, Opcode.XOR}
    ensures Yields(e, EmitBinop(op, o1.v, o2.v, o2.e), s,
                   if op.AND? then x && y else if op.OR? then x || y else x != y)
  {
    ValStable(o1.v, o1.e, o2.e, s);
    BinopYields(o2.e, op, o1.v, o2.v, s, x, y);
    FreshTransitive(e, o1.e, o2.e);
    FreshTransitive(e, o2.e, EmitBinop(op, o1.v, o2.v, o2.e).e);
  }

  lemma ConstantYields(e: Emitter, s: State)
    requires e.Open()
    ensures Yields(e, Out(e, FALSE), s, false)
  {
  }

  lemma ZFYields(f: Lazy, e: Emitter, s: State)
    requires e.Open() && Captured(f, e.next)
    ensures Yields(e, EmitZF(f, e), s, LazyZF(f, e.Run(s)))
  {
    IcmpYields(e, EQ, f.result, Imm(0, f.ty), s);
  }

  lemma SFYields(f: Lazy, e: Emitter, s: State)
    requires e.Open() && Captured(f, e.next)
    ensures Yields(e, EmitSF(f, e), s, LazySF(f, e.Run(s)))
  {
    IcmpYields(e, SLT, f.result, Imm(0, f.ty), s);
  }

  lemma CFYields(f: Lazy, e: Emitter, s: State)
    requires e.Open() && Captured(f, e.next)
    ensures Yields(e, EmitCF(f, e), s, LazyCF(f, e.Run(s)))
  {
    match f.op
    case ADD => IcmpYields(e, ULT, f.result, f.lhs, s);
    case SUB => IcmpYields(e, UGT, f.result, f.lhs, s);
    case _ => ConstantYields(e, s);
  }

  predicate SignIs(cond: IcmpCond, v: Value, s: State)
    requires v.ty.Int?
    ensures cond == SGE ==> SignIs(cond, v, s) == (TypeSigned(Val(v, s), v.ty) >= 0)
    ensures cond == SLT ==> SignIs(cond, v, s) == (TypeSigned(Val(v, s), v.ty) < 0)
  {
    IcmpHolds(cond, v.ty, Val(v, s), 0)
  }

  lemma SignsYield(condA: IcmpCond, a: Value, condB: IcmpCond, b: Value, e: Emitter, s: State)
    requires e.Open() && Defined(a, e.next) && Defined(b, e.next) && a.ty == b.ty && a.ty.Int?
    ensures Yields(e, EmitSigns(condA, a, condB, b, a.ty, e), s,
                   SignIs(condA, a, e.Run(s)) && SignIs(condB, b, e.Run(s)))
  {
    IcmpYields(e, condA, a, Imm(0, a.ty), s);
    var o1 := EmitIcmp(condA, a, Imm(0, a.ty), e);
    IcmpYields(o1.e, condB, b, Imm(0, a.ty), s);
    ValStable(b, e, o1.e, s);
    var o2 := EmitIcmp(condB, b, Imm(0, a.ty), o1.e);
    CombineYields(e, o1, o2, Opcode.AND, s,
                  IcmpHolds(condA, a.ty, Val(a, e.Run(s)), 0), IcmpHolds(condB, b.ty, Val(b, e.Run(s)), 0));
  }

  lemma SignChangeYields(f: Lazy, e: Emitter, s: State)
    requires e.Open() && Captured(f, e.next)
    requires f.op == FlagOp.ADD || f.op == FlagOp.SUB
    ensures Yields(e, EmitOF(f, e), s, LazyOF(f, e.Run(s)))
  {
    var l, r := TypeSigned(Val(f.lhs, e.Run(s)), f.ty), TypeSigned(Val(f.result, e.Run(s)), f.ty);
    SignsYield(SGE, f.lhs, SLT, f.result, e, s);
    var pos := EmitSigns(SGE, f.lhs, SLT, f.result, f.ty, e);
    SignsYield(SLT, f.lhs, SGE, f.result, pos.e, s);
    ValStable(f.lhs, e, pos.e, s);
    ValStable(f.result, e, pos.e, s);
    var neg := EmitSigns(SLT, f.lhs, SGE, f.result, f.ty, pos.e);
    CombineYields(e, pos, neg, Opcode.OR, s, l >= 0 && r < 0, l < 0 && r >= 0);
  }

  lemma OFYields(f: Lazy, e: Emitter, s: State)
    requires e.Open() && Captured(f, e.next)
    ensures Yields(e, EmitOF(f, e), s, LazyOF(f, e.Run(s)))
  {
    match f.op
    case ADD | SUB => SignChangeYields(f, e, s);
    case INC => SignsYield(SGE, f.lhs, SLT, f.result, e, s);
    case DEC => SignsYield(SLT, f.lhs, SGE, f.result, e, s);
    case _ => ConstantYields(e, s);
  }

  /** What was captured evaluates the same after more fresh code. */
  lemma CapturedStable(f: Lazy, e1: Emitter, e2: Emitter, s: State)
    requires Fresh(e1, e2) && Captured(f, e1.next)
    ensures Captured(f, e2.next)
    ensures LazyZF(f, e1.Run(s)) == LazyZF(f, e2.Run(s)) && LazySF(f, e1.Run(s)) == LazySF(f, e2.Run(s))
    ensures LazyCF(f, e1.Run(s)) == LazyCF(f, e2.Run(s)) && LazyOF(f, e1.Run(s)) == LazyOF(f, e2.Run(s))
  {
    ValStable(f.result, e1, e2, s);
    ValStable(f.lhs, e1, e2, s);
  }

  lemma SFxorOFYields(f: Lazy, e: Emitter, s: State)
    requires e.Open() && Captured(f, e.next)
    ensures Yields(e, EmitSFxorOF(f, e), s, LazySF(f, e.Run(s)) != LazyOF(f, e.Run(s)))
  {
    SFYields(f, e, s);
    var sf := EmitSF(f, e);
    CapturedStable(f, e, sf.e, s);
    OFYields(f, sf.e, s);
    CombineYields(e, sf, EmitOF(f, sf.e), Opcode.XOR, s, LazySF(f, e.Run(s)), LazyOF(f, e.Run(s)));
  }

  lemma CarryRequestYields(f: Lazy, req: FlagRequest, e: Emitter, s: State)
    requires e.Open() && Captured(f, e.next)
    requires req in {FlagRequest.CF, NOT_CF, CF_OR_ZF, NOT_CF_AND_NOT_ZF}
    ensures Yields(e, EmitRequest(f, req, e), s,
                   Requested(req, LazyZF(f, e.Run(s)), LazySF(f, e.Run(s)), LazyCF(f, e.Run(s)), LazyOF(f, e.Run(s))))
  {
    var zf, cf := LazyZF(f, e.Run(s)), LazyCF(f, e.Run(s));
    CFYields(f, e, s);
    var c := EmitCF(f, e);
    match req
    case CF =>
    case NOT_CF => NotYields(e, c, s, cf);
    case CF_OR_ZF =>
      CapturedStable(f, e, c.e, s);
      ZFYields(f, c.e, s);
      CombineYields(e, c, EmitZF(f, c.e), Opcode.OR, s, cf, zf);
    case NOT_CF_AND_NOT_ZF =>
      NotYields(e, c, s, cf);
      var nc := EmitNot(c.v, c.e);
      CapturedStable(f, e, nc.e, s);
      ZFYields(f, nc.e, s);
      var z := EmitZF(f, nc.e);
      NotYields(nc.e, z, s, zf);
      CombineYields(e, nc, EmitNot(z.v, z.e), Opcode.AND, s, !cf, !zf);
  }

  lemma SignedRequestYields(f: Lazy, req: FlagRequest, e: Emitter, s: State)
    requires e.Open() && Captured(f, e.next)
    requires req in {SF_XOR_OF, NOT_SF_XOR_OF, ZF_OR_SF_XOR_OF, NOT_ZF_AND_NOT_SF_XOR_OF}
    ensures Yields(e, EmitRequest(f, req, e), s,
                   Requested(req, LazyZF(f, e.Run(s)), LazySF(f, e.Run(s)), LazyCF(f, e.Run(s)), LazyOF(f, e.Run(s))))
  {
    var zf, less := LazyZF(f, e.Run(s)), LazySF(f, e.Run(s)) != LazyOF(f, e.Run(s));
    match req
    case SF_XOR_OF => SFxorOFYields(f, e, s);
    case NOT_SF_XOR_OF =>
      SFxorOFYields(f, e, s);
      NotYields(e, EmitSFxorOF(f, e), s, less);
    case ZF_OR_SF_XOR_OF =>
      ZFYields(f, e, s);
      var z := EmitZF(f, e);
      CapturedStable(f, e, z.e, s);
      SFxorOFYields(f, z.e, s);
      CombineYields(e, z, EmitSFxorOF(f, z.e), Opcode.OR, s, zf, less);
    case NOT_ZF_AND_NOT_SF_XOR_OF =>
      ZFYields(f, e, s);
      var z := EmitZF(f, e);
      NotYields(e, z, s, zf);
      var nz := EmitNot(z.v, z.e);
      CapturedStable(f, e, nz.e, s);
      SFxorOFYields(f, nz.e, s);
      var x := EmitSFxorOF(f, nz.e);
      NotYields(nz.e, x, s, less);
      CombineYields(e, nz, EmitNot(x.v, x.e), Opcode.AND, s, !zf, !less);
  }

  /** The condition code of every request: it only adds fresh temporaries, and evaluates to the
      boolean combination of the four lazy flags that the request names. */
  lemma MaterialiseMeans(f: Lazy, req: FlagRequest, e: Emitter, s: State)
    requires e.Open() && (f.valid ==> Captured(f, e.next))
    ensures Yields(e, Materialise(f, req, e), s, f.valid
      && Requested(req, LazyZF(f, e.Run(s)), LazySF(f, e.Run(s)), LazyCF(f, e.Run(s)), LazyOF(f, e.Run(s))))
  {
    if !f.valid {
      ConstantYields(e, s);
      return;
    }
    match req
    case ZF | NOT_ZF =>
      ZFYields(f, e, s);
      NotYields(e, EmitZF(f, e), s, LazyZF(f, e.Run(s)));
    case SF | NOT_SF =>
      SFYields(f, e, s);
      NotYields(e, EmitSF(f, e), s, LazySF(f, e.Run(s)));
    case OF | NOT_OF =>
      OFYields(f, e, s);
      NotYields(e, EmitOF(f, e), s, LazyOF(f, e.Run(s)));
    case CF | NOT_CF | CF_OR_ZF | NOT_CF_AND_NOT_ZF => CarryRequestYields(f, req, e, s);
    case _ => SignedRequestYields(f, req, e, s);
  }

  // ----- the class -----

  class FlagState {
    var valid: bool
    var op: FlagOp
    var result: Value
    var lhs: Value
    var rhs: Value
    var ty: IRType

    ghost function Snapshot(): Lazy
      reads this
    {
      Lazy(valid, op, result, lhs, rhs, ty)
    }

    constructor ()
      ensures Snapshot() == INITIAL
    {
      valid, op, result, lhs, rhs, ty :=
        false, FlagOp.ADD, Imm(0, Int(W64)), Imm(0, Int(W64)), Imm(0, Int(W64)), Int(W64);
    }

    method Set(op: FlagOp, result: Value, lhs: Value, rhs: Value, ty: IRType)
      modifies this
      ensures Snapshot() == Lazy(true, op, result, lhs, rhs, ty)
    {
      valid := true;
      this.op, this.result, this.lhs, this.rhs, this.ty := op, result, lhs, rhs, ty;
    }

    method Invalidate()
      modifies this
      ensures Snapshot() == old(Snapshot()).(valid := false)
    {
      valid := false;
    }

    static method PushBinop(op: Opcode, a: Value, b: Value, block: IRBasicBlock, fn: IRFunction) returns (r: Result<Value>)
      modifies block`instructions, fn`nextVregId
      ensures var o := EmitBinop(op, a, b, old(EmitterOf(block, fn))); Emitted(r, o.v, o.e, block, fn)
    {
      var id := fn.AllocVreg();
      :- block.PushInst(Binop(op, id, I1, a, b));
      return Success(VReg(id, I1));
    }

    static method PushNot(v: Value, block: IRBasicBlock, fn: IRFunction) returns (r: Result<Value>)
      modifies block`instructions, fn`nextVregId
      ensures var o := EmitNot(v, old(EmitterOf(block, fn))); Emitted(r, o.v, o.e, block, fn)
    {
      r := PushBinop(Opcode.XOR, v, Imm(1, I1), block, fn);
    }

    static method PushIcmp(cond: IcmpCond, a: Value, b: Value, block: IRBasicBlock, fn: IRFunction) returns (r: Result<Value>)
      modifies block`instructions, fn`nextVregId
      ensures var o := EmitIcmp(cond, a, b, old(EmitterOf(block, fn))); Emitted(r, o.v, o.e, block, fn)
    {
      var id := fn.AllocVreg();
      :- block.PushInst(Icmp(cond, id, a, b));
      return Success(VReg(id, I1));
    }

    method PushZF(block: IRBasicBlock, fn: IRFunction) returns (r: Result<Value>)
      modifies block`instructions, fn`nextVregId
      ensures var o := EmitZF(old(Snapshot()), old(EmitterOf(block, fn))); Emitted(r, o.v, o.e, block, fn)
    {
      r := PushIcmp(EQ, result, Imm(0, ty), block, fn);
    }

    method PushSF(block: IRBasicBlock, fn: IRFunction) returns (r: Result<Value>)
      modifies block`instructions, fn`nextVregId
      ensures var o := EmitSF(old(Snapshot()), old(EmitterOf(block, fn))); Emitted(r, o.v, o.e, block, fn)
    {
      r := PushIcmp(SLT, result, Imm(0, ty), block, fn);
    }

    /** The carry depends on which operation set the flags. */
    method PushCF(block: IRBasicBlock, fn: IRFunction) returns (r: Result<Value>)
      modifies block`instructions, fn`nextVregId
      ensures var o := EmitCF(old(Snapshot()), old(EmitterOf(block, fn))); Emitted(r, o.v, o.e, block, fn)
    {
      match op
      case ADD => r := PushIcmp(ULT, result, lhs, block, fn);
      case SUB => r := PushIcmp(UGT, result, lhs, block, fn);
      case _ => r := Success(FALSE);
    }

    static method PushSigns(condA: IcmpCond, a: Value, condB: IcmpCond, b: Value, ty: IRType,
                            block: IRBasicBlock, fn: IRFunction) returns (r: Result<Value>)
      modifies block`instructions, fn`nextVregId
      ensures var o := EmitSigns(condA, a, condB, b, ty, old(EmitterOf(block, fn))); Emitted(r, o.v, o.e, block, fn)
    {
      var x :- PushIcmp(condA, a, Imm(0, ty), block, fn);
      var y :- PushIcmp(condB, b, Imm(0, ty), block, fn);
      r := PushBinop(Opcode.AND, x, y, block, fn);
    }

    method PushOF(block: IRBasicBlock, fn: IRFunction) returns (r: Result<Value>)
      modifies block`instructions, fn`nextVregId
      ensures var o := EmitOF(old(Snapshot()), old(EmitterOf(block, fn))); Emitted(r, o.v, o.e, block, fn)
    {
      match op
      case ADD | SUB =>
        var pos :- PushSigns(SGE, lhs, SLT, result, ty, block, fn);
        var neg :- PushSigns(SLT, lhs, SGE, result, ty, block, fn);
        r := PushBinop(Opcode.OR, pos, neg, block, fn);
      case INC => r := PushSigns(SGE, lhs, SLT, result, ty, block, fn);
      case DEC => r := PushSigns(SLT, lhs, SGE, result, ty, block, fn);
      case _ => r := Success(FALSE);
    }

    method PushSFxorOF(block: IRBasicBlock, fn: IRFunction) returns (r: Result<Value>)
      modifies block`instructions, fn`nextVregId
      ensures var o := EmitSFxorOF(old(Snapshot()), old(EmitterOf(block, fn))); Emitted(r, o.v, o.e, block, fn)
    {
      var sf :- PushSF(block, fn);
      var ovf :- PushOF(block, fn);
      r := PushBinop(Opcode.XOR, sf, ovf, block, fn);
    }

    method PushNegated(req: FlagRequest, block: IRBasicBlock, fn: IRFunction) returns (r: Result<Value>)
      requires req in {FlagRequest.ZF, FlagRequest.SF, FlagRequest.CF, FlagRequest.OF}
      modifies block`instructions, fn`nextVregId
      ensures var o := EmitRequest(old(Snapshot()), req, old(EmitterOf(block, fn)));
              var n := EmitNot(o.v, o.e); Emitted(r, n.v, n.e, block, fn)
    {
      var v;
      match req {
        case ZF => v :- PushZF(block, fn);
        case SF => v :- PushSF(block, fn);
        case CF => v :- PushCF(block, fn);
        case OF => v :- PushOF(block, fn);
      }
      r := PushNot(v, block, fn);
    }

    /** CF set or ZF set. */
    method PushBelowOrEqual(block: IRBasicBlock, fn: IRFunction) returns (r: Result<Value>)
      modifies block`instructions, fn`nextVregId
      ensures var o := EmitRequest(old(Snapshot()), CF_OR_ZF, old(EmitterOf(block, fn))); Emitted(r, o.v, o.e, block, fn)
    {
      var c :- PushCF(block, fn);
      var z :- PushZF(block, fn);
      r := PushBinop(Opcode.OR, c, z, block, fn);
    }

    /** ZF set or SF different from OF. */
    method PushLessOrEqual(block: IRBasicBlock, fn: IRFunction) returns (r: Result<Value>)
      modifies block`instructions, fn`nextVregId
      ensures var o := EmitRequest(old(Snapshot()), ZF_OR_SF_XOR_OF, old(EmitterOf(block, fn))); Emitted(r, o.v, o.e, block, fn)
    {
      var z :- PushZF(block, fn);
      var x :- PushSFxorOF(block, fn);
      r := PushBinop(Opcode.OR, z, x, block, fn);
    }

    /** CF clear and ZF clear. */
    method PushAbove(block: IRBasicBlock, fn: IRFunction) returns (r: Result<Value>)
      modifies block`instructions, fn`nextVregId
      ensures var o := EmitRequest(old(Snapshot()), NOT_CF_AND_NOT_ZF, old(EmitterOf(block, fn))); Emitted(r, o.v, o.e, block, fn)
    {
      var nc :- PushNegated(FlagRequest.CF, block, fn);
      var nz :- PushNegated(FlagRequest.ZF, block, fn);
      r := PushBinop(Opcode.AND, nc, nz, block, fn);
    }

    /** ZF clear and SF equal to OF. */
    method PushGreater(block: IRBasicBlock, fn: IRFunction) returns (r: Result<Value>)
      modifies block`instructions, fn`nextVregId
      ensures var o := EmitRequest(old(Snapshot()), NOT_ZF_AND_NOT_SF_XOR_OF, old(EmitterOf(block, fn))); Emitted(r, o.v, o.e, block, fn)
    {
      var nz :- PushNegated(FlagRequest.ZF, block, fn);
      var x :- PushSFxorOF(block, fn);
      var nx :- PushNot(x, block, fn);
      r := PushBinop(Opcode.AND, nz, nx, block, fn);
    }

    method MaterialiseInto(req: FlagRequest, block: IRBasicBlock, fn: IRFunction) returns (r: Result<Value>)
      modifies block`instructions, fn`nextVregId
      ensures var o := Materialise(old(Snapshot()), req, old(EmitterOf(block, fn))); Emitted(r, o.v, o.e, block, fn)
    {
      if !valid {
        return Success(FALSE);
      }
      match req
      case ZF => r := PushZF(block, fn);
      case NOT_ZF => r := PushNegated(FlagRequest.ZF, block, fn);
      case SF => r := PushSF(block, fn);
      case NOT_SF => r := PushNegated(FlagRequest.SF, block, fn);
      case CF => r := PushCF(block, fn);
      case NOT_CF => r := PushNegated(FlagRequest.CF, block, fn);
      case OF => r := PushOF(block, fn);
      case NOT_OF => r := PushNegated(FlagRequest.OF, block, fn);
      case CF_OR_ZF => r := PushBelowOrEqual(block, fn);
      case NOT_CF_AND_NOT_ZF => r := PushAbove(block, fn);
      case SF_XOR_OF => r := PushSFxorOF(block, fn);
      case NOT_SF_XOR_OF =>
        var x :- PushSFxorOF(block, fn);
        r := PushNot(x, block, fn);
      case ZF_OR_SF_XOR_OF => r := PushLessOrEqual(block, fn);
      case NOT_ZF_AND_NOT_SF_XOR_OF => r := PushGreater(block, fn);
    }
  }
}
