/** Lifting preserves meaning: running the emitted code from a related state ends in a state
    related to what the instructions do, and the lazy flags agree with the real ones wherever
    a static account of what was captured says so. */
module Simulation {
  import opened Bits
  import opened IR
  import opened Lifter
  import X86

  // ----- the relation -----

  /** Register ids 0..15 hold the machine's registers, and memory is the machine's memory. */
  ghost predicate Related(s: State, x: X86.Machine) {
    && (forall g :: s.Get(GprId(g)) == x.Reg(g))
    && s.mem == x.mem
  }

  /** The same register by register. */
  lemma RelatedByNumber(s: State, x: X86.Machine)
    ensures Related(s, x) <==>
            && s.mem == x.mem
            && s.Get(0) == x.Reg(X86.RAX) && s.Get(1) == x.Reg(X86.RBX) && s.Get(2) == x.Reg(X86.RCX) && s.Get(3) == x.Reg(X86.RDX)
            && s.Get(4) == x.Reg(X86.RSI) && s.Get(5) == x.Reg(X86.RDI) && s.Get(6) == x.Reg(X86.RSP) && s.Get(7) == x.Reg(X86.RBP)
            && s.Get(8) == x.Reg(X86.R8) && s.Get(9) == x.Reg(X86.R9) && s.Get(10) == x.Reg(X86.R10) && s.Get(11) == x.Reg(X86.R11)
            && s.Get(12) == x.Reg(X86.R12) && s.Get(13) == x.Reg(X86.R13) && s.Get(14) == x.Reg(X86.R14) && s.Get(15) == x.Reg(X86.R15)
  {
    hide State.Get, X86.Machine.Reg;
    assert GprId(X86.RAX) == 0 && GprId(X86.RBX) == 1 && GprId(X86.RCX) == 2 && GprId(X86.RDX) == 3;
    assert GprId(X86.RSI) == 4 && GprId(X86.RDI) == 5 && GprId(X86.RSP) == 6 && GprId(X86.RBP) == 7;
    assert GprId(X86.R8) == 8 && GprId(X86.R9) == 9 && GprId(X86.R10) == 10 && GprId(X86.R11) == 11;
    assert GprId(X86.R12) == 12 && GprId(X86.R13) == 13 && GprId(X86.R14) == 14 && GprId(X86.R15) == 15;
  }

  /** Nothing but general-purpose registers and new temporaries changes. */
  ghost predicate TempsKept(s1: State, s2: State, n: nat) {
    forall id: nat :: 16 <= id < n ==> s1.Get(id) == s2.Get(id)
  }

  /** Emission from e to e2 leads from the machine at e to machine y. */
  ghost predicate Simulates(e: Emitter, e2: Emitter, s: State, y: X86.Machine) {
    && e2.Open()
    && e.next <= e2.next
    && Related(e2.Run(s), y)
    && TempsKept(e.Run(s), e2.Run(s), e.next)
  }

  /** Code emission at e may start: the block is open and e stands at machine x. */
  ghost predicate At(e: Emitter, s: State, x: X86.Machine) {
    e.Open() && e.next >= 20 && Related(e.Run(s), x)
  }

  lemma FreshAt(e: Emitter, e2: Emitter, s: State, x: X86.Machine)
    requires At(e, s, x) && Fresh(e, e2) && e2.Open()
    ensures At(e2, s, x) && Simulates(e, e2, s, x)
  {
    FreshPreserves(e, e2, s);
  }

  lemma GivesAt(e: Emitter, o: Out, s: State, ty: IRType, n: nat, x: X86.Machine)
    requires At(e, s, x) && Gives(e, o, s, ty, n)
    ensures At(o.e, s, x) && Simulates(e, o.e, s, x)
  {
    FreshAt(e, o.e, s, x);
  }

  lemma GivesThen(e: Emitter, o1: Out, o2: Out, s: State, ty1: IRType, n1: nat, ty2: IRType, n2: nat)
    requires Gives(e, o1, s, ty1, n1) && Gives(o1.e, o2, s, ty2, n2)
    ensures Gives(e, o2, s, ty2, n2) && Val(o1.v, o2.e.Run(s)) == n1 && Defined(o1.v, o2.e.next)
  {
    FreshTransitive(e, o1.e, o2.e);
    ValStable(o1.v, o1.e, o2.e, s);
  }

  // ----- reading -----

  lemma ReadRegMeans(r: X86.Register, e: Emitter, s: State, x: X86.Machine)
    requires At(e, s, x) && r.Gp?
    ensures Gives(e, ReadReg(r, e), s, Int(r.w), X86.ReadReg(x, r))
  {
    hide Exec;
    if r.w != W64 {
      TempGives(e, Cast(TRUNC, e.next, Int(r.w), VReg(GprId(r.g), I64)), Int(r.w), s);
    }
  }

  /** Vector, segment and control registers count as 64 bits wide, read as zero and ignore writes. */
  lemma UntrackedRegister(r: X86.Register, v: Value, e: Emitter)
    requires !r.Gp? && !r.High?
    ensures TypeOfReg(r) == Int(W64) && ReadReg(r, e) == Out(e, Imm(0, Int(W64))) && WriteReg(r, v, e) == e
  {
  }

  lemma ArithMeans(op: Opcode, ty: IRType, a: Value, b: Value, e: Emitter, s: State)
    requires e.Open()
    ensures Gives(e, EmitArith(op, ty, a, b, e), s, ty, Arith(op, ty, Val(a, e.Run(s)), Val(b, e.Run(s))))
  {
    TempGives(e, Binop(op, e.next, ty, a, b), ty, s);
  }

  lemma ScaleIs(i: U64, scale: nat)
    requires scale in {1, 2, 4, 8}
    ensures Arith(Opcode.MUL, I64, i, Truncate(scale, I64)) == Wrap(i * scale, W64) && Wrap(i * 1, W64) == i
  {
  }

  lemma ScaledIndexMeans(m: X86.Operand, e: Emitter, s: State, x: X86.Machine)
    requires At(e, s, x) && X86.RegisterAddress(m) && m.index.Gp?
    ensures Gives(e, ScaledIndex(m, e), s, ScaledIndex(m, e).v.ty, Wrap(X86.ReadReg(x, m.index) * m.scale, W64))
  {
    hide Exec, Fresh, Related, ReadReg, WellTerminated, Arith, Wrap, Truncate;
    var i := X86.ReadReg(x, m.index);
    var idx := ReadReg(m.index, e);
    ReadRegMeans(m.index, e, s, x);
    ScaleIs(i, m.scale);
    if m.scale > 1 {
      ArithMeans(Opcode.MUL, I64, idx.v, Imm(m.scale, I64), idx.e, s);
      GivesThen(e, idx, ScaledIndex(m, e), s, idx.v.ty, i, I64, Wrap(i * m.scale, W64));
    }
  }

  lemma AddrBaseMeans(m: X86.Operand, e: Emitter, s: State, x: X86.Machine)
    requires At(e, s, x) && X86.RegisterAddress(m)
    ensures Gives(e, AddrBase(m, e), s, AddrBase(m, e).v.ty, X86.ReadReg(x, m.base))
  {
    if m.base.Gp? { ReadRegMeans(m.base, e, s, x); }
  }

  lemma ModAdd(a: int, b: int)
    ensures Wrap(a + Wrap(b, W64), W64) == Wrap(a + b, W64) == Wrap(Wrap(a, W64) + b, W64)
    ensures Fits(a, W64) ==> Wrap(a, W64) == a
  {
  }

  lemma AddrIndexMeans(m: X86.Operand, base: Out, e: Emitter, s: State, x: X86.Machine)
    requires At(e, s, x) && X86.RegisterAddress(m)
    requires Gives(e, base, s, base.v.ty, X86.ReadReg(x, m.base))
    ensures Gives(e, AddrIndex(m, base), s, AddrIndex(m, base).v.ty,
                  Wrap(X86.ReadReg(x, m.base) + X86.ReadReg(x, m.index) * m.scale, W64))
  {
    hide Fresh, Exec, ScaledIndex, Wrap;
    ModAdd(X86.ReadReg(x, m.base), 0);
    if m.index.Gp? {
      var b, k := X86.ReadReg(x, m.base), Wrap(X86.ReadReg(x, m.index) * m.scale, W64);
      ModAdd(b, X86.ReadReg(x, m.index) * m.scale);
      GivesAt(e, base, s, base.v.ty, b, x);
      ScaledIndexMeans(m, base.e, s, x);
      var scaled := ScaledIndex(m, base.e);
      GivesThen(e, base, scaled, s, base.v.ty, b, scaled.v.ty, k);
      ArithMeans(Opcode.ADD, I64, base.v, scaled.v, scaled.e, s);
      GivesThen(e, scaled, AddrIndex(m, base), s, scaled.v.ty, k, I64, Wrap(b + k, W64));
    }
  }

  lemma AddrDispMeans(m: X86.Operand, a: Out, n: nat, e: Emitter, s: State)
    requires m.MemOp? && Gives(e, a, s, a.v.ty, n) && Fits(n, W64)
    ensures Gives(e, AddrDisp(m, a), s, AddrDisp(m, a).v.ty, Wrap(n + (if m.hasDisp then m.disp else 0), W64))
  {
    hide Fresh, Exec, Wrap;
    ModAdd(n, 0);
    if m.hasDisp && m.disp != 0 {
      ModAdd(n, m.disp);
      ArithMeans(Opcode.ADD, I64, a.v, Imm(m.disp, I64), a.e, s);
      GivesThen(e, a, AddrDisp(m, a), s, a.v.ty, n, I64, Wrap(n + m.disp, W64));
    }
  }

  lemma ToPointerMeans(a: Out, n: nat, e: Emitter, s: State)
    requires Gives(e, a, s, a.v.ty, n)
    ensures Gives(e, ToPointer(a), s, Ptr, n)
  {
    TempGives(a.e, Cast(INTTOPTR, a.e.next, Ptr, a.v), Ptr, s);
    GivesThen(e, a, ToPointer(a), s, a.v.ty, n, Ptr, n);
  }

  lemma AddrSumMeans(m: X86.Operand, e: Emitter, s: State, x: X86.Machine)
    requires At(e, s, x) && X86.RegisterAddress(m)
    ensures var a := AddrDisp(m, AddrIndex(m, AddrBase(m, e)));
            Gives(e, a, s, a.v.ty, Wrap(X86.AddressSum(x, m), W64))
  {
    hide Gives, At, AddrBase, AddrIndex, AddrDisp, X86.ReadReg, Wrap;
    var sum := X86.ReadReg(x, m.base) + X86.ReadReg(x, m.index) * m.scale;
    AddrBaseMeans(m, e, s, x);
    AddrIndexMeans(m, AddrBase(m, e), e, s, x);
    AddrDispMeans(m, AddrIndex(m, AddrBase(m, e)), Wrap(sum, W64), e, s);
    ModAdd(sum, if m.hasDisp then m.disp else 0);
  }

  /** The emitted address is base + index * scale + displacement modulo 2^64, whatever the registers' width. */
  lemma ComputeAddrMeans(m: X86.Operand, e: Emitter, s: State, x: X86.Machine)
    requires At(e, s, x) && X86.RegisterAddress(m)
    ensures Gives(e, ComputeAddr(m, e), s, Ptr, Wrap(X86.AddressSum(x, m), W64))
    ensures X86.PlainAddress(m) ==> Wrap(X86.AddressSum(x, m), W64) == X86.Address(x, m)
  {
    hide Gives, At, AddrBase, AddrIndex, AddrDisp, ToPointer, X86.AddressSum, Wrap;
    AddrSumMeans(m, e, s, x);
    ToPointerMeans(AddrDisp(m, AddrIndex(m, AddrBase(m, e))), Wrap(X86.AddressSum(x, m), W64), e, s);
  }

  lemma ReadOperandMeans(op: X86.Operand, w: Width, e: Emitter, s: State, x: X86.Machine)
    requires At(e, s, x) && X86.SourceAt(op, w)
    ensures Gives(e, ReadOperand(op, Int(w), e), s, Int(w), X86.ReadOp(x, op, w))
  {
    hide Fresh, Exec, X86.Address;
    match op
    case RegOp(r) => ReadRegMeans(r, e, s, x);
    case ImmOp(v, _, _) => NothingGives(e, Imm(v, Int(w)), s);
    case MemOp(_, _, _, _, _, _) =>
      ComputeAddrMeans(op, e, s, x);
      var p := ComputeAddr(op, e);
      GivesAt(e, p, s, Ptr, X86.Address(x, op), x);
      TempGives(p.e, Load(p.e.next, Int(w), p.v), Int(w), s);
      GivesThen(e, p, ReadOperand(op, Int(w), e), s, Ptr, X86.Address(x, op), Int(w), X86.ReadOp(x, op, w));
  }

  // ----- writing -----

  /** A write into register g by the last of some freshly emitted instructions. */
  lemma PushGpr(e: Emitter, e1: Emitter, i: Inst, g: X86.Gpr, v: U64, s: State, x: X86.Machine)
    requires At(e, s, x) && Fresh(e, e1) && e1.Open()
    requires !IsTerminator(i) && Step(i, e1.Run(s)) == e1.Run(s).Set(GprId(g), v)
    ensures Simulates(e, e1.Push(i), s, x.(regs := x.regs[g := v]))
  {
    FreshAt(e, e1, s, x);
    PushRuns(e1, i, s);
    var y := x.(regs := x.regs[g := v]);
    forall h ensures e1.Push(i).Run(s).Get(GprId(h)) == y.Reg(h) {
      GprIdInjective(g, h);
    }
  }

  lemma PartialWrite(w: Width, cur: U64, v: nat)
    requires w == W8 || w == W16
    requires Fits(v, w)
    ensures BitOr(BitAnd(cur, Wrap(0 - Modulus(w), W64)), v) == cur - Wrap(cur, w) + v
    ensures cur - Wrap(cur, w) + v < TWO64
  {
    hide BitAnd, BitOr, Pow2;
    Pow2Table();
    if w == W8 {
      MergeLow(64, 8, cur, v);
    } else {
      MergeLow(64, 16, cur, v);
    }
  }

  /** The two temporaries of a partial write: the masked old value and the extended new one. */
  lemma NarrowParts(w: Width, id: nat, v: Value, e: Emitter, s: State)
    requires e.Open() && Defined(v, e.next)
    ensures var o1 := EmitArith(Opcode.AND, I64, VReg(id, I64), Imm(0 - Modulus(w), I64), e);
            var o2 := Out(o1.e.Skip().Push(Cast(ZEXT, o1.e.next, I64, v)), VReg(o1.e.next, I64));
            && Gives(e, o2, s, I64, Val(v, e.Run(s)))
            && Val(o1.v, o2.e.Run(s)) == BitAnd(e.Run(s).Get(id), Wrap(0 - Modulus(w), W64))
  {
    hide Fresh, Exec, BitAnd, WellTerminated;
    var mask := Imm(0 - Modulus(w), I64);
    var o1 := EmitArith(Opcode.AND, I64, VReg(id, I64), mask, e);
    ArithMeans(Opcode.AND, I64, VReg(id, I64), mask, e, s);
    var i2 := Cast(ZEXT, o1.e.next, I64, v);
    var o2 := Out(o1.e.Skip().Push(i2), VReg(o1.e.next, I64));
    ValStable(v, e, o1.e, s);
    TempGives(o1.e, i2, I64, s);
    GivesThen(e, o1, o2, s, I64, Val(o1.v, o1.e.Run(s)), I64, Val(v, e.Run(s)));
  }

  lemma WriteNarrow(r: X86.Register, v: Value, e: Emitter, s: State, x: X86.Machine)
    requires At(e, s, x) && r.Gp? && (r.w == W8 || r.w == W16)
    requires Defined(v, e.next) && Fits(Val(v, e.Run(s)), r.w)
    ensures Simulates(e, WriteReg(r, v, e), s, X86.WriteReg(x, r, Val(v, e.Run(s))))
  {
    hide Fresh, Exec, BitAnd, BitOr, WellTerminated;
    var n, id, cur := Val(v, e.Run(s)), GprId(r.g), x.Reg(r.g);
    NarrowParts(r.w, id, v, e, s);
    var o1 := EmitArith(Opcode.AND, I64, VReg(id, I64), Imm(0 - Modulus(r.w), I64), e);
    var o2 := Out(o1.e.Skip().Push(Cast(ZEXT, o1.e.next, I64, v)), VReg(o1.e.next, I64));
    PartialWrite(r.w, cur, n);
    PushGpr(e, o2.e, Binop(Opcode.OR, id, I64, o1.v, o2.v), r.g, cur - Wrap(cur, r.w) + n, s, x);
  }

  /** Full, zero-extending and partial register writes. */
  lemma WriteRegMeans(r: X86.Register, v: Value, e: Emitter, s: State, x: X86.Machine)
    requires At(e, s, x) && r.Gp?
    requires Defined(v, e.next) && Fits(Val(v, e.Run(s)), r.w)
    ensures Simulates(e, WriteReg(r, v, e), s, X86.WriteReg(x, r, Val(v, e.Run(s))))
  {
    hide Exec, WellTerminated, Related, TempsKept;
    var n, id := Val(v, e.Run(s)), GprId(r.g);
    match r.w
    case W64 => PushGpr(e, e, Mov(id, I64, v), r.g, n, s, x);
    case W32 =>
      var i := Cast(ZEXT, e.next, I64, v);
      var o := Out(e.Skip().Push(i), VReg(e.next, I64));
      TempGives(e, i, I64, s);
      PushGpr(e, o.e, Mov(id, I64, o.v), r.g, n, s, x);
    case _ => WriteNarrow(r, v, e, s, x);
  }

  lemma StoreMeans(m: X86.Operand, w: Width, v: Value, e: Emitter, s: State, x: X86.Machine)
    requires At(e, s, x) && X86.PlainAddress(m)
    requires Defined(v, e.next) && v.ty == Int(w)
    ensures Simulates(e, WriteOperand(m, v, e), s,
                      x.(mem := StoreLE(x.mem, X86.Address(x, m), Val(v, e.Run(s)), Bytes(w))))
  {
    hide Exec, X86.Address, StoreLE, Fresh;
    ComputeAddrMeans(m, e, s, x);
    var p := ComputeAddr(m, e);
    GivesAt(e, p, s, Ptr, X86.Address(x, m), x);
    ValStable(v, e, p.e, s);
    PushRuns(p.e, Store(v, p.v), s);
  }

  lemma WriteOperandMeans(op: X86.Operand, w: Width, v: Value, e: Emitter, s: State, x: X86.Machine)
    requires At(e, s, x) && X86.DestAt(op, w)
    requires Defined(v, e.next) && v.ty == Int(w) && Fits(Val(v, e.Run(s)), w)
    ensures Simulates(e, WriteOperand(op, v, e), s, X86.WriteOp(x, op, w, Val(v, e.Run(s))))
  {
    hide Simulates, X86.WriteReg;
    if op.RegOp? {
      WriteRegMeans(op.r, v, e, s, x);
    } else {
      StoreMeans(op, w, v, e, s, x);
    }
  }
}
