/** What is stored by the eager flag code, what the overflow formula decides, and when the conditions of
    jumps after a comparison or a 64-bit addition are the processor's. */
module FlagLaws {
  import opened Bits
  import opened IR
  import opened Flags
  import opened Lifter
  import X86
  import opened FlagArithmetic
  import opened Simulation
  import opened LiftMeans

  // ----- the eager flags -----

  predicate EagerOF(a: nat, r: nat, w: Width) {
    var l, n := Signed(a, w), Signed(r, w);
    (l >= 0 && n < l) || (l < 0 && n > l)
  }

  /** Everything but the flag registers and new temporaries is kept. */
  ghost predicate FlagsOnly(s1: State, s2: State, n: nat) {
    s1.mem == s2.mem && forall id: nat :: (id < 16 || 20 <= id < n) ==> s1.Get(id) == s2.Get(id)
  }

  predicate NotAFlag(v: Value, n: nat) {
    v.VReg? ==> v.id < 16 || 20 <= v.id < n
  }

  lemma StoreIcmpMeans(cond: IcmpCond, flag: nat, a: Value, b: Value, e: Emitter, s: State)
    requires e.Open() && e.next >= 20 && 16 <= flag < 20
    ensures var e2 := StoreIcmp(cond, flag, a, b, e);
            && e2.Open() && e2.next == e.next + 1
            && FlagsOnly(e.Run(s), e2.Run(s), e.next)
            && e2.Run(s).Get(flag) == Flag(IcmpHolds(cond, a.ty, Val(a, e.Run(s)), Val(b, e.Run(s))))
            && forall g :: 16 <= g < 20 && g != flag ==> e2.Run(s).Get(g) == e.Run(s).Get(g)
  {
    hide IcmpHolds, Exec;
    IcmpYields(e, cond, a, b, s);
    var c := EmitIcmp(cond, a, b, e);
    FreshPreserves(e, c.e, s);
    PushRuns(c.e, Mov(flag, I1, c.v), s);
  }

  /** The four comparisons of the overflow test end up in the temporaries n .. n + 3. */
  lemma SignTempsMean(result: Value, lhs: Value, w: Width, e: Emitter, s: State)
    requires e.Open()
    requires Defined(result, e.next) && Defined(lhs, e.next) && result.ty == lhs.ty == Int(w)
    ensures var n := e.next;
            var e4 := EmitSignTemps(result, lhs, Int(w), e);
            var a, r, t := Signed(Val(lhs, e.Run(s)), w), Signed(Val(result, e.Run(s)), w), e4.Run(s);
            && e4.Open() && e4.next == n + 4 && SameBelow(e.Run(s), t, n)
            && t.Get(n) == Flag(a >= 0) && t.Get(n + 1) == Flag(a < 0)
            && t.Get(n + 2) == Flag(r < a) && t.Get(n + 3) == Flag(r > a)
  {
    hide Exec, IcmpHolds, WellTerminated, Signed, Fresh;
    var zero := Imm(0, Int(w));
    var a, r := Val(lhs, e.Run(s)), Val(result, e.Run(s));
    IcmpYields(e, SGE, lhs, zero, s);
    var e1 := EmitIcmp(SGE, lhs, zero, e).e;
    FreshPreserves(e, e1, s);
    IcmpYields(e1, SLT, lhs, zero, s);
    var e2 := EmitIcmp(SLT, lhs, zero, e1).e;
    FreshPreserves(e1, e2, s);
    IcmpYields(e2, SLT, result, lhs, s);
    var e3 := EmitIcmp(SLT, result, lhs, e2).e;
    FreshPreserves(e2, e3, s);
    IcmpYields(e3, SGT, result, lhs, s);
    FreshPreserves(e3, EmitIcmp(SGT, result, lhs, e3).e, s);
    SignTests(a, r, w);
  }

  /** (a AND c) OR (b AND d), stored in the overflow register. */
  lemma StoreOverflowMeans(n: nat, e: Emitter, s: State, a: bool, b: bool, c: bool, d: bool)
    requires e.Open() && e.next == n + 4
    requires e.Run(s).Get(n) == Flag(a) && e.Run(s).Get(n + 1) == Flag(b)
    requires e.Run(s).Get(n + 2) == Flag(c) && e.Run(s).Get(n + 3) == Flag(d)
    ensures var e2 := StoreOverflow(n, e);
            && e2.Open() && e2.next == n + 7
            && e2.Run(s).mem == e.Run(s).mem
            && (forall id: nat :: id < n + 4 && id != OF_VREG ==> e2.Run(s).Get(id) == e.Run(s).Get(id))
            && e2.Run(s).Get(OF_VREG) == Flag((a && c) || (b && d))
  {
    hide Exec, WellTerminated, Fresh, Flag;
    var p := EmitBinop(Opcode.AND, VReg(n, I1), VReg(n + 2, I1), e);
    BinopYields(e, Opcode.AND, VReg(n, I1), VReg(n + 2, I1), s, a, c);
    FreshPreserves(e, p.e, s);
    var q := EmitBinop(Opcode.AND, VReg(n + 1, I1), VReg(n + 3, I1), p.e);
    BinopYields(p.e, Opcode.AND, VReg(n + 1, I1), VReg(n + 3, I1), s, b, d);
    FreshPreserves(p.e, q.e, s);
    var o := EmitBinop(Opcode.OR, p.v, q.v, q.e);
    BinopYields(q.e, Opcode.OR, p.v, q.v, s, a && c, b && d);
    FreshPreserves(q.e, o.e, s);
    PushRuns(o.e, Mov(OF_VREG, I1, o.v), s);
  }

  lemma StoreOFMeans(result: Value, lhs: Value, w: Width, e: Emitter, s: State)
    requires e.Open() && e.next >= 20
    requires Defined(result, e.next) && Defined(lhs, e.next) && result.ty == lhs.ty == Int(w)
    ensures var e2 := EmitOverflow(result, lhs, Int(w), e);
            && e2.Open() && e.next <= e2.next
            && FlagsOnly(e.Run(s), e2.Run(s), e.next)
            && e2.Run(s).Get(OF_VREG) == Flag(EagerOF(Val(lhs, e.Run(s)), Val(result, e.Run(s)), w))
            && forall g :: 16 <= g < 19 ==> e2.Run(s).Get(g) == e.Run(s).Get(g)
  {
    hide Exec, WellTerminated, Signed, EmitSignTemps, StoreOverflow;
    var a, r := Signed(Val(lhs, e.Run(s)), w), Signed(Val(result, e.Run(s)), w);
    SignTempsMean(result, lhs, w, e, s);
    StoreOverflowMeans(e.next, EmitSignTemps(result, lhs, Int(w), e), s, a >= 0, a < 0, r < a, r > a);
  }

  /** The eager flags: all four end up in their registers, and nothing else but new temporaries changes. */
  lemma EagerFlagsMean(result: Value, lhs: Value, w: Width, isSub: bool, e: Emitter, s: State)
    requires e.Open() && e.next >= 20
    requires Defined(result, e.next) && Defined(lhs, e.next) && result.ty == lhs.ty == Int(w)
    requires NotAFlag(result, e.next) && NotAFlag(lhs, e.next)
    ensures var a, r := Val(lhs, e.Run(s)), Val(result, e.Run(s));
            var e2 := EmitFlagsForArith(result, lhs, Int(w), isSub, e);
            var t := e2.Run(s);
            && e2.Open() && FlagsOnly(e.Run(s), t, e.next)
            && t.Get(17) == Flag(r == 0)
            && t.Get(18) == Flag(Signed(r, w) < 0)
            && t.Get(16) == Flag(if isSub then r > a else r < a)
            && t.Get(19) == Flag(EagerOF(a, r, w))
  {
    hide Exec, WellTerminated, Signed, EagerOF, StoreIcmp, EmitOverflow, IcmpHolds, Terminated;
    assert CF_VREG == 16 && ZF_VREG == 17 && SF_VREG == 18 && OF_VREG == 19;
    var zero := Imm(0, Int(w));
    var a, r := Val(lhs, e.Run(s)), Val(result, e.Run(s));
    StoreIcmpMeans(EQ, ZF_VREG, result, zero, e, s);
    var e1 := StoreIcmp(EQ, ZF_VREG, result, zero, e);
    StoreIcmpMeans(SLT, SF_VREG, result, zero, e1, s);
    var e2 := StoreIcmp(SLT, SF_VREG, result, zero, e1);
    StoreIcmpMeans(if isSub then UGT else ULT, CF_VREG, result, lhs, e2, s);
    var e3 := StoreIcmp(if isSub then UGT else ULT, CF_VREG, result, lhs, e2);
    StoreOFMeans(result, lhs, w, e3, s);
    SignTests(r, a, w);
    SignTests(a, r, w);
  }

  lemma SignTests(a: nat, r: nat, w: Width)
    ensures IcmpHolds(SGE, Int(w), a, 0) <==> Signed(a, w) >= 0
    ensures IcmpHolds(SLT, Int(w), a, 0) <==> Signed(a, w) < 0
    ensures IcmpHolds(SLT, Int(w), r, a) <==> Signed(r, w) < Signed(a, w)
    ensures IcmpHolds(SGT, Int(w), r, a) <==> Signed(r, w) > Signed(a, w)
    ensures IcmpHolds(EQ, Int(w), a, 0) <==> a == 0
    ensures IcmpHolds(ULT, Int(w), r, a) <==> r < a
    ensures IcmpHolds(UGT, Int(w), r, a) <==> r > a
  {
  }

  // ----- lazy against eager -----

  lemma EagerIsExact(di: DecodedInstr, l: Lifted, s: State, x: X86.Machine)
    requires At(l.e, s, x) && X86.Supported(di) && di.mnemonic in {X86.ADD, X86.SUB, X86.CMP}
    ensures var w := X86.OperandWidth(di.Op(0));
            var (o, f) := LiftBinary(di.mnemonic, di.Op(0), di.Op(1), Int(w), l.e);
            var eager := EmitFlagsForArith(o.v, f.lhs, Int(w), !di.mnemonic.ADD?, o.e).Run(s);
            var fl := X86.AluFlags(di.mnemonic, X86.ReadOp(x, di.Op(0), w), X86.ReadOp(x, di.Op(1), w), w);
            && fl.zf == X86.Is(eager.Get(ZF_VREG) == 1)
            && fl.sf == X86.Is(eager.Get(SF_VREG) == 1)
            && fl.cf == X86.Is(eager.Get(CF_VREG) == 1)
            && eager.Get(OF_VREG) == Flag(EagerOF(X86.ReadOp(x, di.Op(0), w), X86.Alu(di.mnemonic, X86.ReadOp(x, di.Op(0), w), X86.ReadOp(x, di.Op(1), w), w), w))
  {
    hide Exec, Fresh, Related, WellTerminated, X86.ReadOp, ReadOperand, EagerOF, Arith, X86.Alu;
    var w, m := X86.OperandWidth(di.Op(0)), di.mnemonic;
    var a, b := X86.ReadOp(x, di.Op(0), w), X86.ReadOp(x, di.Op(1), w);
    LiftBinaryMeans(m, di.Op(0), di.Op(1), w, l.e, s, x);
    ReadOperandForm(di.Op(0), w, l.e, s, x);
    var (o, f) := LiftBinary(m, di.Op(0), di.Op(1), Int(w), l.e);
    ArithIsAlu(m, a, b, w);
    GivesAt(l.e, o, s, Int(w), X86.Alu(m, a, b, w), x);
    EagerFlagsMean(o.v, f.lhs, w, !m.ADD?, o.e, s);
    CarryByComparison(m, a, b, w);
  }

  lemma CarryByComparison(m: X86.Mnemonic, a: nat, b: nat, w: Width)
    requires Fits(a, w) && Fits(b, w) && m in {X86.ADD, X86.SUB, X86.CMP}
    ensures var r := X86.Alu(m, a, b, w);
            X86.AluFlags(m, a, b, w) == X86.ResultFlags(r, w, X86.Is(if m.ADD? then r < a else r > a), X86.AluFlags(m, a, b, w).ovf)
  {
    CarryOfAdd(a, b, w);
    BorrowOfSub(a, b, w);
  }

  // ----- overflow -----

  predicate TrueOverflow(isSub: bool, a: nat, b: nat, w: Width) {
    !X86.InSignedRange(if isSub then Signed(a, w) - Signed(b, w) else Signed(a, w) + Signed(b, w), w)
  }

  /** The lazy test: the sign of the result differs from the sign of the first operand. */
  predicate SignChanged(a: nat, r: nat, w: Width) {
    (Signed(a, w) >= 0) != (Signed(r, w) >= 0)
  }

  predicate SameSign(a: nat, b: nat, w: Width) {
    (Signed(a, w) < 0) == (Signed(b, w) < 0)
  }

  /** Real overflow is seen by the lazy test, and that by the eager one. The lazy flag is wrong
      exactly when the sign changed between operands that cannot overflow; the eager flag is
      right exactly when the second operand is zero or the operands could overflow. */
  lemma OverflowChain(isSub: bool, a: nat, b: nat, w: Width)
    requires Fits(a, w) && Fits(b, w)
    ensures var r := if isSub then Wrap(a - b, w) else Wrap(a + b, w);
            && (TrueOverflow(isSub, a, b, w) ==> SignChanged(a, r, w))
            && (SignChanged(a, r, w) ==> EagerOF(a, r, w))
            && ((SignChanged(a, r, w) <==> TrueOverflow(isSub, a, b, w)) <==>
                !(SignChanged(a, r, w) && SameSign(a, b, w) == isSub))
            && ((EagerOF(a, r, w) <==> TrueOverflow(isSub, a, b, w)) <==>
                b == 0 || SameSign(a, b, w) != isSub)
  {
    hide Wrap;
    WrappedSigned(isSub, a, b, w);
    match w
    case W8 =>
    case W16 =>
    case W32 =>
    case W64 =>
  }

  /** The signed reading of a wrapped sum or difference. */
  lemma WrappedSigned(isSub: bool, a: nat, b: nat, w: Width)
    requires Fits(a, w) && Fits(b, w)
    ensures var v := if isSub then Signed(a, w) - Signed(b, w) else Signed(a, w) + Signed(b, w);
            Signed(if isSub then Wrap(a - b, w) else Wrap(a + b, w), w)
              == if v >= Half(w) then v - 2 * Half(w) else if v < 0 - Half(w) then v + 2 * Half(w) else v
  {
    hide Wrap;
    WrapOnce(a, b, w);
  }

  // ----- jumps after a comparison -----

  /** What each emitted jump decides after comparing a with b. */
  predicate CompareJump(m: X86.Mnemonic, a: nat, b: nat, w: Width) {
    match m
    case JZ => a == b
    case JNZ => a != b
    case JB => a < b
    case JNB => a >= b
    case JBE => a <= b
    case JNBE => a > b
    case JS => Signed(Wrap(a - b, w), w) < 0
    case JNS => Signed(Wrap(a - b, w), w) >= 0
    case JO => SignChanged(a, Wrap(a - b, w), w)
    case JNO => !SignChanged(a, Wrap(a - b, w), w)
    case JL => Signed(a, w) < 0
    case JNL => Signed(a, w) >= 0
    case JLE => a == b || Signed(a, w) < 0
    case JNLE => a != b && Signed(a, w) >= 0
    case _ => false
  }

  lemma ZeroDifference(a: nat, b: nat, w: Width)
    requires Fits(a, w) && Fits(b, w)
    ensures Wrap(a - b, w) == 0 <==> a == b
  {
  }

  /** When the emitted jump is the right one: equality and unsigned jumps and the sign jumps
      always, signed jumps exactly when the sign of the first operand alone decides. */
  predicate CompareJumpRight(m: X86.Mnemonic, a: nat, b: nat, w: Width) {
    match m
    case JL | JNL => !SameSign(a, b, w) || (Signed(a, w) < 0 <==> a < b)
    case JLE | JNLE => a == b || !SameSign(a, b, w) || (Signed(a, w) < 0 <==> a < b)
    case JO | JNO => !SameSign(a, b, w) || !SignChanged(a, Wrap(a - b, w), w)
    case _ => true
  }

  lemma CompareJumpExact(m: X86.Mnemonic, a: nat, b: nat, w: Width)
    requires Fits(a, w) && Fits(b, w) && X86.IsJcc(m)
    ensures (CompareJump(m, a, b, w) <==> X86.Taken(m, X86.SubFlags(a, b, w))) <==> CompareJumpRight(m, a, b, w)
  {
    ZeroDifference(a, b, w);
    match m
    case JO | JNO => OverflowChain(true, a, b, w);
    case JL | JNL | JLE | JNLE => SignedLess(a, b, w);
    case _ =>
  }

  /** SF != OF after a subtraction is the signed order. */
  lemma SignedLess(a: nat, b: nat, w: Width)
    requires Fits(a, w) && Fits(b, w)
    ensures X86.SubFlags(a, b, w).sf != X86.SubFlags(a, b, w).ovf <==> Signed(a, w) < Signed(b, w)
    ensures X86.SubFlags(a, b, w).zf == X86.Is(true) <==> a == b
  {
    ZeroDifference(a, b, w);
  }

  /** The direct table for comparisons names the architecture's conditions, except for the sign jumps. */
  lemma JccCondIsExact(m: X86.Mnemonic, a: nat, b: nat, w: Width)
    requires Fits(a, w) && Fits(b, w) && JccCond(m).Some?
    ensures (IcmpHolds(JccCond(m).value, Int(w), a, b) <==> X86.Taken(m, X86.SubFlags(a, b, w))) <==>
            (m in {X86.JS, X86.JNS} ==> !TrueOverflow(true, a, b, w))
  {
    SignedLess(a, b, w);
  }

  // ----- jumps after an addition or subtraction whose first operand was captured by name -----

  /** The captured register has become the result, so carry and overflow read as clear. */
  predicate NamedJump(m: X86.Mnemonic, r: nat) {
    match m
    case JZ | JBE => r == 0
    case JNZ | JNBE => r != 0
    case JS | JL => Signed(r, W64) < 0
    case JNS | JNL => Signed(r, W64) >= 0
    case JLE => r == 0 || Signed(r, W64) < 0
    case JNLE => r != 0 && Signed(r, W64) >= 0
    case JNB | JNO => true
    case _ => false
  }

  /** Such a jump is right exactly when the carry or overflow it should have seen is absent or immaterial. */
  lemma NamedJumpExact(m: X86.Mnemonic, isSub: bool, a: nat, b: nat)
    requires Fits(a, W64) && Fits(b, W64) && X86.IsJcc(m)
    ensures var op := if isSub then X86.SUB else X86.ADD;
            var r, carry := X86.Alu(op, a, b, W64), if isSub then a < b else a + b >= Modulus(W64);
            (NamedJump(m, r) <==> X86.Taken(m, X86.AluFlags(op, a, b, W64))) <==>
            match m
              case JB | JNB => !carry
              case JBE | JNBE => !carry || r == 0
              case JO | JNO | JL | JNL => !TrueOverflow(isSub, a, b, W64)
              case JLE | JNLE => !TrueOverflow(isSub, a, b, W64) || r == 0
              case _ => true
  {
  }

  /** A flag-setting instruction, any later ones that keep what is known, and a jump: the emitted
      condition is the architecture's, for every jump that AfterAll declares exact. */
  lemma StraightLineThenJump(instrs: seq<DecodedInstr>, m: X86.Mnemonic, names: map<U64, string>, l: Lifted, s: State, x: X86.Machine)
    requires At(l.e, s, x) && X86.AllSupported(instrs)
    requires JccExact(m, AfterAll(instrs, NOTHING))
    ensures FlagRequestForJcc(m).Some?
    ensures var l2 := LiftAll(instrs, names, l);
            Yields(l2.e, Materialise(l2.f, FlagRequestForJcc(m).value, l2.e), s,
                   X86.Taken(m, X86.ExecuteAll(instrs, x).flags))
  {
    hide Exec, FlagsAgree, Related, Materialise, Yields, LiftAll;
    LiftAllMeans(instrs, names, l, s, x, NOTHING) by { NothingAgrees(l, s, x); }
    JccMeans(m, LiftAll(instrs, names, l), s, X86.ExecuteAll(instrs, x), AfterAll(instrs, NOTHING));
  }

  lemma NothingAgrees(l: Lifted, s: State, x: X86.Machine)
    ensures FlagsAgree(NOTHING, l.f, l.e.Run(s), x.flags, l.e.next)
  {
  }
}
