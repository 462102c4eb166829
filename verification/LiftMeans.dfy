/** Lifting preserves meaning, instruction by instruction and over straight-line code, together
    with a static account of which real flags the lazy flags still determine. */
module LiftMeans {
  import opened Wrappers
  import opened Bits
  import opened IR
  import opened Flags
  import opened Lifter
  import X86
  import opened FlagArithmetic
  import opened Simulation

  // ----- what is known about the flags -----

  /** zs: zero and sign flag are determined; carry, over: so are carry and overflow; watch: the
      register whose redefinition spoils carry and overflow, because it was captured by name. */
  datatype Know = Know(zs: bool, carry: bool, over: bool, watch: Option<X86.Gpr>)

  const NOTHING := Know(false, false, false, None)

  function WrittenGpr(di: DecodedInstr): Option<X86.Gpr> {
    if di.Op(0).RegOp? && di.Op(0).r.Gp? then Some(di.Op(0).r.g) else None
  }

  /** The operand is captured by the name of a register that is later mutable. */
  predicate CapturedByName(op: X86.Operand) {
    op.RegOp? && op.r.Gp? && op.r.w == W64
  }

  /** How an instruction changes what is known. */
  function After(di: DecodedInstr, k: Know): Know {
    match di.mnemonic
    case NOP => k
    case MOV | MOVZX | MOVSX | NOT =>
      if k.watch.Some? && WrittenGpr(di) == k.watch then Know(k.zs, false, false, None) else k
    case ADD | SUB => Know(true, !CapturedByName(di.Op(0)), false, None)
    case CMP => Know(true, true, false, if CapturedByName(di.Op(0)) then Some(di.Op(0).r.g) else None)
    case AND | OR | XOR | TEST => Know(true, true, true, None)
    case NEG => Know(true, true, false, None)
    case INC | DEC => Know(true, false, !CapturedByName(di.Op(0)), None)
    case _ => NOTHING
  }

  /** Never redefined: an immediate or a temporary. */
  predicate Permanent(v: Value, n: nat) {
    v.Imm? || 20 <= v.id < n
  }

  predicate LhsSafe(f: Lazy, watch: Option<X86.Gpr>, n: nat) {
    || Permanent(f.lhs, n)
    || f.op in {FlagOp.AND, FlagOp.OR, FlagOp.XOR}
    || (watch.Some? && f.lhs == VReg(GprId(watch.value), I64))
  }

  /** What is known about the flags is true: the lazy flags evaluate to the machine's flags. */
  ghost predicate FlagsAgree(k: Know, f: Lazy, s: State, fl: X86.Eflags, n: nat) {
    k.zs || k.carry || k.over ==>
      && f.valid && Captured(f, n) && Permanent(f.result, n)
      && (k.zs ==> fl.zf == X86.Is(LazyZF(f, s)) && fl.sf == X86.Is(LazySF(f, s)))
      && (k.carry ==> fl.cf == X86.Is(LazyCF(f, s)) && LhsSafe(f, k.watch, n))
      && (k.over ==> fl.ovf == X86.Is(LazyOF(f, s)) && LhsSafe(f, k.watch, n))
  }

  /** Code that keeps the temporaries and the watched register keeps what is known. */
  lemma FlagsKept(k: Know, f: Lazy, s1: State, s2: State, fl: X86.Eflags, n: nat, m: nat)
    requires FlagsAgree(k, f, s1, fl, n) && n <= m
    requires TempsKept(s1, s2, n)
    requires k.watch.Some? ==> s1.Get(GprId(k.watch.value)) == s2.Get(GprId(k.watch.value))
    ensures FlagsAgree(k, f, s2, fl, m)
  {
  }

  /** The lifted instruction simulates the real one, and what is known afterwards is true. */
  ghost predicate Refines(l: Lifted, l2: Lifted, s: State, y: X86.Machine, k: Know) {
    && Simulates(l.e, l2.e, s, y)
    && FlagsAgree(k, l2.f, l2.e.Run(s), y.flags, l2.e.next)
  }

  // ----- what is captured -----

  predicate SetsFlags(m: X86.Mnemonic) {
    IsAlu(m) || m in {X86.NEG, X86.INC, X86.DEC, X86.IMUL}
  }

  /** The operand whose value is remembered first. */
  function LhsOperand(di: DecodedInstr): X86.Operand {
    if di.mnemonic.IMUL? && |di.ops| != 2 then di.Op(1) else di.Op(0)
  }

  function RhsOperand(di: DecodedInstr): X86.Operand {
    if di.mnemonic.IMUL? && |di.ops| != 2 then di.Op(2) else di.Op(1)
  }

  /** The register through whose name the first operand is remembered, if any; NEG remembers 0. */
  function Watch(di: DecodedInstr): Option<X86.Gpr> {
    if !di.mnemonic.NEG? && CapturedByName(LhsOperand(di)) then Some(LhsOperand(di).r.g) else None
  }

  function FirstValue(di: DecodedInstr, x: X86.Machine): nat {
    if di.mnemonic.NEG? then 0 else X86.ReadOp(x, LhsOperand(di), X86.OperandWidth(di.Op(0)))
  }

  function FlagOpOf(di: DecodedInstr): FlagOp {
    match di.mnemonic
    case NEG => FlagOp.SUB
    case INC => FlagOp.INC
    case DEC => FlagOp.DEC
    case SUB | CMP => FlagOp.SUB
    case AND | TEST => FlagOp.AND
    case OR => FlagOp.OR
    case XOR => FlagOp.XOR
    case IMUL => FlagOp.IMUL
    case _ => FlagOp.ADD
  }

  /** The number a flag-setting instruction computes. */
  function ResultOf(di: DecodedInstr, x: X86.Machine): nat {
    var w := X86.OperandWidth(di.Op(0));
    var a: int := X86.ReadOp(x, LhsOperand(di), w);
    match di.mnemonic
    case NEG => Wrap(0 - a, w)
    case INC => Wrap(a + 1, w)
    case DEC => Wrap(a - 1, w)
    case IMUL => Wrap(Signed(a, w) * Signed(X86.ReadOp(x, RhsOperand(di), w), w), w)
    case m => X86.Alu(m, a, X86.ReadOp(x, RhsOperand(di), w), w)
  }

  /** What the lazy flags refer to: the operation, a result and a first operand that nothing redefines,
      the operand unless it is remembered by the name of a register. */
  predicate Refers(f: Lazy, op: FlagOp, watch: Option<X86.Gpr>, w: Width, n: nat) {
    && f.valid && f.op == op && f.ty == Int(w) && Captured(f, n) && Permanent(f.result, n)
    && match watch
       case None => Permanent(f.lhs, n)
       case Some(g) => f.lhs == VReg(GprId(g), I64) && w == W64
  }

  /** The lazy flags remember operation and result, and the first operand as a value or as a register. */
  ghost predicate Captures(f: Lazy, op: FlagOp, watch: Option<X86.Gpr>, a: nat, r: nat, w: Width, s: State, n: nat) {
    && Refers(f, op, watch, w, n)
    && Val(f.result, s) == r && (watch.None? ==> Val(f.lhs, s) == a)
  }

  /** What an instruction leaves captured when it sets the flags. */
  ghost predicate CapturesOf(di: DecodedInstr, x: X86.Machine, l2: Lifted, s: State) {
    Captures(l2.f, FlagOpOf(di), Watch(di), FirstValue(di, x), ResultOf(di, x), X86.OperandWidth(di.Op(0)), l2.e.Run(s), l2.e.next)
  }

  // ----- instructions that leave the flags alone -----

  lemma WriteOpKeeps(x: X86.Machine, op: X86.Operand, w: Width, v: nat)
    requires Fits(v, w) && X86.DestAt(op, w)
    ensures X86.WriteOp(x, op, w, v).flags == x.flags
    ensures forall g :: !(op.RegOp? && op.r.g == g) ==> X86.WriteOp(x, op, w, v).Reg(g) == x.Reg(g)
  {
  }

  lemma NeutralKeeps(di: DecodedInstr, w: Width, v: nat, l: Lifted, e2: Emitter, s: State, x: X86.Machine, k: Know)
    requires At(l.e, s, x) && FlagsAgree(k, l.f, l.e.Run(s), x.flags, l.e.next)
    requires Fits(v, w) && X86.DestAt(di.Op(0), w)
    requires Simulates(l.e, e2, s, X86.WriteOp(x, di.Op(0), w, v))
    requires di.mnemonic in {X86.MOV, X86.MOVZX, X86.MOVSX, X86.NOT}
    ensures Refines(l, l.(e := e2), s, X86.WriteOp(x, di.Op(0), w, v), After(di, k))
  {
    hide X86.WriteOp, Captured, Exec, LazyZF, LazySF, LazyCF, LazyOF;
    var y := X86.WriteOp(x, di.Op(0), w, v);
    WriteOpKeeps(x, di.Op(0), w, v);
    assert FlagsAgree(After(di, k), l.f, l.e.Run(s), x.flags, l.e.next);
    FlagsKept(After(di, k), l.f, l.e.Run(s), e2.Run(s), x.flags, l.e.next, e2.next);
  }

  lemma SimulatesLater(e: Emitter, e1: Emitter, e2: Emitter, s: State, x: X86.Machine, y: X86.Machine)
    requires Simulates(e, e1, s, x) && Simulates(e1, e2, s, y)
    ensures Simulates(e, e2, s, y)
  {
  }

  lemma LiftMovMeans(di: DecodedInstr, l: Lifted, s: State, x: X86.Machine, k: Know)
    requires At(l.e, s, x) && FlagsAgree(k, l.f, l.e.Run(s), x.flags, l.e.next)
    requires X86.Supported(di) && di.mnemonic.MOV?
    ensures Refines(l, l.(e := LiftMov(di, l.e)), s, X86.Execute(di, x), After(di, k))
  {
    hide Exec, Fresh, Related, FlagsAgree, X86.WriteOp, X86.ReadOp, WriteOperand, ReadOperand;
    var w := X86.OperandWidth(di.Op(0));
    assert MovWidth(di) == Int(w);
    var n := X86.ReadOp(x, di.Op(1), w);
    var src := ReadOperand(di.Op(1), Int(w), l.e);
    ReadOperandMeans(di.Op(1), w, l.e, s, x);
    GivesAt(l.e, src, s, Int(w), n, x);
    WriteOperandMeans(di.Op(0), w, src.v, src.e, s, x);
    SimulatesLater(l.e, src.e, LiftMov(di, l.e), s, x, X86.WriteOp(x, di.Op(0), w, n));
    NeutralKeeps(di, w, n, l, LiftMov(di, l.e), s, x, k);
  }

  lemma LiftExtendMeans(di: DecodedInstr, l: Lifted, s: State, x: X86.Machine, k: Know)
    requires At(l.e, s, x) && FlagsAgree(k, l.f, l.e.Run(s), x.flags, l.e.next)
    requires X86.Supported(di) && (di.mnemonic.MOVZX? || di.mnemonic.MOVSX?)
    ensures Refines(l, l.(e := LiftExtend(di, l.e)), s, X86.Execute(di, x), After(di, k))
  {
    hide Exec, Fresh, Related, FlagsAgree, X86.WriteReg, X86.ReadOp, WriteReg, ReadOperand;
    var r, w := di.Op(0).r, X86.OperandWidth(di.Op(1));
    var n := X86.ReadOp(x, di.Op(1), w);
    var src := ReadOperand(di.Op(1), Int(w), l.e);
    ReadOperandMeans(di.Op(1), w, l.e, s, x);
    var v := if di.mnemonic.MOVSX? then Wrap(Signed(n, w), r.w) else n;
    var i := Cast(ExtendOpcode(di.mnemonic), src.e.next, Int(r.w), src.v);
    var o := Out(src.e.Skip().Push(i), VReg(src.e.next, Int(r.w)));
    TempGives(src.e, i, Int(r.w), s);
    GivesThen(l.e, src, o, s, Int(w), n, Int(r.w), v);
    GivesAt(l.e, o, s, Int(r.w), v, x);
    WriteRegMeans(r, o.v, o.e, s, x);
    SimulatesLater(l.e, o.e, LiftExtend(di, l.e), s, x, X86.WriteReg(x, r, v));
    NeutralKeeps(di, r.w, v, l, LiftExtend(di, l.e), s, x, k);
  }

  // ----- instructions that set the flags -----

  predicate IsAlu(m: X86.Mnemonic) {
    m in {X86.ADD, X86.SUB, X86.AND, X86.OR, X86.XOR, X86.CMP, X86.TEST}
  }

  predicate IsLogic(m: X86.Mnemonic) {
    m in {X86.AND, X86.OR, X86.XOR, X86.TEST}
  }

  /** The lazy flags of an operation, evaluated where its result is at hand and, for the carry,
      its first operand still is, are the flags of the architecture. */
  lemma AluAgrees(m: X86.Mnemonic, a: nat, b: nat, w: Width, f: Lazy, s: State, n: nat,
                  lhsKept: bool, watch: Option<X86.Gpr>)
    requires IsAlu(m) && Fits(a, w) && Fits(b, w)
    requires f.valid && f.op == AluFlagOp(m) && f.ty == Int(w) && Captured(f, n) && Permanent(f.result, n)
    requires Val(f.result, s) == X86.Alu(m, a, b, w)
    requires lhsKept ==> Val(f.lhs, s) == a && LhsSafe(f, watch, n)
    ensures FlagsAgree(Know(true, lhsKept || IsLogic(m), IsLogic(m), watch), f, s, X86.AluFlags(m, a, b, w), n)
  {
    hide BitAnd, BitOr, BitXor;
    CarryOfAdd(a, b, w);
    BorrowOfSub(a, b, w);
  }

  lemma ReadOperandForm(op: X86.Operand, w: Width, e: Emitter, s: State, x: X86.Machine)
    requires At(e, s, x) && X86.SourceAt(op, w)
    ensures var v := ReadOperand(op, Int(w), e).v;
            if CapturedByName(op) then v == VReg(GprId(op.r.g), I64) else v.Imm? || v.id >= 20
  {
    if op.MemOp? { ComputeAddrMeans(op, e, s, x); }
  }

  /** Both operands are read before the result is computed, and the captured values are theirs. */
  lemma LiftBinaryMeans(m: X86.Mnemonic, src0: X86.Operand, src1: X86.Operand, w: Width, e: Emitter, s: State, x: X86.Machine)
    requires At(e, s, x) && X86.SourceAt(src0, w) && X86.SourceAt(src1, w)
    ensures var (o, f) := LiftBinary(m, src0, src1, Int(w), e);
            && Gives(e, o, s, Int(w), Arith(AluOpcode(m), Int(w), X86.ReadOp(x, src0, w), X86.ReadOp(x, src1, w)))
            && Captured(f, o.e.next) && f.result == o.v && Permanent(f.result, o.e.next)
            && Val(f.lhs, o.e.Run(s)) == X86.ReadOp(x, src0, w)
            && f.lhs == ReadOperand(src0, Int(w), e).v
  {
    hide Exec, Fresh, Related, X86.ReadOp, ReadOperand, Arith, X86.SourceAt;
    var a, b := X86.ReadOp(x, src0, w), X86.ReadOp(x, src1, w);
    var r := Arith(AluOpcode(m), Int(w), a, b);
    var lhs := ReadOperand(src0, Int(w), e);
    ReadOperandMeans(src0, w, e, s, x);
    GivesAt(e, lhs, s, Int(w), a, x);
    var rhs := ReadOperand(src1, Int(w), lhs.e);
    ReadOperandMeans(src1, w, lhs.e, s, x);
    GivesThen(e, lhs, rhs, s, Int(w), a, Int(w), b);
    GivesAt(e, rhs, s, Int(w), b, x);
    var o := EmitArith(AluOpcode(m), Int(w), lhs.v, rhs.v, rhs.e);
    ArithMeans(AluOpcode(m), Int(w), lhs.v, rhs.v, rhs.e, s);
    GivesThen(e, rhs, o, s, Int(w), b, Int(w), r);
    ValStable(lhs.v, rhs.e, o.e, s) by { KeepsFresh(rhs.e, o, s, Int(w), r); }
  }

  lemma KeepsFresh(e: Emitter, o: Out, s: State, ty: IRType, n: nat)
    requires Gives(e, o, s, ty, n)
    ensures Fresh(e, o.e)
  {
  }

  lemma PermanentKept(v: Value, e: Emitter, e2: Emitter, s: State, y: X86.Machine)
    requires Simulates(e, e2, s, y) && Permanent(v, e.next)
    ensures Val(v, e2.Run(s)) == Val(v, e.Run(s)) && Permanent(v, e2.next)
  {
  }

  lemma RelatedIgnoresFlags(e: Emitter, e2: Emitter, s: State, y: X86.Machine, fl: X86.Eflags)
    requires Simulates(e, e2, s, y)
    ensures Simulates(e, e2, s, y.(flags := fl))
  {
  }

  lemma ArithIsAlu(m: X86.Mnemonic, a: nat, b: nat, w: Width)
    requires IsAlu(m) && Fits(a, w) && Fits(b, w)
    ensures Arith(AluOpcode(m), Int(w), a, b) == X86.Alu(m, a, b, w)
  {
  }

  lemma LiftCompareMeans(di: DecodedInstr, l: Lifted, s: State, x: X86.Machine, k: Know)
    requires At(l.e, s, x) && X86.Supported(di) && (di.mnemonic.CMP? || di.mnemonic.TEST?)
    ensures Refines(l, LiftCompare(di, l.e), s, X86.Execute(di, x), After(di, k))
    ensures CapturesOf(di, x, LiftCompare(di, l.e), s)
  {
    hide Exec, Fresh, Related, FlagsAgree, X86.ReadOp, ReadOperand, X86.Alu, X86.AluFlags, Arith, BitAnd;
    var w := X86.OperandWidth(di.Op(0));
    assert DestWidth(di.Op(0)) == Int(w);
    var a, b := X86.ReadOp(x, di.Op(0), w), X86.ReadOp(x, di.Op(1), w);
    LiftBinaryMeans(di.mnemonic, di.Op(0), di.Op(1), w, l.e, s, x);
    var (o, f) := LiftBinary(di.mnemonic, di.Op(0), di.Op(1), Int(w), l.e);
    ArithIsAlu(di.mnemonic, a, b, w);
    GivesAt(l.e, o, s, Int(w), X86.Alu(di.mnemonic, a, b, w), x);
    ReadOperandForm(di.Op(0), w, l.e, s, x);
    AluAgrees(di.mnemonic, a, b, w, f, o.e.Run(s), o.e.next, di.mnemonic.CMP?, After(di, k).watch);
    RelatedIgnoresFlags(l.e, o.e, s, x, X86.AluFlags(di.mnemonic, a, b, w));
  }

  lemma LiftAluMeans(di: DecodedInstr, l: Lifted, s: State, x: X86.Machine, k: Know)
    requires At(l.e, s, x) && X86.Supported(di)
    requires di.mnemonic.ADD? || di.mnemonic.SUB? || di.mnemonic.AND? || di.mnemonic.OR? || di.mnemonic.XOR?
    ensures Refines(l, LiftAlu(di, l.e), s, X86.Execute(di, x), After(di, k))
    ensures CapturesOf(di, x, LiftAlu(di, l.e), s)
  {
    hide Exec, Fresh, Related, FlagsAgree, X86.ReadOp, ReadOperand, X86.Alu, X86.AluFlags, Arith, BitAnd, X86.WriteOp, WriteOperand;
    var w := X86.OperandWidth(di.Op(0));
    assert DestWidth(di.Op(0)) == Int(w);
    var a, b := X86.ReadOp(x, di.Op(0), w), X86.ReadOp(x, di.Op(1), w);
    var r := X86.Alu(di.mnemonic, a, b, w);
    LiftBinaryMeans(di.mnemonic, di.Op(0), di.Op(1), w, l.e, s, x);
    var (o, f) := LiftBinary(di.mnemonic, di.Op(0), di.Op(1), Int(w), l.e);
    ArithIsAlu(di.mnemonic, a, b, w);
    GivesAt(l.e, o, s, Int(w), r, x);
    ReadOperandForm(di.Op(0), w, l.e, s, x);
    WriteOperandMeans(di.Op(0), w, o.v, o.e, s, x);
    var e2 := WriteOperand(di.Op(0), o.v, o.e);
    var y := X86.WriteOp(x, di.Op(0), w, r);
    SimulatesLater(l.e, o.e, e2, s, x, y);
    PermanentKept(f.result, o.e, e2, s, y);
    if !CapturedByName(di.Op(0)) { PermanentKept(f.lhs, o.e, e2, s, y); }
    AluAgrees(di.mnemonic, a, b, w, f, e2.Run(s), e2.next, !CapturedByName(di.Op(0)), None);
    RelatedIgnoresFlags(l.e, e2, s, y, X86.AluFlags(di.mnemonic, a, b, w));
    assert Refines(l, Lifted(e2, f), s, X86.Execute(di, x), After(di, k)) by {
      WeakerKnow(Know(true, !CapturedByName(di.Op(0)) || IsLogic(di.mnemonic), IsLogic(di.mnemonic), None),
                 After(di, k), f, e2.Run(s), X86.AluFlags(di.mnemonic, a, b, w), e2.next);
    }
  }

  lemma WeakerKnow(k: Know, k2: Know, f: Lazy, s: State, fl: X86.Eflags, n: nat)
    requires FlagsAgree(k, f, s, fl, n)
    requires (k2.zs ==> k.zs) && (k2.carry ==> k.carry) && (k2.over ==> k.over) && k2.watch == k.watch
    ensures FlagsAgree(k2, f, s, fl, n)
  {
  }

  lemma LiftImulMeans(di: DecodedInstr, l: Lifted, s: State, x: X86.Machine, k: Know)
    requires At(l.e, s, x) && X86.Supported(di) && di.mnemonic.IMUL?
    ensures Refines(l, LiftImul(di, l.e), s, X86.Execute(di, x), After(di, k))
    ensures CapturesOf(di, x, LiftImul(di, l.e), s)
  {
    hide Exec, Fresh, Related, X86.ReadOp, ReadOperand, X86.WriteReg, WriteReg, X86.ImulFlags, Wrap, Signed;
    var w := di.Op(0).r.w;
    var j := if |di.ops| == 2 then 0 else 1;
    var a, b := X86.ReadOp(x, di.Op(j), w), X86.ReadOp(x, di.Op(j + 1), w);
    LiftBinaryMeans(X86.IMUL, di.Op(j), di.Op(j + 1), w, l.e, s, x);
    var (o, f) := LiftBinary(X86.IMUL, di.Op(j), di.Op(j + 1), Int(w), l.e);
    SignedProduct(a, b, w);
    var r := Wrap(Signed(a, w) * Signed(b, w), w);
    GivesAt(l.e, o, s, Int(w), r, x);
    WriteRegMeans(di.Op(0).r, o.v, o.e, s, x);
    var y := X86.WriteReg(x, di.Op(0).r, r);
    SimulatesLater(l.e, o.e, LiftImul(di, l.e).e, s, x, y);
    PermanentKept(f.result, o.e, LiftImul(di, l.e).e, s, y);
    ReadOperandForm(di.Op(j), w, l.e, s, x);
    if !CapturedByName(di.Op(j)) { PermanentKept(f.lhs, o.e, LiftImul(di, l.e).e, s, y); }
    RelatedIgnoresFlags(l.e, LiftImul(di, l.e).e, s, y, X86.ImulFlags(a, b, w));
  }

  lemma UnaryIs(a: nat, w: Width)
    requires Fits(a, w)
    ensures Wrap(0, w) == 0
    ensures Convert(Opcode.NOT, Int(w), a) == Modulus(w) - 1 - a
    ensures Convert(Opcode.NEG, Int(w), a) == Wrap(0 - a, w) == X86.Alu(X86.SUB, 0, a, w)
  {
  }

  /** A unary result is computed into a temporary and then written back to the register. */
  lemma LiftUnaryMeans(di: DecodedInstr, l: Lifted, s: State, x: X86.Machine, k: Know)
    requires At(l.e, s, x) && FlagsAgree(k, l.f, l.e.Run(s), x.flags, l.e.next)
    requires X86.Supported(di) && (di.mnemonic.NOT? || di.mnemonic.NEG?)
    ensures Refines(l, LiftUnary(di, l.e, l.f), s, X86.Execute(di, x), After(di, k))
    ensures if di.mnemonic.NEG? then CapturesOf(di, x, LiftUnary(di, l.e, l.f), s) else LiftUnary(di, l.e, l.f).f == l.f
  {
    hide Exec, Fresh, Related, FlagsAgree, X86.ReadOp, ReadOperand, X86.WriteOp, WriteOperand, X86.SubFlags, Convert, Wrap;
    var w := di.Op(0).r.w;
    var a := X86.ReadOp(x, di.Op(0), w);
    var src := ReadOperand(di.Op(0), Int(w), l.e);
    ReadOperandMeans(di.Op(0), w, l.e, s, x);
    GivesAt(l.e, src, s, Int(w), a, x);
    var i := Unop(if di.mnemonic.NEG? then Opcode.NEG else Opcode.NOT, src.e.next, Int(w), src.v);
    var o := Out(src.e.Skip().Push(i), VReg(src.e.next, Int(w)));
    var r := Convert(i.op, Int(w), a);
    UnaryIs(a, w);
    TempGives(src.e, i, Int(w), s);
    GivesThen(l.e, src, o, s, Int(w), a, Int(w), r);
    GivesAt(l.e, o, s, Int(w), r, x);
    WriteOperandMeans(di.Op(0), w, o.v, o.e, s, x);
    var e2 := WriteOperand(di.Op(0), o.v, o.e);
    var y := X86.WriteOp(x, di.Op(0), w, r);
    SimulatesLater(l.e, o.e, e2, s, x, y);
    if di.mnemonic.NOT? {
      NeutralKeeps(di, w, r, l, e2, s, x, k);
    } else {
      var f := Lazy(true, FlagOp.SUB, o.v, Imm(0, Int(w)), src.v, Int(w));
      PermanentKept(o.v, o.e, e2, s, y);
      AluAgrees(X86.SUB, 0, a, w, f, e2.Run(s), e2.next, true, None);
      RelatedIgnoresFlags(l.e, e2, s, y, X86.SubFlags(0, a, w));
    }
  }

  lemma IncDecAgrees(isDec: bool, a: nat, w: Width, f: Lazy, s: State, n: nat, lhsKept: bool, before: X86.Eflags)
    requires Fits(a, w)
    requires f.valid && f.op == (if isDec then FlagOp.DEC else FlagOp.INC)
    requires f.ty == Int(w) && Captured(f, n) && Permanent(f.result, n)
    requires Val(f.result, s) == if isDec then Wrap(a - 1, w) else Wrap(a + 1, w)
    requires lhsKept ==> Val(f.lhs, s) == a && LhsSafe(f, None, n)
    ensures FlagsAgree(Know(true, false, lhsKept, None), f, s,
                       if isDec then X86.DecFlags(a, w, before) else X86.IncFlags(a, w, before), n)
  {
    OverflowOfInc(a, w);
    OverflowOfDec(a, w);
    assert Signed(1, w) == 1;
  }

  lemma OneFits(w: Width)
    ensures Wrap(1, w) == 1
  {
  }

  lemma LiftIncDecMeans(di: DecodedInstr, l: Lifted, s: State, x: X86.Machine, k: Know)
    requires At(l.e, s, x) && X86.Supported(di) && (di.mnemonic.INC? || di.mnemonic.DEC?)
    ensures Refines(l, LiftIncDec(di, l.e), s, X86.Execute(di, x), After(di, k))
    ensures CapturesOf(di, x, LiftIncDec(di, l.e), s)
  {
    hide Exec, Fresh, Related, FlagsAgree, X86.ReadOp, ReadOperand, X86.WriteOp, WriteOperand, X86.IncFlags, X86.DecFlags, Wrap;
    var w, isDec := di.Op(0).r.w, di.mnemonic.DEC?;
    var a: int := X86.ReadOp(x, di.Op(0), w);
    assert Wrap(1, w) == 1 by { OneFits(w); }
    var src := ReadOperand(di.Op(0), Int(w), l.e);
    ReadOperandMeans(di.Op(0), w, l.e, s, x);
    ReadOperandForm(di.Op(0), w, l.e, s, x);
    GivesAt(l.e, src, s, Int(w), a, x);
    var op := if isDec then Opcode.SUB else Opcode.ADD;
    var o := EmitArith(op, Int(w), src.v, Imm(1, Int(w)), src.e);
    var r := if isDec then Wrap(a - 1, w) else Wrap(a + 1, w);
    ArithMeans(op, Int(w), src.v, Imm(1, Int(w)), src.e, s);
    GivesThen(l.e, src, o, s, Int(w), a, Int(w), r);
    GivesAt(l.e, o, s, Int(w), r, x);
    WriteOperandMeans(di.Op(0), w, o.v, o.e, s, x);
    var e2 := WriteOperand(di.Op(0), o.v, o.e);
    var y := X86.WriteOp(x, di.Op(0), w, r);
    SimulatesLater(l.e, o.e, e2, s, x, y);
    var f := LiftIncDec(di, l.e).f;
    PermanentKept(o.v, o.e, e2, s, y);
    if !CapturedByName(di.Op(0)) { PermanentKept(f.lhs, o.e, e2, s, y); }
    IncDecAgrees(isDec, a, w, f, e2.Run(s), e2.next, !CapturedByName(di.Op(0)), x.flags);
    RelatedIgnoresFlags(l.e, e2, s, y, if isDec then X86.DecFlags(a, w, x.flags) else X86.IncFlags(a, w, x.flags));
  }

  // ----- straight-line code -----

  lemma LiftInstrMeans(di: DecodedInstr, names: map<U64, string>, l: Lifted, s: State, x: X86.Machine, k: Know)
    requires At(l.e, s, x) && FlagsAgree(k, l.f, l.e.Run(s), x.flags, l.e.next)
    requires X86.Supported(di)
    ensures Refines(l, LiftInstr(di, names, l), s, X86.Execute(di, x), After(di, k))
    ensures SetsFlags(di.mnemonic) ==> CapturesOf(di, x, LiftInstr(di, names, l), s)
    ensures !SetsFlags(di.mnemonic) ==> LiftInstr(di, names, l).f == l.f
  {
    hide X86.Supported, X86.Execute, FlagsAgree, Refines, After, CapturesOf, LiftMov, LiftExtend, LiftAlu, LiftCompare, LiftImul, LiftUnary, LiftIncDec;
    SupportedElse(di);
    var m := di.mnemonic;
    if m.NOP? {
      LiftNopMeans(di, l, s, x, k);
    } else if m.MOV? {
      LiftMovMeans(di, l, s, x, k);
    } else if m.MOVZX? || m.MOVSX? {
      LiftExtendMeans(di, l, s, x, k);
    } else if m.CMP? || m.TEST? {
      LiftCompareMeans(di, l, s, x, k);
    } else if m.NOT? || m.NEG? {
      LiftUnaryMeans(di, l, s, x, k);
    } else if m.INC? || m.DEC? {
      LiftIncDecMeans(di, l, s, x, k);
    } else if m.IMUL? {
      LiftImulMeans(di, l, s, x, k);
    } else {
      LiftAluMeans(di, l, s, x, k);
    }
  }

  lemma SupportedElse(di: DecodedInstr)
    requires X86.Supported(di)
    ensures match di.mnemonic
            case NOP | MOV | MOVZX | MOVSX | ADD | SUB | AND | OR | XOR | CMP | TEST | NOT | NEG | INC | DEC => true
            case _ => di.mnemonic.IMUL? && |di.ops| != 1
  {
  }

  lemma LiftNopMeans(di: DecodedInstr, l: Lifted, s: State, x: X86.Machine, k: Know)
    requires At(l.e, s, x) && FlagsAgree(k, l.f, l.e.Run(s), x.flags, l.e.next)
    requires X86.Supported(di) && di.mnemonic.NOP?
    ensures Refines(l, l.(e := l.e.Push(Nop)), s, X86.Execute(di, x), After(di, k))
  {
    PushRuns(l.e, Nop, s);
  }

  function AfterAll(instrs: seq<DecodedInstr>, k: Know): Know {
    if instrs == [] then k else After(instrs[|instrs| - 1], AfterAll(instrs[..|instrs| - 1], k))
  }

  /** Lifting a straight line preserves meaning: running its code from a related state leaves the
      sixteen registers and memory as the instructions do, and the lazy flags it leaves behind
      evaluate to the real flags wherever AfterAll says they are known. */
  lemma {:induction false} LiftAllMeans(instrs: seq<DecodedInstr>, names: map<U64, string>, l: Lifted, s: State, x: X86.Machine, k: Know)
    requires At(l.e, s, x) && FlagsAgree(k, l.f, l.e.Run(s), x.flags, l.e.next)
    requires X86.AllSupported(instrs)
    ensures Refines(l, LiftAll(instrs, names, l), s, X86.ExecuteAll(instrs, x), AfterAll(instrs, k))
  {
    hide X86.Supported, X86.Execute, FlagsAgree, Related, Exec, LiftInstr, After;
    if instrs != [] {
      var init, last := instrs[..|instrs| - 1], instrs[|instrs| - 1];
      LiftAllMeans(init, names, l, s, x, k);
      var mid, y := LiftAll(init, names, l), X86.ExecuteAll(init, x);
      LiftInstrMeans(last, names, mid, s, y, AfterAll(init, k));
      SimulatesLater(l.e, mid.e, LiftInstr(last, names, mid).e, s, y, X86.Execute(last, y));
    }
  }

  // ----- conditional jumps -----

  /** The jumps whose condition is determined by what is known. */
  predicate JccExact(m: X86.Mnemonic, k: Know) {
    match m
    case JZ | JNZ | JS | JNS => k.zs
    case JB | JNB => k.carry
    case JBE | JNBE => k.zs && k.carry
    case JO | JNO => k.over
    case JL | JNL | JLE | JNLE => k.zs && k.over
    case _ => false
  }

  /** The emitted condition of a jump is the condition the jump tests. */
  lemma JccMeans(m: X86.Mnemonic, l: Lifted, s: State, x: X86.Machine, k: Know)
    requires At(l.e, s, x) && FlagsAgree(k, l.f, l.e.Run(s), x.flags, l.e.next)
    requires JccExact(m, k)
    ensures FlagRequestForJcc(m).Some?
    ensures Yields(l.e, Materialise(l.f, FlagRequestForJcc(m).value, l.e), s, X86.Taken(m, x.flags))
  {
    hide LazyZF, LazySF, LazyCF, LazyOF, Yields, Captured, LhsSafe, Exec, Materialise, Related, WellTerminated;
    MaterialiseMeans(l.f, FlagRequestForJcc(m).value, l.e, s);
  }
}
