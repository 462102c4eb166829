/** Instructions lifted as approximations: one-operand IMUL, DIV and IDIV, and the shifts. What their code
    computes, and exactly when that is what the processor computes. Calls: where they go. */
module Approximations {
  import opened Wrappers
  import opened Bits
  import opened IR
  import opened Flags
  import opened Lifter
  import X86
  import opened Simulation
  import opened LiftMeans
  import opened JumpLaws
  import opened JumpCases

  // ----- one-operand IMUL -----

  const RAX_OP := X86.RegOp(RAX64)

  /** The code multiplies RAX by the operand, puts the low half into RAX and zero into RDX. */
  function LowProduct(x: X86.Machine, b: nat): X86.Machine {
    X86.WriteReg(X86.WriteReg(x, RAX64, Wrap(x.Reg(X86.RAX) * b, W64)), RDX64, 0)
  }

  lemma WideImulMeans(di: DecodedInstr, l: Lifted, s: State, x: X86.Machine)
    requires At(l.e, s, x) && X86.SourceAt(di.Op(0), W64)
    ensures var b, l2 := X86.ReadOp(x, di.Op(0), W64), LiftWideImul(di, l.e);
            && Simulates(l.e, l2.e, s, LowProduct(x, b))
            && Captures(l2.f, FlagOp.IMUL, Some(X86.RAX), 0, Wrap(x.Reg(X86.RAX) * b, W64), W64, l2.e.Run(s), l2.e.next)
  {
    hide Exec, Fresh, Related, X86.ReadOp, ReadOperand, X86.WriteReg, WriteReg, Wrap;
    var a, b := x.Reg(X86.RAX), X86.ReadOp(x, di.Op(0), W64);
    RaxIs(x);
    LiftBinaryMeans(X86.IMUL, RAX_OP, di.Op(0), W64, l.e, s, x);
    var (o, f) := LiftBinary(X86.IMUL, RAX_OP, di.Op(0), I64, l.e);
    var r := Wrap(a * b, W64);
    GivesAt(l.e, o, s, I64, r, x);
    var e1 := WriteReg(RAX64, o.v, o.e);
    WriteRegMeans(RAX64, o.v, o.e, s, x);
    var y := X86.WriteReg(x, RAX64, r);
    SimulatesLater(l.e, o.e, e1, s, x, y);
    SimulatesAt(o.e, e1, s, x, y);
    var e2 := WriteReg(RDX64, Imm(0, I64), e1);
    WriteRegMeans(RDX64, Imm(0, I64), e1, s, y);
    SimulatesLater(o.e, e1, e2, s, y, LowProduct(x, b));
    SimulatesLater(l.e, o.e, e2, s, x, LowProduct(x, b));
    PermanentKept(f.result, o.e, e2, s, LowProduct(x, b));
    ReadOperandForm(RAX_OP, W64, l.e, s, x);
  }

  lemma RaxIs(x: X86.Machine)
    ensures X86.ReadOp(x, RAX_OP, W64) == x.Reg(X86.RAX) && X86.SourceAt(RAX_OP, W64) && Val(Imm(0, I64), State(map[], map[])) == 0
  {
  }

  lemma SimulatesAt(e: Emitter, e2: Emitter, s: State, x: X86.Machine, y: X86.Machine)
    requires At(e, s, x) && Simulates(e, e2, s, y)
    ensures At(e2, s, y)
  {
  }

  function Product(x: X86.Machine, b: nat): int { Signed(x.Reg(X86.RAX), W64) * Signed(b, W64) }

  /** The registers are the processor's exactly when the signed product lies in [0, 2^64). */
  lemma WideImulExact(x: X86.Machine, b: nat)
    requires Fits(b, W64)
    ensures LowProduct(x, b).regs == X86.WideImul(x, b).regs <==> 0 <= Product(x, b) < TWO64
  {
    SignedProduct(x.Reg(X86.RAX), b, W64);
    ProductBound(x.Reg(X86.RAX), b);
    HighHalf(Product(x, b));
    hide Wrap, Signed;
    var low := Wrap(Product(x, b), W64);
    if LowProduct(x, b).regs == X86.WideImul(x, b).regs {
      assert LowProduct(x, b).regs[X86.RDX] == X86.WideImul(x, b).regs[X86.RDX];
    }
  }

  lemma ProductBound(a: nat, b: nat)
    requires Fits(a, W64) && Fits(b, W64)
    ensures 0 - TWO64 * TWO64 / 4 <= Signed(a, W64) * Signed(b, W64) <= TWO64 * TWO64 / 4
  {
    Bounded(Signed(a, W64), Signed(b, W64), TWO64 / 2);
  }

  lemma Bounded(i: int, j: int, h: nat)
    requires 0 - h <= i <= h && 0 - h <= j <= h
    ensures 0 - h * h <= i * j <= h * h
  {
    assert (h - i) * (h + j) >= 0 && (h + i) * (h - j) >= 0 && (h - i) * (h - j) >= 0 && (h + i) * (h + j) >= 0;
  }

  /** The high half of a product is zero exactly when the product fits 64 bits. */
  lemma HighHalf(p: int)
    requires 0 - TWO64 * TWO64 / 4 <= p <= TWO64 * TWO64 / 4
    ensures Wrap((p - Wrap(p, W64)) / TWO64, W64) == 0 <==> 0 <= p < TWO64
  {
    var q := p / TWO64;
    assert p - Wrap(p, W64) == q * TWO64 && (p - Wrap(p, W64)) / TWO64 == q;
    assert 0 - TWO64 < q < TWO64;
  }

  /** Behind one-operand IMUL the jumps on carry and overflow are right exactly when the product is in the
      signed range. */
  lemma WideImulJump(di: DecodedInstr, m: X86.Mnemonic, l: Lifted, s: State, x: X86.Machine)
    requires At(l.e, s, x) && X86.SourceAt(di.Op(0), W64) && m in {X86.JO, X86.JNO, X86.JB, X86.JNB}
    ensures FlagRequestForJcc(m).Some?
    ensures var b, l2 := X86.ReadOp(x, di.Op(0), W64), LiftWideImul(di, l.e);
            Yields(l2.e, Materialise(l2.f, FlagRequestForJcc(m).value, l2.e), s,
                   X86.Taken(m, X86.WideImul(x, b).flags) <==> X86.InSignedRange(Product(x, b), W64))
  {
    hide Related, Exec, X86.ReadOp, Captures, Materialise, LiftWideImul, LazyFlags, X86.Taken, Yields, WellTerminated, Wrap, Signed;
    var a, b := x.Reg(X86.RAX), X86.ReadOp(x, di.Op(0), W64);
    var l2, y, r := LiftWideImul(di, l.e), LowProduct(x, b), Wrap(a * b, W64);
    WideImulMeans(di, l, s, x);
    SimulatesAt(l.e, l2.e, s, x, y);
    CapturedJump(l2, FlagOp.IMUL, Some(X86.RAX), 0, r, W64, m, s, y);
    ImulExact(m, a, b, r, y.Reg(X86.RAX), W64);
  }

  // ----- DIV and IDIV -----

  /** The code divides RAX alone. */
  function ShortDividend(x: X86.Machine, signed: bool): int {
    if signed then Signed(x.Reg(X86.RAX), W64) else x.Reg(X86.RAX)
  }

  lemma SmallWrap(v: int)
    requires 0 <= v < TWO64
    ensures Wrap(v, W64) == v
  {
  }

  lemma UnsignedDivide(a: nat, b: nat)
    requires b != 0 && Fits(a, W64) && Fits(b, W64)
    ensures var q := Divide(UDIV, I64, a, b);
            && Divide(UREM, I64, a, b) == a - q * b && X86.Divides(a, b, q, a - q * b)
            && Fits(q, W64) && Fits(a - q * b, W64)
  {
    hide Quotient;
    QuotientBounds(a, b);
    var q := Quotient(a, b);
    assert Divide(UDIV, I64, a, b) == q && Divide(UREM, I64, a, b) == a - q * b by { assert Signed(b, W64) != 0; }
  }

  lemma QuotientBounds(a: nat, b: nat)
    requires b > 0
    ensures Quotient(a, b) <= a && 0 <= a - Quotient(a, b) * b < b && (a == 0 ==> Quotient(a, b) == 0)
  {
    NotAbove(Quotient(a, b), b, a);
    hide Quotient;
  }

  lemma NotAbove(q: nat, b: nat, a: nat)
    requires b > 0 && q * b <= a
    ensures q <= a
  {
    assert q * b == q * (b - 1) + q;
  }

  lemma SignedDivide(a: nat, b: nat)
    requires b != 0 && Fits(a, W64) && Fits(b, W64)
    ensures var n, d := Signed(a, W64), Signed(b, W64);
            && d != 0 && X86.Divides(n, d, Toward(n, d), n - Toward(n, d) * d)
            && Divide(SDIV, I64, a, b) == Wrap(Toward(n, d), W64) && Divide(SREM, I64, a, b) == Wrap(n - Toward(n, d) * d, W64)
  {
    hide Toward, Wrap;
    TowardDivides(Signed(a, W64), Signed(b, W64));
  }

  lemma TowardDivides(n: int, d: int)
    requires d != 0
    ensures X86.Divides(n, d, Toward(n, d), n - Toward(n, d) * d)
  {
    var i, j := X86.Abs(n), X86.Abs(d);
    var q: int := Quotient(i, j);
    var r: int := i - q * j;
    assert 0 <= r < j;
    if d > 0 { assert j == d; } else { assert j == 0 - d && q * j == 0 - q * d; }
    if (n < 0) == (d < 0) { assert Toward(n, d) == q; } else { assert Toward(n, d) == 0 - q; }
    assert n - Toward(n, d) * d == if n < 0 then 0 - r else r;
  }

  /** RAX and the operand are read before anything is written. */
  lemma DivideReads(op: X86.Operand, e: Emitter, s: State, x: X86.Machine)
    requires At(e, s, x) && X86.SourceAt(op, W64)
    ensures var rax := ReadReg(RAX64, e);
            var src := ReadOperand(op, I64, rax.e);
            && At(src.e, s, x) && Simulates(e, src.e, s, x) && Defined(rax.v, src.e.next) && Defined(src.v, src.e.next)
            && Val(rax.v, src.e.Run(s)) == x.Reg(X86.RAX) && Val(src.v, src.e.Run(s)) == X86.ReadOp(x, op, W64)
  {
    hide Exec, Fresh, Related, X86.ReadOp, ReadOperand, ReadReg, WellTerminated;
    var a, b := x.Reg(X86.RAX), X86.ReadOp(x, op, W64);
    var rax := ReadReg(RAX64, e);
    ReadRegMeans(RAX64, e, s, x);
    RaxReads(x);
    GivesAt(e, rax, s, I64, a, x);
    var src := ReadOperand(op, I64, rax.e);
    ReadOperandMeans(op, W64, rax.e, s, x);
    GivesThen(e, rax, src, s, I64, a, I64, b);
    GivesAt(e, src, s, I64, b, x);
  }

  /** For a divisor other than zero the code divides RAX alone and puts quotient and remainder into RAX and RDX. */
  lemma DivideMeans(di: DecodedInstr, l: Lifted, s: State, x: X86.Machine)
    requires At(l.e, s, x) && di.mnemonic in {X86.DIV, X86.IDIV} && X86.SourceAt(di.Op(0), W64) && X86.ReadOp(x, di.Op(0), W64) != 0
    ensures var a, b := x.Reg(X86.RAX), X86.ReadOp(x, di.Op(0), W64);
            var q, r := Divide(DivOpcode(di.mnemonic), I64, a, b), Divide(RemOpcode(di.mnemonic), I64, a, b);
            && Fits(q, W64) && Fits(r, W64)
            && Simulates(l.e, LiftDivide(di, l).e, s, X86.WriteReg(X86.WriteReg(x, RAX64, q), RDX64, r))
            && !LiftDivide(di, l).f.valid
  {
    hide At, Simulates, X86.ReadOp, ReadOperand, ReadReg, X86.WriteReg, WriteReg, Divide, Emitter.Push, Emitter.Skip, X86.SourceAt;
    var a, b, m := x.Reg(X86.RAX), X86.ReadOp(x, di.Op(0), W64), di.mnemonic;
    var q, r := Divide(DivOpcode(m), I64, a, b), Divide(RemOpcode(m), I64, a, b);
    DivideFits(m, a, b);
    DivideReads(di.Op(0), l.e, s, x);
    var rax := ReadReg(RAX64, l.e);
    var src := ReadOperand(di.Op(0), I64, rax.e);
    PairGives(src.e, DivOpcode(m), RemOpcode(m), rax.v, src.v, a, b, s, x);
    ArithDivides(m, a, b);
    var e2 := src.e.Skip().Skip().Push(Binop(DivOpcode(m), src.e.next, I64, rax.v, src.v))
              .Push(Binop(RemOpcode(m), src.e.next + 1, I64, rax.v, src.v));
    AtLeast20(src.e, s, x);
    WritesPair(e2, VReg(src.e.next, I64), VReg(src.e.next + 1, I64), q, r, s, x);
    SimulatesLater(l.e, src.e, e2, s, x, x);
    SimulatesLater(l.e, e2, LiftDivide(di, l).e, s, x, X86.WriteReg(X86.WriteReg(x, RAX64, q), RDX64, r));
  }

  lemma AtLeast20(e: Emitter, s: State, x: X86.Machine)
    requires At(e, s, x)
    ensures e.next >= 20
  {
  }

  lemma ArithDivides(m: X86.Mnemonic, a: nat, b: nat)
    ensures Arith(DivOpcode(m), I64, a, b) == Divide(DivOpcode(m), I64, a, b)
    ensures Arith(RemOpcode(m), I64, a, b) == Divide(RemOpcode(m), I64, a, b)
  {
    hide Divide;
  }

  /** Two temporaries are written to RAX and RDX. */
  lemma WritesPair(e: Emitter, u: Value, v: Value, q: nat, r: nat, s: State, x: X86.Machine)
    requires At(e, s, x) && Permanent(u, e.next) && Permanent(v, e.next) && Fits(q, W64) && Fits(r, W64)
    requires Val(u, e.Run(s)) == q && Val(v, e.Run(s)) == r
    ensures Simulates(e, WriteReg(RDX64, v, WriteReg(RAX64, u, e)), s, X86.WriteReg(X86.WriteReg(x, RAX64, q), RDX64, r))
  {
    hide Exec, Fresh, Related, X86.WriteReg, WriteReg, WellTerminated;
    var e2, y := WriteReg(RAX64, u, e), X86.WriteReg(x, RAX64, q);
    WriteRegMeans(RAX64, u, e, s, x);
    SimulatesAt(e, e2, s, x, y);
    PermanentKept(v, e, e2, s, y);
    WriteRegMeans(RDX64, v, e2, s, y);
    SimulatesLater(e, e2, WriteReg(RDX64, v, e2), s, y, X86.WriteReg(y, RDX64, r));
  }

  lemma RaxReads(x: X86.Machine)
    ensures X86.ReadReg(x, RAX64) == x.Reg(X86.RAX)
  {
  }

  lemma DivideFits(m: X86.Mnemonic, a: nat, b: nat)
    requires m in {X86.DIV, X86.IDIV} && b != 0 && Fits(a, W64) && Fits(b, W64)
    ensures Fits(Divide(DivOpcode(m), I64, a, b), W64) && Fits(Divide(RemOpcode(m), I64, a, b), W64)
  {
    UnsignedDivide(a, b);
    SignedDivide(a, b);
    hide Divide, Wrap;
  }

  /** Two results of the same operands, in temporaries handed out together. */
  lemma PairGives(e: Emitter, op1: Opcode, op2: Opcode, u: Value, v: Value, a: nat, b: nat, s: State, x: X86.Machine)
    requires At(e, s, x) && Defined(u, e.next) && Defined(v, e.next) && Val(u, e.Run(s)) == a && Val(v, e.Run(s)) == b
    ensures var e2 := e.Skip().Skip().Push(Binop(op1, e.next, I64, u, v)).Push(Binop(op2, e.next + 1, I64, u, v));
            && At(e2, s, x) && Simulates(e, e2, s, x) && e2.next == e.next + 2
            && Val(VReg(e.next, I64), e2.Run(s)) == Arith(op1, I64, a, b)
            && Val(VReg(e.next + 1, I64), e2.Run(s)) == Arith(op2, I64, a, b)
  {
    hide Exec, Arith;
    var i, j := Binop(op1, e.next, I64, u, v), Binop(op2, e.next + 1, I64, u, v);
    var e0 := e.Skip().Skip();
    assert e0.Run(s) == e.Run(s);
    PushRuns(e0, i, s);
    PushRuns(e0.Push(i), j, s);
  }

  // ----- when the division is right -----

  /** What RDX holds when it extends RAX, as CQO or clearing it leaves it. */
  function Extension(a: nat, signed: bool): nat { if signed && Signed(a, W64) < 0 then TWO64 - 1 else 0 }

  lemma ExtendsIff(x: X86.Machine, signed: bool)
    ensures X86.Dividend(x, signed) == ShortDividend(x, signed) <==> x.Reg(X86.RDX) == Extension(x.Reg(X86.RAX), signed)
  {
  }

  /** Truncated division has one result. */
  lemma DivisionUnique(n: int, d: int, q1: int, r1: int, q2: int, r2: int)
    requires d != 0 && X86.Divides(n, d, q1, r1) && X86.Divides(n, d, q2, r2)
    ensures q1 == q2 && r1 == r2
  {
    assert (q1 - q2) * d == r2 - r1;
    if q1 != q2 { FarApart(q1 - q2, d); }
  }

  lemma FarApart(k: int, d: int)
    requires k != 0
    ensures X86.Abs(k * d) >= X86.Abs(d)
  {
    if k > 0 && d >= 0 {
      Grows(k, d);
    } else if k > 0 {
      Grows(k, 0 - d);
      assert k * d == 0 - k * (0 - d);
    } else if d >= 0 {
      Grows(0 - k, d);
      assert k * d == 0 - (0 - k) * d;
    } else {
      Grows(0 - k, 0 - d);
      assert k * d == (0 - k) * (0 - d);
    }
  }

  lemma Grows(i: nat, j: nat)
    requires i >= 1
    ensures i * j >= j
  {
    assert i * j == (i - 1) * j + j;
  }

  lemma SignedWrap(v: int)
    requires X86.InSignedRange(v, W64)
    ensures Signed(Wrap(v, W64), W64) == v
  {
  }

  /** Truncation towards zero leaves the signed range only when the least number is divided by -1. */
  lemma TowardInRange(n: int, d: int, q: int, r: int)
    requires X86.InSignedRange(n, W64) && d != 0 && X86.Divides(n, d, q, r)
    ensures X86.InSignedRange(q, W64) <==> !(n == 0 - TWO64 / 2 && d == -1)
  {
    if d == -1 {
      assert q == 0 - n;
    } else if d == 1 {
      assert q == n;
    } else {
      Halves(n, d, q, r);
    }
  }

  lemma Halves(n: int, d: int, q: int, r: int)
    requires X86.Abs(d) >= 2 && X86.Divides(n, d, q, r)
    ensures 2 * X86.Abs(q) <= X86.Abs(n)
  {
    if q != 0 {
      FarApart(q, d);
      Doubles(q, d);
      SameSide(n, r, q * d);
    }
  }

  /** A remainder of the number's own sign and smaller than the rest leaves no more than the number. */
  lemma SameSide(n: int, r: int, p: int)
    requires n == p + r && X86.Abs(r) < X86.Abs(p) && (r == 0 || (r < 0 <==> n < 0))
    ensures X86.Abs(p) <= X86.Abs(n)
  {
  }

  lemma Doubles(q: int, d: int)
    requires X86.Abs(d) >= 2
    ensures X86.Abs(q * d) >= 2 * X86.Abs(q)
  {
    if q != 0 {
      if d >= 2 { SplitTwo(q, d); } else { SplitTwo(q, 0 - d); assert q * d == 0 - q * (0 - d); }
    }
  }

  lemma SplitTwo(q: int, d: nat)
    requires d >= 2
    ensures X86.Abs(q * d) >= 2 * X86.Abs(q)
  {
    assert q * d == q * (d - 2) + 2 * q;
    assert q >= 0 ==> q * (d - 2) >= 0;
    assert q < 0 ==> q * (d - 2) <= 0;
  }

  /** The one dividend that does not extend RAX and still divides right: 2^63 by -1. */
  predicate Coincides(x: X86.Machine, b: nat) {
    x.Reg(X86.RAX) == TWO64 / 2 && x.Reg(X86.RDX) == 0 && b == TWO64 - 1
  }

  lemma SignedExact(x: X86.Machine, b: nat, q: int, r: int)
    requires Fits(b, W64) && X86.Divided(x, true, b, q, r)
    ensures var n, d := Signed(x.Reg(X86.RAX), W64), Signed(b, W64);
            d != 0 &&
            ((Wrap(Toward(n, d), W64) == Wrap(q, W64) && Wrap(n - Toward(n, d) * d, W64) == Wrap(r, W64)) <==>
             X86.Dividend(x, true) == n || Coincides(x, b))
  {
    var a := x.Reg(X86.RAX);
    var n, d, m := Signed(a, W64), Signed(b, W64), X86.Dividend(x, true);
    TowardDivides(n, d);
    var q2, r2 := Toward(n, d), n - Toward(n, d) * d;
    hide Toward, Wrap;
    TowardInRange(n, d, q2, r2);
    assert X86.InSignedRange(r, W64) && X86.InSignedRange(r2, W64);
    SignedWrap(r);
    SignedWrap(r2);
    SignedWrap(q);
    if m == n { DivisionUnique(n, d, q, r, q2, r2); }
    CoincidesMeans(x, b);
    if X86.InSignedRange(q2, W64) {
      SignedWrap(q2);
    } else {
      ByMinusOne(x, b, q, r, q2, r2);
    }
  }

  lemma CoincidesMeans(x: X86.Machine, b: nat)
    requires Fits(b, W64)
    ensures Coincides(x, b) <==> Signed(x.Reg(X86.RAX), W64) == 0 - TWO64 / 2 && Signed(b, W64) == -1 && x.Reg(X86.RDX) == 0
  {
  }

  lemma ByMinusOne(x: X86.Machine, b: nat, q: int, r: int, q2: int, r2: int)
    requires X86.Divided(x, true, b, q, r) && Signed(b, W64) == -1 && Signed(x.Reg(X86.RAX), W64) == 0 - TWO64 / 2 && Fits(b, W64)
    requires X86.Divides(0 - TWO64 / 2, -1, q2, r2)
    ensures X86.Dividend(x, true) != 0 - TWO64 / 2 && r == r2 == 0
    ensures Wrap(q2, W64) == Wrap(q, W64) <==> Coincides(x, b)
  {
    assert q2 == TWO64 / 2 && X86.Dividend(x, true) == 0 - q;
    assert X86.Dividend(x, true) == Signed(x.Reg(X86.RDX), W64) * TWO64 + TWO64 / 2;
  }

  /** Where the processor's DIV or IDIV yields q and r, the code yields the same exactly when RDX extends RAX,
      or, for IDIV, when 2^63 with RDX clear is divided by -1. */
  lemma DivideExact(m: X86.Mnemonic, x: X86.Machine, b: nat, q: int, r: int)
    requires m in {X86.DIV, X86.IDIV} && Fits(b, W64) && X86.Divided(x, m.IDIV?, b, q, r)
    ensures var a := x.Reg(X86.RAX);
            (Divide(DivOpcode(m), I64, a, b) == Wrap(q, W64) && Divide(RemOpcode(m), I64, a, b) == Wrap(r, W64)) <==>
            x.Reg(X86.RDX) == Extension(a, m.IDIV?) || (m.IDIV? && Coincides(x, b))
  {
    ExtendsIff(x, m.IDIV?);
    var a := x.Reg(X86.RAX);
    assert b != 0;
    hide Wrap, Divide, Toward;
    if m.IDIV? {
      SignedDivide(a, b);
      SignedExact(x, b, q, r);
    } else {
      UnsignedDivide(a, b);
      UnsignedExact(x, b, q, r, Divide(UDIV, I64, a, b));
    }
  }

  lemma UnsignedExact(x: X86.Machine, b: nat, q: int, r: int, q2: nat)
    requires Fits(b, W64) && b != 0 && X86.Divided(x, false, b, q, r)
    requires X86.Divides(x.Reg(X86.RAX), b, q2, x.Reg(X86.RAX) - q2 * b)
    ensures (q2 == Wrap(q, W64) && x.Reg(X86.RAX) - q2 * b == Wrap(r, W64)) <==> X86.Dividend(x, false) == x.Reg(X86.RAX)
  {
    var a, n := x.Reg(X86.RAX), X86.Dividend(x, false);
    assert n >= 0;
    SmallWrap(q);
    SmallWrap(r);
    if n == a { DivisionUnique(n, b, q, r, q2, a - q2 * b); }
    hide Wrap;
  }

  // ----- shifts -----

  /** The evaluator's right shift of a signed number rounds down. */
  lemma FloorIs(v: int, b: nat)
    requires b > 0
    ensures Floor(v, b) == v / b
  {
    if v < 0 {
      var q: int := Quotient(-1 - v, b);
      assert v == b * (-1 - q) + (v - b * (-1 - q));
      assert 0 <= v - b * (-1 - q) < b by { assert q * b <= -1 - v < q * b + b; assert b * (-1 - q) == 0 - b - q * b; }
      ModIs(v, b, -1 - q, v - b * (-1 - q));
    }
  }

  lemma ShiftIs(m: X86.Mnemonic, a: nat, w: Width, n: nat)
    requires m in {X86.SHL, X86.SHR, X86.SAR} && Fits(a, w)
    ensures Arith(ShiftOpcode(m), Int(w), a, n) == X86.Shifted(m, a, w, n)
    ensures Fits(X86.Shifted(m, a, w, n), w)
  {
    FloorIs(Signed(a, w), Pow2(n));
    PartFits(a, w, Pow2(n));
    hide Floor, Signed, Wrap, Pow2;
  }

  lemma PartFits(a: nat, w: Width, p: nat)
    requires Fits(a, w) && p > 0
    ensures Quotient(a, p) == a / p == Wrap(a / p, w) && 0 <= a / p <= a
  {
    NotAbove(Quotient(a, p), p, a);
    KeptByWrap(Quotient(a, p), w);
  }

  lemma KeptByWrap(v: int, w: Width)
    requires Fits(v, w)
    ensures Wrap(v, w) == v
  {
  }

  /** The code shifts by the whole count, and captures the result. */
  lemma ShiftMeans(di: DecodedInstr, l: Lifted, s: State, x: X86.Machine)
    requires At(l.e, s, x) && di.mnemonic in {X86.SHL, X86.SHR, X86.SAR}
    requires di.Op(0).RegOp? && di.Op(0).r.Gp? && X86.SourceAt(di.Op(1), W8)
    ensures var w := di.Op(0).r.w;
            var a, r := X86.ReadOp(x, di.Op(0), w), X86.Shifted(di.mnemonic, X86.ReadOp(x, di.Op(0), w), w, X86.ReadOp(x, di.Op(1), W8));
            var l2 := LiftShift(di, l.e);
            && Fits(r, w) && Simulates(l.e, l2.e, s, X86.WriteReg(x, di.Op(0).r, r))
            && Captures(l2.f, l2.f.op, if w == W64 then Some(di.Op(0).r.g) else None, a, r, w, l2.e.Run(s), l2.e.next)
            && l2.f.op == match di.mnemonic { case SHL => FlagOp.SHL case SHR => FlagOp.SHR case _ => FlagOp.SAR }
  {
    ShiftCapturesOp(di, l.e);
    hide Exec, Fresh, Related, X86.ReadOp, ReadOperand, X86.WriteReg, WriteReg, Arith, X86.Shifted, X86.SourceAt, ShiftFlagOp;
    var op, w, m := di.Op(0), di.Op(0).r.w, di.mnemonic;
    var a, n := X86.ReadOp(x, op, w), X86.ReadOp(x, di.Op(1), W8);
    var r := X86.Shifted(m, a, w, n);
    ShiftIs(m, a, w, n);
    RegisterSource(op);
    var src := ReadOperand(op, Int(w), l.e);
    ReadOperandMeans(op, w, l.e, s, x);
    GivesAt(l.e, src, s, Int(w), a, x);
    var amt := ReadOperand(di.Op(1), Int(W8), src.e);
    ReadOperandMeans(di.Op(1), W8, src.e, s, x);
    var i := Cast(ZEXT, amt.e.next, Int(w), amt.v);
    var count := Out(amt.e.Skip().Push(i), VReg(amt.e.next, Int(w)));
    TempGives(amt.e, i, Int(w), s);
    GivesThen(src.e, amt, count, s, Int(W8), n, Int(w), n);
    GivesThen(l.e, src, count, s, Int(w), a, Int(w), n);
    var o := EmitArith(ShiftOpcode(m), Int(w), src.v, count.v, count.e);
    ArithMeans(ShiftOpcode(m), Int(w), src.v, count.v, count.e, s);
    GivesThen(l.e, count, o, s, Int(w), n, Int(w), r);
    ValStable(src.v, count.e, o.e, s) by { KeepsFresh(count.e, o, s, Int(w), r); }
    ShiftWrites(op, src.v, o, l.e, s, x, a, r, Lazy(true, ShiftFlagOp(m), o.v, src.v, count.v, Int(w)));
  }

  lemma ShiftCapturesOp(di: DecodedInstr, e: Emitter)
    ensures LiftShift(di, e).f.op == match di.mnemonic { case SHL => FlagOp.SHL case SHR => FlagOp.SHR case _ => FlagOp.SAR }
  {
  }

  lemma RegisterSource(op: X86.Operand)
    requires op.RegOp? && op.r.Gp?
    ensures X86.SourceAt(op, op.r.w) && CapturedByName(op) == (op.r.w == W64)
  {
  }

  lemma ShiftWrites(op: X86.Operand, lhs: Value, o: Out, e: Emitter, s: State, x: X86.Machine, a: nat, r: nat, f: Lazy)
    requires op.RegOp? && op.r.Gp? && At(e, s, x) && lhs == ReadOperand(op, Int(op.r.w), e).v
    requires Gives(e, o, s, Int(op.r.w), r) && Fits(r, op.r.w) && Val(lhs, o.e.Run(s)) == a && Defined(lhs, o.e.next)
    requires o.v.VReg? && o.v.id >= 20 && f.valid && f.ty == Int(op.r.w) && f.result == o.v && f.lhs == lhs && lhs.ty == f.ty
    ensures var e2 := WriteReg(op.r, o.v, o.e);
            && Simulates(e, e2, s, X86.WriteReg(x, op.r, r))
            && Captures(f, f.op, if op.r.w == W64 then Some(op.r.g) else None, a, r, op.r.w, e2.Run(s), e2.next)
  {
    hide Exec, Fresh, Related, X86.WriteReg, WriteReg, ReadOperand;
    RegisterSource(op);
    ReadOperandForm(op, op.r.w, e, s, x);
    GivesAt(e, o, s, Int(op.r.w), r, x);
    WriteRegMeans(op.r, o.v, o.e, s, x);
    var e2, y := WriteReg(op.r, o.v, o.e), X86.WriteReg(x, op.r, r);
    SimulatesLater(e, o.e, e2, s, x, y);
    PermanentKept(o.v, o.e, e2, s, y);
    if op.r.w != W64 { PermanentKept(lhs, o.e, e2, s, y); }
  }

  // ----- when the shift is right -----

  /** Shifting by c leaves what shifting by the width and more leaves: zeros, or copies of the sign. */
  predicate Spent(m: X86.Mnemonic, a: nat, w: Width, c: nat) {
    match m
    case SHL => Wrap(a * Pow2(c), w) == 0
    case SHR => a < Pow2(c)
    case _ => 0 - Pow2(c) <= Signed(a, w) < Pow2(c)
  }

  /** What is left after shifting by the width or more. */
  function Remains(m: X86.Mnemonic, a: nat, w: Width): nat {
    if m.SAR? && Signed(a, w) < 0 then Modulus(w) - 1 else 0
  }

  lemma FarShift(m: X86.Mnemonic, a: nat, w: Width, n: nat)
    requires m in {X86.SHL, X86.SHR, X86.SAR} && Fits(a, w) && n >= BitCount(w)
    ensures X86.Shifted(m, a, w, n) == Remains(m, a, w)
  {
    var p, d := Pow2(n), Pow2(n - BitCount(w));
    FarPower(w, n);
    hide Pow2, Signed, Wrap;
    match m
    case SHL => MultipleWraps(a, d, p, w);
    case SHR =>
      ModIs(a, p, 0, a);
      KeptByWrap(0, w);
    case SAR => ShiftedOut(a, w, p);
  }

  lemma FarPower(w: Width, n: nat)
    requires n >= BitCount(w)
    ensures Pow2(n) == Pow2(n - BitCount(w)) * Modulus(w) >= Modulus(w)
  {
    ModulusIsPow2(w);
    Pow2Sum(n - BitCount(w), BitCount(w));
    hide Modulus, BitCount;
    Grows(Pow2(n - BitCount(w)), Modulus(w));
  }

  lemma MultipleWraps(a: nat, d: nat, p: nat, w: Width)
    requires p == d * Modulus(w)
    ensures Wrap(a * p, w) == 0
  {
    WrapIsMod(a * p, w);
    hide Wrap;
    var m := Modulus(w);
    assert m > 0;
    hide Modulus;
    assert a * p == m * (a * d);
    ModIs(a * p, m, a * d, 0);
  }

  lemma ShiftedOut(a: nat, w: Width, p: nat)
    requires Fits(a, w) && p >= Modulus(w)
    ensures Wrap(Signed(a, w) / p, w) == if Signed(a, w) < 0 then Modulus(w) - 1 else 0
  {
    var v := Signed(a, w);
    if v < 0 { ModIs(v, p, -1, p + v); } else { ModIs(v, p, 0, v); }
    assert Wrap(-1, w) == Modulus(w) - 1 && Wrap(0, w) == 0;
  }

  lemma SpentIff(m: X86.Mnemonic, a: nat, w: Width, c: nat)
    requires m in {X86.SHL, X86.SHR, X86.SAR} && Fits(a, w)
    ensures X86.Shifted(m, a, w, c) == Remains(m, a, w) <==> Spent(m, a, w, c)
  {
    var p := Pow2(c);
    match m
    case SHL =>
    case SHR =>
      PartFits(a, w, p);
      ZeroQuotient(a, p);
    case SAR => SignQuotient(a, w, p);
  }

  lemma ZeroQuotient(a: nat, p: nat)
    requires p > 0
    ensures a / p == 0 <==> a < p
  {
    if a < p { ModIs(a, p, 0, a); } else { assert a == p * (a / p) + a % p; }
  }

  lemma SignQuotient(a: nat, w: Width, p: nat)
    requires Fits(a, w) && p > 0
    ensures Wrap(Signed(a, w) / p, w) == (if Signed(a, w) < 0 then Modulus(w) - 1 else 0) <==> 0 - p <= Signed(a, w) < p
  {
    var v := Signed(a, w);
    var q := v / p;
    assert v == p * q + v % p && 0 <= v % p < p;
    QuotientInRange(v, p, q, w);
    SignWraps(q, w);
    hide Wrap;
    if v < 0 {
      if v >= 0 - p { ModIs(v, p, -1, p + v); }
    } else {
      if v < p { ModIs(v, p, 0, v); }
    }
  }

  lemma QuotientInRange(v: int, p: nat, q: int, w: Width)
    requires p > 0 && p * q <= v < p * q + p && 0 - Half(w) <= v < Half(w)
    ensures 0 - Half(w) <= q < Half(w) && (v >= 0 ==> q >= 0) && (v < 0 ==> q < 0)
  {
    hide Half;
    if q >= 0 {
      assert p * q == (p - 1) * q + q;
    } else {
      Negative(p, q);
    }
  }

  lemma Negative(p: nat, q: int)
    requires p > 0 && q < 0
    ensures p * q + p <= q + 1 && p * q + p <= 0
  {
    NotPositive(p - 1, q + 1);
    Distribute(p, q);
  }

  lemma NotPositive(i: nat, j: int)
    requires j <= 0
    ensures i * j <= 0
  {
  }

  lemma Distribute(p: int, q: int)
    ensures p * q + p == (p - 1) * (q + 1) + (q + 1)
  {
  }

  lemma SignWraps(q: int, w: Width)
    requires 0 - Half(w) <= q < Half(w)
    ensures Wrap(q, w) == 0 <==> q == 0
    ensures Wrap(q, w) == Modulus(w) - 1 <==> q == -1
  {
  }

  /** A shift is right exactly when the count is not masked, or the masked count already shifts everything
      out; the counts are those below 256, as read. */
  lemma ShiftExact(m: X86.Mnemonic, a: nat, w: Width, n: nat)
    requires m in {X86.SHL, X86.SHR, X86.SAR} && Fits(a, w)
    ensures var c := X86.MaskedCount(n, w);
            X86.Shifted(m, a, w, n) == X86.Shifted(m, a, w, c) <==> n == c || Spent(m, a, w, c)
  {
    var c := X86.MaskedCount(n, w);
    hide X86.Shifted, Spent;
    if n != c {
      assert n >= BitCount(w);
      FarShift(m, a, w, n);
      SpentIff(m, a, w, c);
    }
  }

  /** Behind a shift every jump decides as if carry and overflow were clear. */
  lemma ShiftThenJump(di: DecodedInstr, m: X86.Mnemonic, l: Lifted, s: State, x: X86.Machine)
    requires At(l.e, s, x) && di.mnemonic in {X86.SHL, X86.SHR, X86.SAR} && X86.IsJcc(m)
    requires di.Op(0).RegOp? && di.Op(0).r.Gp? && X86.SourceAt(di.Op(1), W8)
    ensures FlagRequestForJcc(m).Some?
    ensures var w, l2 := di.Op(0).r.w, LiftShift(di, l.e);
            var r := X86.Shifted(di.mnemonic, X86.ReadOp(x, di.Op(0), w), w, X86.ReadOp(x, di.Op(1), W8));
            Yields(l2.e, Materialise(l2.f, FlagRequestForJcc(m).value, l2.e), s, ClearJump(m, r, w))
  {
    hide Related, Exec, X86.ReadOp, Captures, Materialise, LiftShift, LazyFlags, X86.Taken, Yields, WellTerminated, X86.Shifted, X86.SourceAt,
      X86.WriteReg, ClearJump;
    var w, op, l2 := di.Op(0).r.w, ShiftFlagOp(di.mnemonic), LiftShift(di, l.e);
    var a := X86.ReadOp(x, di.Op(0), w);
    var r := X86.Shifted(di.mnemonic, a, w, X86.ReadOp(x, di.Op(1), W8));
    ShiftMeans(di, l, s, x);
    var y := X86.WriteReg(x, di.Op(0).r, r);
    SimulatesAt(l.e, l2.e, s, x, y);
    var watch := if w == W64 then Some(di.Op(0).r.g) else None;
    CapturedJump(l2, op, watch, a, r, w, m, s, y);
    ClearTable(op, m, match watch { case Some(g) => y.Reg(g) case None => a }, r, w);
  }

  /** The jump depends on defined flags only. */
  predicate OnDefined(m: X86.Mnemonic, f: X86.Eflags) {
    match m
    case JZ | JNZ | JS | JNS => true
    case JB | JNB | JBE | JNBE => f.cf.Is?
    case _ => f.ovf.Is?
  }

  /** Behind a shift by a count that is neither zero nor masked, a jump on defined flags is right exactly when
      the flags it depends on are clear. */
  lemma ShiftJumpExact(m: X86.Mnemonic, shift: X86.Mnemonic, a: nat, w: Width, c: nat, before: X86.Eflags)
    requires shift in {X86.SHL, X86.SHR, X86.SAR} && X86.IsJcc(m) && c > 0
    requires OnDefined(m, X86.ShiftFlags(shift, a, w, c, before))
    ensures var r, f := X86.Shifted(shift, a, w, c), X86.ShiftFlags(shift, a, w, c, before);
            (ClearJump(m, r, w) <==> X86.Taken(m, f)) <==> Agrees(m, r == 0, f.cf != X86.Is(true), f.ovf != X86.Is(true))
  {
    hide X86.Shifted, X86.ShiftCarry, X86.ShiftOverflow, Signed;
  }

  // ----- inputs on which these go wrong -----

  /** -1 times 1 leaves RDX clear and should fill it. */
  lemma WideImulMisses(x: X86.Machine)
    requires x.Reg(X86.RAX) == TWO64 - 1
    ensures LowProduct(x, 1).regs != X86.WideImul(x, 1).regs
  {
    WideImulExact(x, 1);
    assert Product(x, 1) == -1;
  }

  /** 2^64 divided by 2 comes out as 0. */
  lemma DivideMisses(x: X86.Machine)
    requires x.Reg(X86.RAX) == 0 && x.Reg(X86.RDX) == 1
    ensures X86.Divided(x, false, 2, TWO64 / 2, 0) && Divide(DivOpcode(X86.DIV), I64, 0, 2) == 0
  {
    UnsignedDivide(0, 2);
    hide Quotient;
    QuotientBounds(0, 2);
  }

  /** 1 shifted left by 33 in 32 bits is lost, and should become 2. */
  lemma ShiftMisses()
    ensures X86.Shifted(X86.SHL, 1, W32, 33) != X86.Shifted(X86.SHL, 1, W32, X86.MaskedCount(33, W32))
  {
    assert Pow2(1) == 2;
    assert !Spent(X86.SHL, 1, W32, 1);
    ShiftExact(X86.SHL, 1, W32, 33);
  }

  // ----- calls -----

  /** A call of an address relative to the next instruction, or of a 64-bit operand. */
  predicate PlainCall(di: DecodedInstr) {
    di.mnemonic.CALL? && (X86.SourceAt(di.Op(0), W64) || (di.Op(0).ImmOp? && di.Op(0).relative))
  }

  /** Where such a call goes. */
  function CallTarget(di: DecodedInstr, x: X86.Machine): U64 {
    if di.Op(0).ImmOp? && di.Op(0).relative then (di.va + di.length + di.Op(0).value) % TWO64
    else X86.ReadOp(x, di.Op(0), W64)
  }

  lemma CalleeGives(di: DecodedInstr, e: Emitter, s: State, x: X86.Machine)
    requires At(e, s, x) && PlainCall(di)
    ensures Gives(e, Callee(di, e), s, Ptr, CallTarget(di, x))
  {
    hide X86.ReadOp, Fresh, Exec;
    if di.Op(0).ImmOp? && di.Op(0).relative {
      NothingGives(e, Imm((di.End() + di.Op(0).value) % TWO64, Ptr), s);
      SumTwice(di.va + di.length, di.Op(0).value);
    } else {
      ReadOperandMeans(di.Op(0), W64, e, s, x);
      ToPointerMeans(ReadOperand(di.Op(0), I64, e), X86.ReadOp(x, di.Op(0), W64), e, s);
    }
  }

  /** The code from e to e2 ends in a call of the target and the move of its result into RAX, and leaves
      the machine's state alone until it gets there. */
  ghost predicate EndsInCall(e: Emitter, e2: Emitter, s: State, x: X86.Machine, target: U64) {
    var n := |e2.insts| - 2;
    && e2.Open() && |e.insts| <= n && e.next < e2.next
    && e2.insts[n].Call? && e2.insts[n].dst == e2.next - 1 && e2.insts[n].ty == I64
    && e2.insts[n + 1] == Mov(GprId(X86.RAX), I64, VReg(e2.next - 1, I64))
    && Related(Exec(e2.insts[..n], s), x)
    && Val(e2.insts[n].callee, Exec(e2.insts[..n], s)) == target
  }

  lemma CallEnds(e: Emitter, c: Out, e2: Emitter, s: State, x: X86.Machine, target: U64)
    requires c.e.Open() && e2.Open() && e2.next == c.e.next + 1 && |e.insts| <= |c.e.insts| && e.next <= c.e.next
    requires e2.insts == c.e.insts + [Call(c.e.next, I64, c.v)] + [Mov(0, I64, VReg(c.e.next, I64))]
    requires Related(c.e.Run(s), x) && Val(c.v, c.e.Run(s)) == target
    ensures EndsInCall(e, e2, s, x, target)
  {
    hide Exec, Related, WellTerminated;
    assert e2.insts[..|e2.insts| - 2] == c.e.insts;
  }

  lemma CallEmits(di: DecodedInstr, e: Emitter)
    requires Callee(di, e).e.Open()
    ensures var c, e2 := Callee(di, e), LiftCall(di, e);
            && e2.Open() && e2.next == c.e.next + 1
            && e2.insts == c.e.insts + [Call(c.e.next, I64, c.v)] + [Mov(0, I64, VReg(c.e.next, I64))]
  {
    hide Callee;
    var c := Callee(di, e);
    PushRuns(c.e.Skip(), Call(c.e.next, I64, c.v), State(map[], map[]));
  }

  /** A CALL goes to its direct target, or else to what its operand holds, and its result into RAX. Behind
      it no flags are captured, so that no jump is taken until flags are set again (`UnsetThenJump`). */
  lemma CallMeans(di: DecodedInstr, names: map<U64, string>, l: Lifted, s: State, x: X86.Machine)
    requires PlainCall(di) && At(l.e, s, x)
    ensures EndsInCall(l.e, LiftInstr(di, names, l).e, s, x, CallTarget(di, x))
    ensures !LiftInstr(di, names, l).f.valid
  {
    CalleeGives(di, l.e, s, x);
    hide X86.ReadOp, Exec, Related, Callee, PlainCall, CallTarget, LiftCall, WellTerminated, EndsInCall;
    GivesAt(l.e, Callee(di, l.e), s, Ptr, CallTarget(di, x), x);
    CallEmits(di, l.e);
    CallEnds(l.e, Callee(di, l.e), LiftCall(di, l.e), s, x, CallTarget(di, x));
  }
}
