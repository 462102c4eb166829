/** Where the lifter parts from the processor, with the exact condition under which it still agrees. */
module Deviations {
  import opened Wrappers
  import opened Bits
  import opened IR
  import opened Flags
  import opened Lifter
  import X86
  import opened Simulation
  import opened LiftMeans
  import opened JumpLaws
  import JumpCases

  function SecondByte(cur: nat): nat { cur / 256 % 256 }

  /** AH, BH, CH and DH are read as the low byte, so the value is right exactly when both bytes are equal. */
  lemma HighByteReadExact(g: X86.Gpr, e: Emitter, s: State, x: X86.Machine)
    requires At(e, s, x)
    ensures Gives(e, ReadReg(X86.High(g), e), s, Int(W8), x.Reg(g) % 256)
    ensures Val(ReadReg(X86.High(g), e).v, ReadReg(X86.High(g), e).e.Run(s)) == X86.ReadReg(x, X86.High(g)) <==>
            SecondByte(x.Reg(g)) == x.Reg(g) % 256
  {
    hide Exec;
    TempGives(e, Cast(TRUNC, e.next, Int(W8), VReg(GprId(g), I64)), Int(W8), s);
  }

  lemma BytesAgree(cur: U64, v: nat)
    requires v < 256
    ensures cur - cur % 256 + v == cur - SecondByte(cur) * 256 + v * 256 <==> v == cur % 256 && v == SecondByte(cur)
  {
    var h, l := SecondByte(cur), cur % 256;
    if 255 * v == 256 * h - l {
      assert 255 * (v - h) == h - l;
      assert v == h;
    }
  }

  lemma HighWritesAsLow(g: X86.Gpr, v: Value, e: Emitter)
    ensures WriteReg(X86.High(g), v, e) == WriteReg(X86.Gp(g, W8), v, e)
  {
    hide Emitter.Push, Emitter.Skip;
  }

  lemma ByteWrites(x: X86.Machine, g: X86.Gpr, n: nat)
    requires n < 256
    ensures var cur := x.Reg(g);
            && cur - cur % 256 + n < TWO64
            && X86.WriteReg(x, X86.Gp(g, W8), n) == x.(regs := x.regs[g := cur - cur % 256 + n])
            && X86.WriteReg(x, X86.High(g), n).Reg(g) == cur - SecondByte(cur) * 256 + n * 256
  {
    LowByte(x.Reg(g), n);
    hide Wrap;
  }

  lemma LowByte(cur: U64, n: nat)
    requires n < 256
    ensures Wrap(cur, W8) == cur % 256 && cur - cur % 256 + n < TWO64
  {
  }

  /** A write to AH, BH, CH or DH lands in the low byte: it is right exactly when it changes nothing. */
  lemma HighByteWriteExact(g: X86.Gpr, v: Value, e: Emitter, s: State, x: X86.Machine)
    requires At(e, s, x) && Defined(v, e.next) && Fits(Val(v, e.Run(s)), W8)
    ensures var n, cur := Val(v, e.Run(s)), x.Reg(g);
            && cur - cur % 256 + n < TWO64
            && Simulates(e, WriteReg(X86.High(g), v, e), s, x.(regs := x.regs[g := cur - cur % 256 + n]))
            && (cur - cur % 256 + n == X86.WriteReg(x, X86.High(g), n).Reg(g) <==> n == cur % 256 && n == SecondByte(cur))
  {
    hide At, Simulates, WriteReg, X86.WriteReg, Defined, SecondByte;
    var n, cur := Val(v, e.Run(s)), x.Reg(g);
    HighWritesAsLow(g, v, e);
    ByteWrites(x, g, n);
    WriteRegMeans(X86.Gp(g, W8), v, e, s, x);
    BytesAgree(cur, n);
  }

  /** A RIP-relative address comes out as twice the displacement; it is the processor's exactly when
      the displacement happens to be the address of the next instruction. */
  lemma RipRelativeExact(m: X86.Operand, next: U64, e: Emitter, s: State)
    requires e.Open() && m.MemOp? && m.base.RIP? && m.index.NoRegister? && (!m.hasDisp ==> m.disp == 0)
    ensures Gives(e, ComputeAddr(m, e), s, Ptr, Wrap(2 * m.disp, W64))
    ensures Wrap(2 * m.disp, W64) == Wrap(next + m.disp, W64) <==> Wrap(m.disp, W64) == next
  {
    hide Exec, Fresh, Wrap;
    var base := AddrBase(m, e);
    NothingGives(e, Imm(m.disp, I64), s);
    AddrDispMeans(m, base, Wrap(m.disp, W64), e, s);
    hide Gives;
    ModAdd(m.disp, m.disp);
    ModAdd(m.disp, 0);
    assert Wrap(Wrap(m.disp, W64) + m.disp, W64) == Wrap(2 * m.disp, W64);
    ToPointerMeans(AddrDisp(m, base), Wrap(2 * m.disp, W64), e, s);
    TwiceOrNext(m.disp, next);
  }

  lemma CongruentMeansDifference(a: int, b: int)
    ensures a % TWO64 == b % TWO64 <==> (a - b) % TWO64 == 0
  {
    assert a == a / TWO64 * TWO64 + a % TWO64 && b == b / TWO64 * TWO64 + b % TWO64;
  }

  lemma TwiceOrNext(d: int, next: U64)
    ensures Wrap(2 * d, W64) == Wrap(next + d, W64) <==> Wrap(d, W64) == next
  {
    CongruentMeansDifference(2 * d, next + d);
    CongruentMeansDifference(d, next);
    assert 2 * d - (next + d) == d - next;
  }

  /** INC and DEC report a clear carry where the processor keeps the old one: right exactly when it was clear. */
  lemma IncCarryExact(di: DecodedInstr, names: map<U64, string>, l: Lifted, s: State, x: X86.Machine)
    requires X86.Supported(di) && (di.mnemonic == X86.INC || di.mnemonic == X86.DEC)
    ensures var l2 := LiftInstr(di, names, l);
            && !LazyCF(l2.f, l2.e.Run(s))
            && (X86.Execute(di, x).flags.cf == X86.Is(LazyCF(l2.f, l2.e.Run(s))) <==> x.flags.cf == X86.Is(false))
  {
    hide Exec, WriteReg, X86.WriteReg, X86.WriteOp, X86.ReadOp, ReadOperand, WriteOperand, Wrap, Signed;
  }

  // ----- addresses -----

  /** A 32-bit address is summed modulo 2^64: it is the processor's exactly when the sum stays below 2^32. */
  lemma NarrowAddressExact(m: X86.Operand, e: Emitter, s: State, x: X86.Machine)
    requires At(e, s, x) && X86.RegisterAddress(m) && X86.AddressWidth(m) == W32
    ensures var p := ComputeAddr(m, e);
            Val(p.v, p.e.Run(s)) == X86.Address(x, m) <==> Wrap(X86.AddressSum(x, m), W64) < Modulus(W32)
  {
    hide At, ComputeAddr, X86.AddressSum, X86.PlainAddress, Fresh, Exec;
    ComputeAddrMeans(m, e, s, x);
    LowHalf(X86.AddressSum(x, m));
  }

  lemma LowHalf(n: int)
    ensures Wrap(n, W32) == Wrap(Wrap(n, W64), W32)
  {
  }

  lemma ModOfMultiple(n: int, m: nat, k: nat)
    requires m > 0 && k > 0
    ensures m * k > 0 && n % (m * k) % m == n % m
  {
    var q := n / (m * k);
    assert n % (m * k) == n + m * (0 - q * k);
    ModShift(n, m, 0 - q * k);
  }

  lemma LowQuarter(n: int, w: Width)
    requires w != W8
    ensures Wrap(Wrap(n, w), W16) == Wrap(n, W16)
  {
    ModOfMultiple(n, 0x1_0000, 1);
    ModOfMultiple(n, 0x1_0000, 0x1_0000);
    ModOfMultiple(n, 0x1_0000, 0x1_0000_0000_0000);
  }

  /** LEA puts the address through 16 bits: the destination gets the processor's value exactly when that fits
      16 bits, as it always does in a 16-bit destination. */
  lemma LeaExact(di: DecodedInstr, e: Emitter, s: State, x: X86.Machine)
    requires At(e, s, x) && di.mnemonic.LEA? && X86.RegisterAddress(di.Op(1)) && di.Op(0).RegOp? && di.Op(0).r.Gp? && di.Op(0).r.w != W8
    ensures var a, r := X86.Address(x, di.Op(1)), di.Op(0).r;
            && Fits(Wrap(a, W16), r.w)
            && Simulates(e, LiftLea(di, e), s, X86.WriteReg(x, r, Wrap(a, W16)))
            && (X86.WriteReg(x, r, Wrap(a, W16)) == X86.WriteReg(x, r, Wrap(a, r.w)) <==> Wrap(a, r.w) < Modulus(W16))
            && (r.w == W16 ==> Wrap(a, r.w) < Modulus(W16))
  {
    hide Exec, Fresh, Related, WriteReg, X86.WriteReg, X86.AddressSum, ComputeAddr, WellTerminated;
    var m := di.Op(1);
    var sum, a, r := X86.AddressSum(x, m), X86.Address(x, m), di.Op(0).r;
    ComputeAddrMeans(m, e, s, x);
    LowQuarter(sum, X86.AddressWidth(m));
    LowQuarter(sum, W64);
    var p := ComputeAddr(m, e);
    var i := Cast(PTRTOINT, p.e.next, Int(W16), p.v);
    var o := Out(p.e.Skip().Push(i), VReg(p.e.next, I64));
    GivesAt(e, p, s, Ptr, Wrap(sum, W64), x);
    TempGives(p.e, i, I64, s);
    GivesThen(e, p, o, s, Ptr, Wrap(sum, W64), I64, Wrap(a, W16));
    GivesAt(e, o, s, I64, Wrap(a, W16), x);
    SmallFits(Wrap(a, W16), r.w);
    WriteRegMeans(r, o.v, o.e, s, x);
    SimulatesLater(e, o.e, LiftLea(di, e), s, x, X86.WriteReg(x, r, Wrap(a, W16)));
    WritesAgree(x, r, Wrap(a, W16), Wrap(a, r.w));
    QuarterAgrees(a, r.w);
  }

  lemma SmallFits(n: nat, w: Width)
    requires Fits(n, W16) && w != W8
    ensures Fits(n, w)
  {
  }

  /** Writing two values to a register makes the same machine exactly when they are the same. */
  lemma WritesAgree(x: X86.Machine, r: X86.Register, a: nat, b: nat)
    requires r.Gp? && Fits(a, r.w) && Fits(b, r.w)
    ensures X86.WriteReg(x, r, a) == X86.WriteReg(x, r, b) <==> a == b
  {
    hide Wrap;
    if X86.WriteReg(x, r, a) == X86.WriteReg(x, r, b) {
      assert X86.WriteReg(x, r, a).regs[r.g] == X86.WriteReg(x, r, b).regs[r.g];
    }
  }

  lemma QuarterAgrees(a: nat, w: Width)
    requires w != W8
    ensures Wrap(a, W16) == Wrap(a, w) <==> Wrap(a, w) < Modulus(W16)
  {
    LowQuarter(a, w);
    ShortIsKept(Wrap(a, w));
    hide Wrap;
  }

  lemma ShortIsKept(n: nat)
    ensures Wrap(n, W16) == n <==> n < Modulus(W16)
  {
  }

  // ----- inputs on which the emitted jump goes the wrong way -----

  const START := Lifted(Emitter([], 20, false), INITIAL)

  const GPRS := [X86.RAX, X86.RBX, X86.RCX, X86.RDX, X86.RSI, X86.RDI, X86.RSP, X86.RBP,
                 X86.R8, X86.R9, X86.R10, X86.R11, X86.R12, X86.R13, X86.R14, X86.R15]

  function Loaded(gs: seq<X86.Gpr>, x: X86.Machine): State {
    if gs == [] then State(map[], x.mem) else Loaded(gs[1..], x).Set(GprId(gs[0]), x.Reg(gs[0]))
  }

  /** An IR state that holds the machine's registers and memory. */
  function StateOf(x: X86.Machine): State { Loaded(GPRS, x) }

  lemma {:induction false} LoadedHolds(gs: seq<X86.Gpr>, x: X86.Machine)
    ensures Loaded(gs, x).mem == x.mem && forall g :: g in gs ==> Loaded(gs, x).Get(GprId(g)) == x.Reg(g)
  {
    if gs != [] {
      LoadedHolds(gs[1..], x);
      forall g | g in gs ensures Loaded(gs, x).Get(GprId(g)) == x.Reg(g) { GprIdInjective(g, gs[0]); }
    }
  }

  lemma AllGprs(g: X86.Gpr)
    ensures g in GPRS
  {
    assert g == GPRS[GprId(g)];
  }

  lemma StartsAt(x: X86.Machine)
    ensures At(START.e, StateOf(x), x)
  {
    LoadedHolds(GPRS, x);
    hide Loaded;
    forall g ensures StateOf(x).Get(GprId(g)) == x.Reg(g) { AllGprs(g); }
  }

  /** Started at x, the code of the instructions computes a condition for m that is not the processor's. */
  predicate Misjudged(instrs: seq<DecodedInstr>, m: X86.Mnemonic, x: X86.Machine) {
    && X86.AllSupported(instrs) && FlagRequestForJcc(m).Some?
    && var l2 := LiftAll(instrs, map[], START);
       var c := Materialise(l2.f, FlagRequestForJcc(m).value, l2.e);
       Val(c.v, c.e.Run(StateOf(x))) != Flag(X86.Taken(m, X86.ExecuteAll(instrs, x).flags))
  }

  lemma MisjudgedIf(instrs: seq<DecodedInstr>, k: nat, m: X86.Mnemonic, x: X86.Machine)
    requires X86.AllSupported(instrs) && LastSetter(instrs, k) && X86.AllSupported(instrs[..k]) && Answered(instrs[k], m)
    requires !JumpRight(instrs[k], m, X86.ExecuteAll(instrs[..k], x), X86.ExecuteAll(instrs, x))
    ensures Misjudged(instrs, m, x)
  {
    hide X86.Supported, X86.Execute, At, LiftAll, Materialise, X86.Taken, JumpRight, SetsFlags, StateOf, Exec;
    StartsAt(x);
    LastSetIs(instrs, k, x, None);
    EveryJumpExact(instrs, None, m, map[], START, StateOf(x), x);
  }

  lemma MisjudgedBehind(di: DecodedInstr, m: X86.Mnemonic, x: X86.Machine)
    requires X86.Supported(di) && SetsFlags(di.mnemonic) && Answered(di, m) && !JumpRight(di, m, x, X86.Execute(di, x))
    ensures Misjudged([di], m, x)
  {
    hide X86.Supported, X86.Execute, JumpRight, SetsFlags, Misjudged;
    JumpCases.OneInstr(di, map[], START, x);
    MisjudgedIf([di], 0, m, x);
  }

  function Reg(g: X86.Gpr, w: Width): X86.Operand { X86.RegOp(X86.Gp(g, w)) }

  function Instr(m: X86.Mnemonic, ops: seq<X86.Operand>): DecodedInstr { X86.DecodedInstr(0x1000, 4, m, ops) }

  function At3(rax: U64, rbx: U64, rcx: U64, carry: bool): X86.Machine {
    X86.Machine(map[X86.RAX := rax, X86.RBX := rbx, X86.RCX := rcx], map[],
                X86.Eflags(X86.Is(false), X86.Is(false), X86.Is(carry), X86.Is(false)), 0x1000)
  }

  /** CMP AL, BL with 1 and 2: 1 is less, JL is not emitted as taken. */
  lemma CompareMisjudged()
    ensures Misjudged([Instr(X86.CMP, [Reg(X86.RAX, W8), Reg(X86.RBX, W8)])], X86.JL, At3(1, 2, 0, false))
  {
    hide Misjudged, X86.Execute, LoadLE, X86.Address, StepRight, X86.AluFlags;
    var di, x := Instr(X86.CMP, [Reg(X86.RAX, W8), Reg(X86.RBX, W8)]), At3(1, 2, 0, false);
    assert X86.ReadOp(x, di.Op(0), W8) == 1 && X86.ReadOp(x, di.Op(1), W8) == 2;
    MisjudgedBehind(di, X86.JL, x);
  }

  /** ADD AL, BL with 1 and -2: the sum is negative. */
  lemma AddMisjudged()
    ensures Misjudged([Instr(X86.ADD, [Reg(X86.RAX, W8), Reg(X86.RBX, W8)])], X86.JL, At3(1, 0xFE, 0, false))
  {
    hide Misjudged, X86.Execute, LoadLE, X86.Address, StepRight, X86.AluFlags;
    var di, x := Instr(X86.ADD, [Reg(X86.RAX, W8), Reg(X86.RBX, W8)]), At3(1, 0xFE, 0, false);
    assert X86.ReadOp(x, di.Op(0), W8) == 1 && X86.ReadOp(x, di.Op(1), W8) == 0xFE;
    MisjudgedBehind(di, X86.JL, x);
  }

  /** ADD RAX, RBX with 2^64 - 1 and 1: the carry is lost with the operand. */
  lemma NamedAddMisjudged()
    ensures Misjudged([Instr(X86.ADD, [Reg(X86.RAX, W64), Reg(X86.RBX, W64)])], X86.JB, At3(TWO64 - 1, 1, 0, false))
  {
    hide Misjudged, X86.Execute;
    var di, x := Instr(X86.ADD, [Reg(X86.RAX, W64), Reg(X86.RBX, W64)]), At3(TWO64 - 1, 1, 0, false);
    JumpCases.RememberedNow(di, x);
    MisjudgedBehind(di, X86.JB, x);
  }

  const CMP_RAX_RBX := Instr(X86.CMP, [Reg(X86.RAX, W64), Reg(X86.RBX, W64)])
  const MOV_RAX_RCX := Instr(X86.MOV, [Reg(X86.RAX, W64), Reg(X86.RCX, W64)])

  lemma CompareThenMove(x: X86.Machine)
    ensures X86.Supported(CMP_RAX_RBX) && X86.Supported(MOV_RAX_RCX)
    ensures X86.Execute(MOV_RAX_RCX, X86.Execute(CMP_RAX_RBX, x)).Reg(X86.RAX) == x.Reg(X86.RCX)
  {
    hide X86.AluFlags;
  }

  lemma StaleIsWrong(y: X86.Machine)
    requires y.Reg(X86.RAX) == 0
    ensures !JumpRight(CMP_RAX_RBX, X86.JB, At3(2, 1, 0, false), y)
  {
  }

  /** CMP RAX, RBX with 2 and 1, then MOV RAX, RCX with 0: the comparison is made with 0. */
  lemma StaleMisjudged()
    ensures Misjudged([CMP_RAX_RBX, MOV_RAX_RCX], X86.JB, At3(2, 1, 0, false))
  {
    var x := At3(2, 1, 0, false);
    CompareThenMove(x);
    hide Misjudged, X86.Execute, JumpRight, X86.Supported;
    var y := X86.Execute(MOV_RAX_RCX, X86.Execute(CMP_RAX_RBX, x));
    StaleIsWrong(y);
    ConsLine(CMP_RAX_RBX, [MOV_RAX_RCX], map[], START, x);
    JumpCases.OneInstr(MOV_RAX_RCX, map[], START, X86.Execute(CMP_RAX_RBX, x));
    var line := [CMP_RAX_RBX] + [MOV_RAX_RCX];
    assert line == [CMP_RAX_RBX, MOV_RAX_RCX];
    hide At3, Instr;
    MisjudgedIf(line, 0, X86.JB, x);
  }

  /** NEG AL with 1: 0 is less than 1. */
  lemma NegMisjudged()
    ensures Misjudged([Instr(X86.NEG, [Reg(X86.RAX, W8)])], X86.JL, At3(1, 0, 0, false))
  {
    hide Misjudged, X86.Execute;
    var di, x := Instr(X86.NEG, [Reg(X86.RAX, W8)]), At3(1, 0, 0, false);
    MisjudgedBehind(di, X86.JL, x);
  }

  /** IMUL AX, BX with 256 and 256 overflows. */
  lemma ImulMisjudged()
    ensures Misjudged([Instr(X86.IMUL, [Reg(X86.RAX, W16), Reg(X86.RBX, W16)])], X86.JO, At3(256, 256, 0, false))
  {
    hide Misjudged, X86.Execute;
    var di, x := Instr(X86.IMUL, [Reg(X86.RAX, W16), Reg(X86.RBX, W16)]), At3(256, 256, 0, false);
    MisjudgedBehind(di, X86.JO, x);
  }

  const MAX_SIGNED := 0x7FFF_FFFF_FFFF_FFFF

  const INC_RAX := Instr(X86.INC, [Reg(X86.RAX, W64)])

  lemma IncIsWrong(m: X86.Mnemonic)
    requires m == X86.JL || m == X86.JO
    ensures X86.Supported(INC_RAX)
    ensures !JumpRight(INC_RAX, m, At3(MAX_SIGNED, 0, 0, false), X86.Execute(INC_RAX, At3(MAX_SIGNED, 0, 0, false)))
  {
    hide X86.Execute, X86.Alu, X86.AluFlags, LoadLE, X86.Address, CarryRight, Below0, Remembered;
    var x := At3(MAX_SIGNED, 0, 0, false);
    assert X86.ReadOp(x, LhsOperand(INC_RAX), W64) == MAX_SIGNED;
    assert ResultOf(INC_RAX, x) == MAX_SIGNED + 1;
    JumpCases.RememberedNow(INC_RAX, x);
  }

  /** INC RAX at 2^63 - 1: the unbounded result is positive, and the overflow is lost. */
  lemma IncMisjudged(m: X86.Mnemonic)
    requires m == X86.JL || m == X86.JO
    ensures Misjudged([INC_RAX], m, At3(MAX_SIGNED, 0, 0, false))
  {
    hide Misjudged, X86.Execute, JumpRight;
    IncIsWrong(m);
    MisjudgedBehind(INC_RAX, m, At3(MAX_SIGNED, 0, 0, false));
  }

  /** INC AL with the carry set. */
  lemma IncCarryMisjudged()
    ensures Misjudged([Instr(X86.INC, [Reg(X86.RAX, W8)])], X86.JB, At3(1, 0, 0, true))
  {
    hide Misjudged, X86.Execute;
    var di, x := Instr(X86.INC, [Reg(X86.RAX, W8)]), At3(1, 0, 0, true);
    MisjudgedBehind(di, X86.JB, x);
  }

  /** AH of 0x0100 is read as 0. */
  lemma HighByteMisread()
    ensures var x, o := At3(0x100, 0, 0, false), ReadReg(X86.High(X86.RAX), START.e);
            Val(o.v, o.e.Run(StateOf(x))) == 0 && X86.ReadReg(x, X86.High(X86.RAX)) == 1
  {
    hide ReadReg, Exec, StateOf, Related;
    StartsAt(At3(0x100, 0, 0, false));
    HighByteReadExact(X86.RAX, START.e, StateOf(At3(0x100, 0, 0, false)), At3(0x100, 0, 0, false));
  }

  /** [RIP + 8] in front of address 0x1004 comes out as 16 and should be 0x100C. */
  lemma RipRelativeMisplaced(x: X86.Machine)
    ensures var m := X86.MemOp(X86.RIP, X86.NoRegister, 1, true, 8, 64);
            var p := ComputeAddr(m, START.e);
            Val(p.v, p.e.Run(StateOf(x))) == 16 && Wrap(Instr(X86.MOV, []).End() + m.disp, W64) == 0x100C
  {
    hide ComputeAddr, Exec, StateOf, Related;
    StartsAt(x);
    RipRelativeExact(X86.MemOp(X86.RIP, X86.NoRegister, 1, true, 8, 64), 0x1004, START.e, StateOf(x));
  }
}
