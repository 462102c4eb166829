/** The x86-64 instructions the lifter accepts, with their reference meaning as the Intel SDM
    gives it: Vol. 1, sections 3.4.1.1 (general-purpose registers in 64-bit mode) and 3.4.3.1
    (status flags), and Appendix B (condition codes). */
module X86 {
  import opened Wrappers
  import opened Bits

  datatype Gpr =
    | RAX | RBX | RCX | RDX | RSI | RDI | RSP | RBP
    | R8 | R9 | R10 | R11 | R12 | R13 | R14 | R15

  /** Gp is the low part of a register at some width; High is AH, BH, CH or DH. */
  datatype Register = Gp(g: Gpr, w: Width) | High(g: Gpr) | RIP | NoRegister | Untracked

  /** Immediates are signed 64-bit numbers; sizes are in bits, as encoded. */
  datatype Operand =
    | RegOp(r: Register)
    | ImmOp(value: int, relative: bool, size: nat)
    | MemOp(base: Register, index: Register, scale: nat, hasDisp: bool, disp: int, size: nat)
    | NoOperand

  datatype Mnemonic =
    | NOP | MOV | MOVZX | MOVSX | ADD | SUB | IMUL | AND | OR | XOR | NOT | NEG | INC | DEC | CMP | TEST
    | JMP | CALL | RET | RETF
    | JB | JBE | JL | JLE | JNB | JNBE | JNL | JNLE | JNO | JNP | JNS | JNZ | JO | JP | JS | JZ
    | LOOP | LOOPE | LOOPNE
    | LEA | DIV | IDIV | SHL | SHR | SAR
    | UNHANDLED

  datatype DecodedInstr = DecodedInstr(va: U64, length: nat, mnemonic: Mnemonic, ops: seq<Operand>) {
    /** The k-th visible operand; operands that are not there are unused. */
    function Op(k: nat): (op: Operand)
      ensures k >= |ops| ==> op.NoOperand?
    {
      if k < |ops| then ops[k] else NoOperand
    }

    /** The address right after the instruction. */
    function End(): U64 {
      (va + length) % TWO64
    }

    /** The target named by the first PC-relative immediate from operand k on. */
    function RelativeTarget(k: nat): Option<U64>
      decreases |ops| - k
    {
      if k >= |ops| then None
      else if ops[k].ImmOp? && ops[k].relative then Some((End() + ops[k].value) % TWO64)
      else RelativeTarget(k + 1)
    }

    /** The direct branch target, or 0 when there is none. */
    function DirectTarget(): U64 {
      match RelativeTarget(0)
      case None => 0
      case Some(target) => target
    }
  }

  // ----- machine state -----

  /** Some instructions leave a flag undefined. */
  datatype FlagBit = Is(b: bool) | Undefined

  datatype Eflags = Eflags(zf: FlagBit, sf: FlagBit, cf: FlagBit, ovf: FlagBit)

  datatype Machine = Machine(regs: map<Gpr, U64>, mem: Mem, flags: Eflags, rip: U64) {
    function Reg(g: Gpr): U64 { if g in regs then regs[g] else 0 }
  }

  function ReadReg(x: Machine, r: Register): nat {
    match r
    case Gp(g, w) => Wrap(x.Reg(g), w)
    case High(g) => x.Reg(g) / 256 % 256
    case _ => 0
  }

  /** 64-bit writes replace the register, 32-bit writes clear its upper half, narrower writes
      keep every other bit. */
  function WriteReg(x: Machine, r: Register, v: nat): (y: Machine)
    requires r.Gp? ==> Fits(v, r.w)
    requires r.High? ==> v < 256
  {
    match r
    case Gp(g, W64) => x.(regs := x.regs[g := v])
    case Gp(g, W32) => x.(regs := x.regs[g := v])
    case Gp(g, w) => x.(regs := x.regs[g := x.Reg(g) - Wrap(x.Reg(g), w) + v])
    case High(g) => x.(regs := x.regs[g := x.Reg(g) - x.Reg(g) / 256 % 256 * 256 + v * 256])
    case _ => x
  }

  /** Base plus scaled index plus displacement, before any wrap-around. */
  function AddressSum(x: Machine, m: Operand): int
    requires m.MemOp?
  {
    ReadReg(x, m.base) + ReadReg(x, m.index) * m.scale + (if m.hasDisp then m.disp else 0)
  }

  /** Registers of 32 bits in the operand select 32-bit addresses. */
  function AddressWidth(m: Operand): Width
    requires m.MemOp?
  {
    if (m.base.Gp? && m.base.w != W64) || (m.index.Gp? && m.index.w != W64) then W32 else W64
  }

  function Address(x: Machine, m: Operand): U64
    requires m.MemOp?
  {
    Wrap(AddressSum(x, m), AddressWidth(m))
  }

  /** Reading an operand at the operand size. */
  function ReadOp(x: Machine, op: Operand, w: Width): (v: nat)
    ensures Fits(v, w)
  {
    match op
    case RegOp(r) => Wrap(ReadReg(x, r), w)
    case ImmOp(v, _, _) => Wrap(v, w)
    case MemOp(_, _, _, _, _, _) =>
      ModulusIsPow2(w);
      LoadLE(x.mem, Address(x, op), Bytes(w))
    case NoOperand => 0
  }

  function WriteOp(x: Machine, op: Operand, w: Width, v: nat): Machine
    requires Fits(v, w)
    requires op.RegOp? ==> op.r.Gp? && op.r.w == w
  {
    match op
    case RegOp(r) => WriteReg(x, r, v)
    case MemOp(_, _, _, _, _, _) => x.(mem := StoreLE(x.mem, Address(x, op), v, Bytes(w)))
    case _ => x
  }

  // ----- status flags -----

  predicate InSignedRange(v: int, w: Width) {
    0 - Half(w) <= v < Half(w)
  }

  function ResultFlags(r: nat, w: Width, cf: FlagBit, ovf: FlagBit): Eflags {
    Eflags(Is(r == 0), Is(Signed(r, w) < 0), cf, ovf)
  }

  function AddFlags(a: nat, b: nat, w: Width): Eflags {
    ResultFlags(Wrap(a + b, w), w, Is(a + b >= Modulus(w)), Is(!InSignedRange(Signed(a, w) + Signed(b, w), w)))
  }

  function SubFlags(a: nat, b: nat, w: Width): Eflags {
    ResultFlags(Wrap(a - b, w), w, Is(a < b), Is(!InSignedRange(Signed(a, w) - Signed(b, w), w)))
  }

  function LogicFlags(r: nat, w: Width): Eflags {
    ResultFlags(r, w, Is(false), Is(false))
  }

  /** INC and DEC leave the carry alone. */
  function IncFlags(a: nat, w: Width, before: Eflags): Eflags {
    AddFlags(a, 1, w).(cf := before.cf)
  }

  function DecFlags(a: nat, w: Width, before: Eflags): Eflags {
    SubFlags(a, 1, w).(cf := before.cf)
  }

  function ImulFlags(a: nat, b: nat, w: Width): Eflags {
    var over := !InSignedRange(Signed(a, w) * Signed(b, w), w);
    Eflags(Undefined, Undefined, Is(over), Is(over))
  }

  /** Appendix B: what each conditional jump tests. */
  predicate Taken(m: Mnemonic, f: Eflags) {
    match m
    case JZ => f.zf == Is(true)
    case JNZ => f.zf != Is(true)
    case JS => f.sf == Is(true)
    case JNS => f.sf != Is(true)
    case JO => f.ovf == Is(true)
    case JNO => f.ovf != Is(true)
    case JB => f.cf == Is(true)
    case JNB => f.cf != Is(true)
    case JBE => f.cf == Is(true) || f.zf == Is(true)
    case JNBE => f.cf != Is(true) && f.zf != Is(true)
    case JL => f.sf != f.ovf
    case JNL => f.sf == f.ovf
    case JLE => f.zf == Is(true) || f.sf != f.ovf
    case JNLE => f.zf != Is(true) && f.sf == f.ovf
    case _ => false
  }

  /** Jumps, calls, returns and loops: the instructions behind which control may go elsewhere
      (Intel SDM Vol. 1, section 7.3.8). */
  const TRANSFERS: set<Mnemonic> :=
    {JMP, CALL, RET, RETF, JB, JBE, JL, JLE, JNB, JNBE, JNL, JNLE, JNO, JNP, JNS, JNZ, JO, JP, JS, JZ, LOOP, LOOPE, LOOPNE}

  /** Instructions that end a straight line. */
  predicate IsControlFlow(m: Mnemonic) {
    IsJcc(m) || m in {JMP, CALL, RET, RETF, JP, JNP, LOOP, LOOPE, LOOPNE}
  }

  lemma ControlFlowTransfers(m: Mnemonic)
    ensures IsControlFlow(m) <==> m in TRANSFERS
  {
  }

  predicate IsJcc(m: Mnemonic) {
    m in {JB, JBE, JL, JLE, JNB, JNBE, JNL, JNLE, JNO, JNS, JNZ, JO, JS, JZ}
  }

  // ----- instruction forms -----

  /** An address made of general-purpose registers of any width. */
  predicate RegisterAddress(m: Operand) {
    && m.MemOp?
    && (m.base.NoRegister? || m.base.Gp?) && (m.index.NoRegister? || m.index.Gp?)
    && m.scale in {1, 2, 4, 8}
  }

  /** A 64-bit address: base and index, when there, are full registers. */
  predicate PlainAddress(m: Operand) {
    && m.MemOp?
    && (m.base.NoRegister? || (m.base.Gp? && m.base.w == W64))
    && (m.index.NoRegister? || (m.index.Gp? && m.index.w == W64))
    && m.scale in {1, 2, 4, 8}
  }

  /** The operand is readable at width w; immediates are sign-extended to it. */
  predicate SourceAt(op: Operand, w: Width) {
    match op
    case RegOp(r) => r.Gp? && r.w == w
    case ImmOp(_, relative, _) => !relative
    case MemOp(_, _, _, _, _, size) => PlainAddress(op) && size == BitCount(w)
    case NoOperand => false
  }

  predicate DestAt(op: Operand, w: Width) {
    !op.ImmOp? && SourceAt(op, w)
  }

  /** The operand size of an instruction, which its first operand carries. */
  function OperandWidth(op: Operand): Width {
    match op
    case RegOp(Gp(_, w)) => w
    case RegOp(High(_)) => W8
    case MemOp(_, _, _, _, _, size) => if size == 8 then W8 else if size == 16 then W16 else if size == 32 then W32 else W64
    case _ => W64
  }

  predicate TwoOperand(di: DecodedInstr) {
    && |di.ops| == 2
    && DestAt(di.Op(0), OperandWidth(di.Op(0)))
    && SourceAt(di.Op(1), OperandWidth(di.Op(0)))
    && (di.Op(0).MemOp? ==> !di.Op(1).MemOp?)
  }

  predicate OneRegister(di: DecodedInstr) {
    |di.ops| == 1 && di.Op(0).RegOp? && di.Op(0).r.Gp?
  }

  /** The forms whose lifting is claimed to be exact: no AH family, no RIP-relative or 32-bit
      addresses, one-operand instructions on registers only. */
  predicate Supported(di: DecodedInstr) {
    match di.mnemonic
    case NOP => true
    case MOV => TwoOperand(di) && (di.Op(0).MemOp? && di.Op(1).ImmOp? ==> di.Op(1).size == di.Op(0).size)
    case ADD | SUB | AND | OR | XOR | CMP | TEST => TwoOperand(di)
    case MOVZX =>
      && |di.ops| == 2 && di.Op(0).RegOp? && di.Op(0).r.Gp?
      && (SourceAt(di.Op(1), W8) || SourceAt(di.Op(1), W16)) && !di.Op(1).ImmOp?
      && BitCount(OperandWidth(di.Op(1))) < BitCount(di.Op(0).r.w)
    case MOVSX =>
      && |di.ops| == 2 && di.Op(0).RegOp? && di.Op(0).r.Gp?
      && (SourceAt(di.Op(1), W8) || SourceAt(di.Op(1), W16) || SourceAt(di.Op(1), W32)) && !di.Op(1).ImmOp?
      && BitCount(OperandWidth(di.Op(1))) < BitCount(di.Op(0).r.w)
    case NOT | NEG | INC | DEC => OneRegister(di)
    case IMUL =>
      && (|di.ops| == 2 || |di.ops| == 3)
      && di.Op(0).RegOp? && di.Op(0).r.Gp?
      && SourceAt(di.Op(1), di.Op(0).r.w)
      && (|di.ops| == 3 ==> SourceAt(di.Op(2), di.Op(0).r.w))
    case _ => false
  }

  function Alu(m: Mnemonic, a: nat, b: nat, w: Width): (r: nat)
    requires Fits(a, w) && Fits(b, w)
    ensures Fits(r, w)
  {
    BitwiseFits(a, b, w);
    match m
    case ADD => Wrap(a + b, w)
    case SUB | CMP => Wrap(a - b, w)
    case AND | TEST => BitAnd(a, b)
    case OR => BitOr(a, b)
    case XOR => BitXor(a, b)
    case _ => 0
  }

  function AluFlags(m: Mnemonic, a: nat, b: nat, w: Width): Eflags
    requires Fits(a, w) && Fits(b, w)
  {
    match m
    case ADD => AddFlags(a, b, w)
    case SUB | CMP => SubFlags(a, b, w)
    case _ => LogicFlags(Alu(m, a, b, w), w)
  }

  /** The effect of a supported instruction on registers, memory and flags. */
  function Execute(di: DecodedInstr, x: Machine): Machine
    requires Supported(di)
  {
    var w := OperandWidth(di.Op(0));
    match di.mnemonic
    case MOV => WriteOp(x, di.Op(0), w, ReadOp(x, di.Op(1), w))
    case MOVZX => WriteReg(x, di.Op(0).r, ReadOp(x, di.Op(1), OperandWidth(di.Op(1))))
    case MOVSX =>
      var from := OperandWidth(di.Op(1));
      WriteReg(x, di.Op(0).r, Wrap(Signed(ReadOp(x, di.Op(1), from), from), di.Op(0).r.w))
    case ADD | SUB | AND | OR | XOR =>
      var a, b := ReadOp(x, di.Op(0), w), ReadOp(x, di.Op(1), w);
      WriteOp(x, di.Op(0), w, Alu(di.mnemonic, a, b, w)).(flags := AluFlags(di.mnemonic, a, b, w))
    case CMP | TEST =>
      x.(flags := AluFlags(di.mnemonic, ReadOp(x, di.Op(0), w), ReadOp(x, di.Op(1), w), w))
    case NOT => WriteOp(x, di.Op(0), w, Modulus(w) - 1 - ReadOp(x, di.Op(0), w))
    case NEG =>
      var a := ReadOp(x, di.Op(0), w);
      WriteOp(x, di.Op(0), w, Wrap(0 - a, w)).(flags := SubFlags(0, a, w))
    case INC =>
      var a := ReadOp(x, di.Op(0), w);
      WriteOp(x, di.Op(0), w, Wrap(a + 1, w)).(flags := IncFlags(a, w, x.flags))
    case DEC =>
      var a := ReadOp(x, di.Op(0), w);
      WriteOp(x, di.Op(0), w, Wrap(a - 1, w)).(flags := DecFlags(a, w, x.flags))
    case IMUL =>
      var k := if |di.ops| == 2 then 0 else 1;
      var a, b := ReadOp(x, di.Op(k), w), ReadOp(x, di.Op(k + 1), w);
      WriteOp(x, di.Op(0), w, Wrap(Signed(a, w) * Signed(b, w), w)).(flags := ImulFlags(a, b, w))
    case _ => x
  }

  predicate AllSupported(instrs: seq<DecodedInstr>) {
    forall k :: 0 <= k < |instrs| ==> Supported(instrs[k])
  }

  /** Straight-line execution. */
  function ExecuteAll(instrs: seq<DecodedInstr>, x: Machine): Machine
    requires AllSupported(instrs)
  {
    if instrs == [] then x
    else Execute(instrs[|instrs| - 1], ExecuteAll(instrs[..|instrs| - 1], x))
  }

  predicate IsDirectJump(di: DecodedInstr) {
    (IsJcc(di.mnemonic) || di.mnemonic.JMP?) && di.RelativeTarget(0).Some?
  }

  /** Instructions whose whole effect, instruction pointer included, is modelled. */
  predicate Steppable(di: DecodedInstr) {
    Supported(di) || IsDirectJump(di)
  }

  /** One instruction with the instruction pointer. */
  function StepInstr(di: DecodedInstr, x: Machine): Machine
    requires Steppable(di)
  {
    if IsJcc(di.mnemonic) then x.(rip := if Taken(di.mnemonic, x.flags) then di.DirectTarget() else di.End())
    else if di.mnemonic.JMP? then x.(rip := di.DirectTarget())
    else Execute(di, x).(rip := di.End())
  }

  /** The machine gets from x to y by n instructions of the program. */
  ghost predicate RunsTo(program: seq<DecodedInstr>, x: Machine, n: nat, y: Machine)
    decreases n
  {
    if n == 0 then x == y
    else exists k :: 0 <= k < |program| && program[k].va == x.rip && Steppable(program[k])
                     && RunsTo(program, StepInstr(program[k], x), n - 1, y)
  }

  // ----- one-operand multiplication, division, shifts -----

  /** IMUL with one 64-bit operand: RDX and RAX take the halves of the signed product. */
  function WideImul(x: Machine, b: nat): Machine
    requires Fits(b, W64)
  {
    var product := Signed(x.Reg(RAX), W64) * Signed(b, W64);
    var low := Wrap(product, W64);
    x.(regs := x.regs[RAX := low][RDX := Wrap((product - low) / TWO64, W64)], flags := ImulFlags(x.Reg(RAX), b, W64))
  }

  /** The 128-bit dividend of DIV and IDIV with a 64-bit operand. */
  function Dividend(x: Machine, signed: bool): int {
    (if signed then Signed(x.Reg(RDX), W64) else x.Reg(RDX)) * TWO64 + x.Reg(RAX)
  }

  function Abs(v: int): nat { if v < 0 then 0 - v else v }

  /** q and r are quotient and remainder of a division that truncates towards zero. */
  predicate Divides(n: int, d: int, q: int, r: int) {
    n == q * d + r && Abs(r) < Abs(d) && (r == 0 || (r < 0 <==> n < 0))
  }

  /** DIV or IDIV by b raises no exception and yields q and r. */
  predicate Divided(x: Machine, signed: bool, b: nat, q: int, r: int) {
    var d := if signed then Signed(b, W64) else b;
    && d != 0 && Divides(Dividend(x, signed), d, q, r)
    && if signed then InSignedRange(q, W64) else 0 <= q < TWO64
  }

  /** A shift by c bits. */
  function Shifted(m: Mnemonic, a: nat, w: Width, c: nat): nat {
    match m
    case SHL => Wrap(a * Pow2(c), w)
    case SHR => Wrap(a / Pow2(c), w)
    case _ => Wrap(Signed(a, w) / Pow2(c), w)
  }

  /** The processor uses the low five bits of the count, six with a 64-bit operand. */
  function MaskedCount(n: nat, w: Width): nat {
    if w == W64 then n % 64 else n % 32
  }

  /** The bit shifted out last; undefined for counts from the width on, except by SAR. */
  function ShiftCarry(m: Mnemonic, a: nat, w: Width, c: nat): FlagBit
    requires c > 0
  {
    match m
    case SHL => if c < BitCount(w) then Is(a / Pow2(BitCount(w) - c) % 2 == 1) else Undefined
    case SHR => if c < BitCount(w) then Is(a / Pow2(c - 1) % 2 == 1) else Undefined
    case _ => Is(Signed(a, w) / Pow2(c - 1) % 2 == 1)
  }

  /** The overflow of a shift by one bit; undefined for other counts. */
  function ShiftOverflow(m: Mnemonic, a: nat, w: Width, c: nat): FlagBit
    requires c > 0
  {
    if c != 1 then Undefined
    else match m
         case SHL => Is((Signed(Shifted(m, a, w, 1), w) < 0) != (Signed(a, w) < 0))
         case SHR => Is(Signed(a, w) < 0)
         case _ => Is(false)
  }

  /** A count of zero keeps the flags. */
  function ShiftFlags(m: Mnemonic, a: nat, w: Width, c: nat, before: Eflags): Eflags {
    if c == 0 then before
    else
      var r := Shifted(m, a, w, c);
      Eflags(Is(r == 0), Is(Signed(r, w) < 0), ShiftCarry(m, a, w, c), ShiftOverflow(m, a, w, c))
  }
}
