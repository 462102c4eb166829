/** The general laws of jumps, case by case: what each of the fourteen jumps decides right behind an
    instruction, a readable condition for it to be right, and an input on which it is wrong. */
module JumpCases {
  import opened Wrappers
  import opened Bits
  import opened IR
  import opened Flags
  import opened Lifter
  import X86
  import opened FlagArithmetic
  import opened Simulation
  import opened LiftMeans
  import opened FlagLaws
  import opened JumpLaws

  // ----- one instruction, then a jump -----

  lemma OneInstr(di: DecodedInstr, names: map<U64, string>, l: Lifted, x: X86.Machine)
    requires X86.Supported(di)
    ensures X86.AllSupported([di]) && X86.AllSupported([di][..0])
    ensures X86.ExecuteAll([di], x) == X86.Execute(di, x) && X86.ExecuteAll([di][..0], x) == x
    ensures LiftAll([di], names, l) == LiftInstr(di, names, l)
  {
    hide X86.Supported, X86.Execute, LiftInstr;
    assert [di][..0] == [];
  }

  lemma JumpBehind(di: DecodedInstr, m: X86.Mnemonic, names: map<U64, string>, l: Lifted, s: State, x: X86.Machine)
    requires At(l.e, s, x) && X86.Supported(di) && SetsFlags(di.mnemonic) && X86.IsJcc(m)
    ensures FlagRequestForJcc(m).Some?
    ensures var l2 := LiftInstr(di, names, l);
            Yields(l2.e, Materialise(l2.f, FlagRequestForJcc(m).value, l2.e), s,
                   X86.Taken(m, LazyFlags(FlagOpOf(di), Remembered(di, x, X86.Execute(di, x)), ResultOf(di, x), X86.OperandWidth(di.Op(0)))))
  {
    hide X86.Supported, X86.Execute, At, LiftAll, LiftInstr, Materialise, Yields, LazyFlags, X86.Taken, ResultOf, FlagOpOf, Remembered;
    OneInstr(di, names, l, x);
    LastSetIs([di], 0, x, None);
    JumpDecides([di], None, m, names, l, s, x);
  }

  /** Right behind an instruction, a remembered register holds the result if the instruction wrote it,
      and the operand if it did not. */
  lemma RememberedNow(di: DecodedInstr, x: X86.Machine)
    requires X86.Supported(di) && di.mnemonic in {X86.ADD, X86.SUB, X86.CMP, X86.INC, X86.DEC}
    ensures Remembered(di, x, X86.Execute(di, x)) ==
            if CapturedByName(di.Op(0)) && !di.mnemonic.CMP? then ResultOf(di, x)
            else X86.ReadOp(x, di.Op(0), X86.OperandWidth(di.Op(0)))
  {
    hide X86.AluFlags, X86.IncFlags, X86.DecFlags, X86.Alu, LoadLE, StoreLE;
  }

  // ----- ADD, SUB, CMP -----

  /** What a jump decides after a sum or difference with result r when v is remembered. */
  predicate DifferenceJump(isSub: bool, m: X86.Mnemonic, v: nat, r: nat, w: Width) {
    match m
    case JZ => r == 0
    case JNZ => r != 0
    case JS => Signed(r, w) < 0
    case JNS => Signed(r, w) >= 0
    case JB => if isSub then r > v else r < v
    case JNB => if isSub then r <= v else r >= v
    case JBE => r == 0 || (if isSub then r > v else r < v)
    case JNBE => r != 0 && (if isSub then r <= v else r >= v)
    case JO => SignChanged(v, r, w)
    case JNO => !SignChanged(v, r, w)
    case JL => Signed(v, w) < 0
    case JNL => Signed(v, w) >= 0
    case JLE => r == 0 || Signed(v, w) < 0
    case JNLE => r != 0 && Signed(v, w) >= 0
    case _ => false
  }

  lemma DifferenceTable(isSub: bool, m: X86.Mnemonic, v: nat, r: nat, w: Width)
    requires X86.IsJcc(m)
    ensures X86.Taken(m, LazyFlags(DifferenceOp(isSub), v, r, w)) == DifferenceJump(isSub, m, v, r, w)
  {
    hide Signed;
  }

  /** Behind any straight line whose last flag-setting instruction is ADD, SUB or CMP: the jump compares
      the result with whatever the remembered operand has become. */
  lemma StaleThenJump(instrs: seq<DecodedInstr>, k: nat, m: X86.Mnemonic, names: map<U64, string>, l: Lifted, s: State, x: X86.Machine)
    requires At(l.e, s, x) && X86.AllSupported(instrs) && LastSetter(instrs, k) && X86.IsJcc(m)
    requires instrs[k].mnemonic in {X86.ADD, X86.SUB, X86.CMP}
    ensures X86.AllSupported(instrs[..k]) && FlagRequestForJcc(m).Some?
    ensures var di, x1, y, l2 := instrs[k], X86.ExecuteAll(instrs[..k], x), X86.ExecuteAll(instrs, x), LiftAll(instrs, names, l);
            Yields(l2.e, Materialise(l2.f, FlagRequestForJcc(m).value, l2.e), s,
                   DifferenceJump(!di.mnemonic.ADD?, m, Remembered(di, x1, y), ResultOf(di, x1), X86.OperandWidth(di.Op(0))))
  {
    hide X86.Supported, X86.Execute, At, LiftAll, Materialise, Yields, LazyFlags, X86.Taken, DifferenceJump, ResultOf, Remembered, SetsFlags;
    LastSetIs(instrs, k, x, None);
    JumpDecides(instrs, None, m, names, l, s, x);
    var di, x1, y := instrs[k], X86.ExecuteAll(instrs[..k], x), X86.ExecuteAll(instrs, x);
    DifferenceTable(!di.mnemonic.ADD?, m, Remembered(di, x1, y), ResultOf(di, x1), X86.OperandWidth(di.Op(0)));
  }

  /** ADD and SUB whose first operand was read into a temporary: 8-, 16- and 32-bit registers and all
      memory destinations. */
  lemma PlainAluThenJump(di: DecodedInstr, m: X86.Mnemonic, names: map<U64, string>, l: Lifted, s: State, x: X86.Machine)
    requires At(l.e, s, x) && X86.Supported(di) && di.mnemonic in {X86.ADD, X86.SUB} && X86.IsJcc(m)
    requires !CapturedByName(di.Op(0))
    ensures FlagRequestForJcc(m).Some?
    ensures var w, l2 := X86.OperandWidth(di.Op(0)), LiftInstr(di, names, l);
            Yields(l2.e, Materialise(l2.f, FlagRequestForJcc(m).value, l2.e), s,
                   DifferenceJump(di.mnemonic.SUB?, m, X86.ReadOp(x, di.Op(0), w), ResultOf(di, x), w))
  {
    hide X86.Supported, X86.Execute, At, LiftInstr, Materialise, Yields, LazyFlags, X86.Taken, DifferenceJump, ResultOf, Remembered;
    JumpBehind(di, m, names, l, s, x);
    RememberedNow(di, x);
    DifferenceTable(di.mnemonic.SUB?, m, X86.ReadOp(x, di.Op(0), X86.OperandWidth(di.Op(0))), ResultOf(di, x), X86.OperandWidth(di.Op(0)));
  }

  /** Such jumps are right always, except that the signed and overflow ones need the first operand to
      have the sign of the unbounded result. */
  lemma PlainAluExact(isSub: bool, m: X86.Mnemonic, a: nat, b: nat, w: Width)
    requires Fits(a, w) && Fits(b, w) && X86.IsJcc(m)
    ensures var r := Difference(isSub, a, b, w);
            (DifferenceJump(isSub, m, a, r, w) <==> X86.Taken(m, DifferenceFlags(isSub, a, b, w)))
            <==> Agrees(m, r == 0, true, Signed(a, w) < 0 <==> Below0(isSub, a, b, w))
  {
    DifferenceTable(isSub, m, a, Difference(isSub, a, b, w), w);
    DifferenceExact(isSub, m, a, b, a, w);
    CarryPlain(isSub, a, b, w);
    hide DifferenceJump, X86.Taken, DifferenceFlags, Difference, LazyFlags, Below0, CarryRight;
  }

  /** The condition emitted for each jump right after CMP. */
  lemma CompareThenJump(di: DecodedInstr, m: X86.Mnemonic, names: map<U64, string>, l: Lifted, s: State, x: X86.Machine)
    requires At(l.e, s, x) && X86.Supported(di) && di.mnemonic.CMP? && X86.IsJcc(m)
    ensures FlagRequestForJcc(m).Some?
    ensures var w, l2 := X86.OperandWidth(di.Op(0)), LiftInstr(di, names, l);
            Yields(l2.e, Materialise(l2.f, FlagRequestForJcc(m).value, l2.e), s,
                   CompareJump(m, X86.ReadOp(x, di.Op(0), w), X86.ReadOp(x, di.Op(1), w), w))
  {
    hide X86.Supported, X86.Execute, At, LiftInstr, Materialise, Yields, LazyFlags, X86.Taken, CompareJump, Remembered, X86.ReadOp;
    var w := X86.OperandWidth(di.Op(0));
    var a, b := X86.ReadOp(x, di.Op(0), w), X86.ReadOp(x, di.Op(1), w);
    JumpBehind(di, m, names, l, s, x);
    RememberedNow(di, x);
    CompareTable(m, a, b, w);
  }

  lemma CompareTable(m: X86.Mnemonic, a: nat, b: nat, w: Width)
    requires X86.IsJcc(m) && Fits(a, w) && Fits(b, w)
    ensures X86.Taken(m, LazyFlags(FlagOp.SUB, a, Wrap(a - b, w), w)) == CompareJump(m, a, b, w)
  {
    DifferenceTable(true, m, a, Wrap(a - b, w), w);
    BorrowOfSub(a, b, w);
    ZeroDifference(a, b, w);
    hide Wrap, Signed, LazyFlags;
  }

  /** The condition emitted right after a 64-bit register ADD or SUB, whose first operand has become the result. */
  lemma NamedThenJump(di: DecodedInstr, m: X86.Mnemonic, names: map<U64, string>, l: Lifted, s: State, x: X86.Machine)
    requires At(l.e, s, x) && X86.Supported(di) && di.mnemonic in {X86.ADD, X86.SUB} && X86.IsJcc(m)
    requires CapturedByName(di.Op(0))
    ensures FlagRequestForJcc(m).Some?
    ensures var l2 := LiftInstr(di, names, l);
            Yields(l2.e, Materialise(l2.f, FlagRequestForJcc(m).value, l2.e), s,
                   NamedJump(m, X86.Alu(di.mnemonic, X86.ReadOp(x, di.Op(0), W64), X86.ReadOp(x, di.Op(1), W64), W64)))
  {
    hide X86.Supported, X86.Execute, At, LiftInstr, Materialise, Yields, LazyFlags, X86.Taken, NamedJump, Remembered, X86.ReadOp, X86.Alu;
    JumpBehind(di, m, names, l, s, x);
    RememberedNow(di, x);
    NamedTable(FlagOpOf(di), m, ResultOf(di, x));
  }

  lemma NamedTable(op: FlagOp, m: X86.Mnemonic, r: nat)
    requires X86.IsJcc(m) && op in {FlagOp.ADD, FlagOp.SUB}
    ensures X86.Taken(m, LazyFlags(op, r, r, W64)) == NamedJump(m, r)
  {
    hide Signed;
  }

  // ----- NEG -----

  /** After NEG the carry is right, but the first operand is remembered as 0. */
  predicate NegJump(m: X86.Mnemonic, a: nat, w: Width) {
    match m
    case JZ | JNB | JLE => a == 0
    case JNZ | JB | JNLE => a != 0
    case JS | JO => Signed(Wrap(0 - a, w), w) < 0
    case JNS | JNO => Signed(Wrap(0 - a, w), w) >= 0
    case JBE | JNL => true
    case _ => false
  }

  lemma NegThenJump(di: DecodedInstr, m: X86.Mnemonic, names: map<U64, string>, l: Lifted, s: State, x: X86.Machine)
    requires At(l.e, s, x) && X86.Supported(di) && di.mnemonic.NEG? && X86.IsJcc(m)
    ensures FlagRequestForJcc(m).Some?
    ensures var w, l2 := X86.OperandWidth(di.Op(0)), LiftInstr(di, names, l);
            Yields(l2.e, Materialise(l2.f, FlagRequestForJcc(m).value, l2.e), s, NegJump(m, X86.ReadOp(x, di.Op(0), w), w))
  {
    hide X86.Supported, X86.Execute, At, LiftInstr, Materialise, Yields, LazyFlags, X86.Taken, NegJump, X86.ReadOp;
    JumpBehind(di, m, names, l, s, x);
    NegTable(m, X86.ReadOp(x, di.Op(0), X86.OperandWidth(di.Op(0))), X86.OperandWidth(di.Op(0)));
  }

  lemma NegTable(m: X86.Mnemonic, a: nat, w: Width)
    requires X86.IsJcc(m) && Fits(a, w)
    ensures X86.Taken(m, LazyFlags(FlagOp.SUB, 0, Wrap(0 - a, w), w)) == NegJump(m, a, w)
  {
    ZeroDifference(0, a, w);
    assert Signed(0, w) == 0;
    hide Wrap, Signed;
  }

  /** A jump after NEG is right exactly when it does not depend on the overflow or the operand is not positive. */
  lemma NegJumpExact(m: X86.Mnemonic, a: nat, w: Width)
    requires X86.IsJcc(m) && Fits(a, w)
    ensures (NegJump(m, a, w) <==> X86.Taken(m, X86.SubFlags(0, a, w))) <==> Agrees(m, a == 0, true, Signed(a, w) <= 0)
  {
    NegTable(m, a, w);
    NegExact(m, a, w);
    ZeroDifference(0, a, w);
    hide NegJump, X86.Taken, X86.SubFlags, LazyFlags, Wrap;
  }

  // ----- logic and IMUL -----

  /** What a jump decides when carry and overflow read as clear. */
  predicate ClearJump(m: X86.Mnemonic, r: nat, w: Width) {
    match m
    case JZ | JBE => r == 0
    case JNZ | JNBE => r != 0
    case JS | JL => Signed(r, w) < 0
    case JNS | JNL => Signed(r, w) >= 0
    case JLE => r == 0 || Signed(r, w) < 0
    case JNLE => r != 0 && Signed(r, w) >= 0
    case JNB | JNO => true
    case _ => false
  }

  lemma ClearTable(op: FlagOp, m: X86.Mnemonic, v: nat, r: nat, w: Width)
    requires X86.IsJcc(m) && op in {FlagOp.AND, FlagOp.OR, FlagOp.XOR, FlagOp.IMUL, FlagOp.SHL, FlagOp.SHR, FlagOp.SAR}
    ensures X86.Taken(m, LazyFlags(op, v, r, w)) == ClearJump(m, r, w)
  {
    hide Signed;
  }

  /** After AND, OR, XOR and TEST the signed jumps decide the sign of the result, the others zero and
      clear carry and overflow; all of that is what the processor decides. */
  lemma LogicThenJump(di: DecodedInstr, m: X86.Mnemonic, names: map<U64, string>, l: Lifted, s: State, x: X86.Machine)
    requires At(l.e, s, x) && X86.Supported(di) && di.mnemonic in {X86.AND, X86.OR, X86.XOR, X86.TEST} && X86.IsJcc(m)
    ensures FlagRequestForJcc(m).Some?
    ensures var w, l2 := X86.OperandWidth(di.Op(0)), LiftInstr(di, names, l);
            && Yields(l2.e, Materialise(l2.f, FlagRequestForJcc(m).value, l2.e), s, ClearJump(m, ResultOf(di, x), w))
            && ClearJump(m, ResultOf(di, x), w) == X86.Taken(m, X86.Execute(di, x).flags)
  {
    hide X86.Supported, X86.Execute, At, LiftInstr, Materialise, Yields, LazyFlags, X86.Taken, ClearJump, ResultOf, Remembered;
    JumpBehind(di, m, names, l, s, x);
    LazyFlagsExact(di, m, x, X86.Execute(di, x));
    ClearTable(FlagOpOf(di), m, Remembered(di, x, X86.Execute(di, x)), ResultOf(di, x), X86.OperandWidth(di.Op(0)));
  }

  lemma ImulThenJump(di: DecodedInstr, m: X86.Mnemonic, names: map<U64, string>, l: Lifted, s: State, x: X86.Machine)
    requires At(l.e, s, x) && X86.Supported(di) && di.mnemonic.IMUL? && X86.IsJcc(m)
    ensures FlagRequestForJcc(m).Some?
    ensures var w, l2 := X86.OperandWidth(di.Op(0)), LiftInstr(di, names, l);
            Yields(l2.e, Materialise(l2.f, FlagRequestForJcc(m).value, l2.e), s, ClearJump(m, ResultOf(di, x), w))
  {
    hide X86.Supported, X86.Execute, At, LiftInstr, Materialise, Yields, LazyFlags, X86.Taken, ClearJump, ResultOf, Remembered;
    JumpBehind(di, m, names, l, s, x);
    ClearTable(FlagOp.IMUL, m, Remembered(di, x, X86.Execute(di, x)), ResultOf(di, x), X86.OperandWidth(di.Op(0)));
  }

  // ----- INC and DEC -----

  /** After a step from a that was read into a temporary: carry clear, overflow right. */
  predicate StepJump(isDec: bool, m: X86.Mnemonic, a: nat, w: Width) {
    var v, r := Stepped(isDec, Signed(a, w)), Wrap(Stepped(isDec, a), w);
    match m
    case JL => v < 0
    case JNL => v >= 0
    case JLE => v <= 0
    case JNLE => v > 0
    case JO => !X86.InSignedRange(v, w)
    case JNO => X86.InSignedRange(v, w)
    case _ => ClearJump(m, r, w)
  }

  lemma StepSigns(isDec: bool, a: nat, w: Width)
    requires Fits(a, w)
    ensures var v, r := Stepped(isDec, Signed(a, w)), Wrap(Stepped(isDec, a), w);
            && Signed(r, w) == (if v >= Half(w) then v - 2 * Half(w) else if v < 0 - Half(w) then v + 2 * Half(w) else v)
            && (Signed(r, w) == 0 <==> r == 0)
            && X86.InSignedRange(Signed(a, w), w)
  {
    WrappedSigned(isDec, a, 1, w);
    assert Signed(1, w) == 1;
    SignBounds(a, w);
    SignBounds(Wrap(Stepped(isDec, a), w), w);
  }

  lemma StepReads(isDec: bool, a: nat, w: Width)
    requires Fits(a, w)
    ensures var v, r := Stepped(isDec, Signed(a, w)), Wrap(Stepped(isDec, a), w);
            && LazyFlags(StepOp(isDec), a, r, w) ==
                 X86.Eflags(X86.Is(r == 0), X86.Is(Signed(r, w) < 0), X86.Is(false), X86.Is(!X86.InSignedRange(v, w)))
            && (r == 0 <==> v == 0) && (v < 0 <==> (Signed(r, w) < 0) != !X86.InSignedRange(v, w))
  {
    StepSigns(isDec, a, w);
    assert Half(w) >= 0x80;
    hide Wrap, Signed, Half;
  }

  lemma StepOverflowTable(isDec: bool, m: X86.Mnemonic, a: nat, w: Width)
    requires m in {X86.JL, X86.JNL, X86.JLE, X86.JNLE, X86.JO, X86.JNO} && Fits(a, w)
    ensures X86.Taken(m, LazyFlags(StepOp(isDec), a, Wrap(Stepped(isDec, a), w), w)) == StepJump(isDec, m, a, w)
  {
    StepReads(isDec, a, w);
    hide Wrap, Signed, LazyFlags, Stepped, X86.InSignedRange, Half, ClearJump;
  }

  lemma StepTable(isDec: bool, m: X86.Mnemonic, a: nat, w: Width)
    requires X86.IsJcc(m) && Fits(a, w)
    ensures X86.Taken(m, LazyFlags(StepOp(isDec), a, Wrap(Stepped(isDec, a), w), w)) == StepJump(isDec, m, a, w)
  {
    if m in {X86.JL, X86.JNL, X86.JLE, X86.JNLE, X86.JO, X86.JNO} {
      hide Wrap, Signed, LazyFlags, StepJump, X86.Taken;
      StepOverflowTable(isDec, m, a, w);
    } else {
      hide Wrap, Signed, Stepped, X86.InSignedRange;
    }
  }

  /** After INC and DEC at 8, 16 and 32 bits: the signed jumps decide the sign of the unbounded result,
      wrap point included, and the overflow jumps whether it left the range. */
  lemma IncDecThenJump(di: DecodedInstr, m: X86.Mnemonic, names: map<U64, string>, l: Lifted, s: State, x: X86.Machine)
    requires At(l.e, s, x) && X86.Supported(di) && (di.mnemonic.INC? || di.mnemonic.DEC?) && X86.IsJcc(m)
    requires !CapturedByName(di.Op(0))
    ensures FlagRequestForJcc(m).Some?
    ensures var w, l2 := X86.OperandWidth(di.Op(0)), LiftInstr(di, names, l);
            Yields(l2.e, Materialise(l2.f, FlagRequestForJcc(m).value, l2.e), s,
                   StepJump(di.mnemonic.DEC?, m, X86.ReadOp(x, di.Op(0), w), w))
  {
    hide X86.Supported, X86.Execute, At, LiftInstr, Materialise, Yields, LazyFlags, X86.Taken, StepJump, X86.ReadOp, Remembered;
    JumpBehind(di, m, names, l, s, x);
    RememberedNow(di, x);
    StepTable(di.mnemonic.DEC?, m, X86.ReadOp(x, di.Op(0), X86.OperandWidth(di.Op(0))), X86.OperandWidth(di.Op(0)));
  }

  /** At 64 bits the remembered register has become the result, and only the wrapped result is seen. */
  lemma NamedIncDecThenJump(di: DecodedInstr, m: X86.Mnemonic, names: map<U64, string>, l: Lifted, s: State, x: X86.Machine)
    requires At(l.e, s, x) && X86.Supported(di) && (di.mnemonic.INC? || di.mnemonic.DEC?) && X86.IsJcc(m)
    requires CapturedByName(di.Op(0))
    ensures FlagRequestForJcc(m).Some?
    ensures var l2 := LiftInstr(di, names, l);
            Yields(l2.e, Materialise(l2.f, FlagRequestForJcc(m).value, l2.e), s, ClearJump(m, ResultOf(di, x), W64))
  {
    hide X86.Supported, X86.Execute, At, LiftInstr, Materialise, Yields, LazyFlags, X86.Taken, ClearJump, ResultOf, Remembered;
    JumpBehind(di, m, names, l, s, x);
    RememberedNow(di, x);
    NamedStepTable(di.mnemonic.DEC?, m, ResultOf(di, x));
  }

  lemma NamedStepTable(isDec: bool, m: X86.Mnemonic, r: nat)
    requires X86.IsJcc(m)
    ensures X86.Taken(m, LazyFlags(StepOp(isDec), r, r, W64)) == ClearJump(m, r, W64)
  {
    hide Signed;
  }

  /** Such a jump is right exactly when the carry was clear and the step stays in the signed range, as
      far as the jump depends on them. */
  lemma NamedStepExact(isDec: bool, m: X86.Mnemonic, a: nat, before: X86.Eflags)
    requires Fits(a, W64) && X86.IsJcc(m)
    ensures var r := Wrap(Stepped(isDec, a), W64);
            (ClearJump(m, r, W64) <==> X86.Taken(m, StepFlags(isDec, a, W64, before)))
            <==> Agrees(m, r == 0, before.cf != X86.Is(true), X86.InSignedRange(Stepped(isDec, Signed(a, W64)), W64))
  {
    var r := Wrap(Stepped(isDec, a), W64);
    NamedStepTable(isDec, m, r);
    StepExact(isDec, m, a, r, W64, before);
    if isDec { OverflowOfDec(a, W64); } else { OverflowOfInc(a, W64); }
    assert StepRight(isDec, a, r, W64) <==> X86.InSignedRange(Stepped(isDec, Signed(a, W64)), W64);
    hide Wrap, Signed, ClearJump, X86.Taken, StepFlags, LazyFlags, StepRight;
  }
}
