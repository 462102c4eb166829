/** Every conditional jump behind every straight line of supported instructions: what its emitted
    condition decides, and exactly when that is what the processor decides. */
module JumpLaws {
  import opened Wrappers
  import opened Bits
  import opened IR
  import opened Flags
  import opened Lifter
  import X86
  import opened FlagArithmetic
  import opened Simulation
  import opened LiftMeans
  import opened FlagLaws

  // ----- the general law -----

  /** The flags as the lazy scheme sees them, from the operation, the remembered first operand and the result. */
  function LazyFlags(op: FlagOp, v: nat, r: nat, w: Width): X86.Eflags {
    var carry := match op case ADD => r < v case SUB => r > v case _ => false;
    var over := match op
                case ADD | SUB => (Signed(v, w) >= 0) != (Signed(r, w) >= 0)
                case INC => Signed(v, w) >= 0 && Signed(r, w) < 0
                case DEC => Signed(v, w) < 0 && Signed(r, w) >= 0
                case _ => false;
    X86.Eflags(X86.Is(r == 0), X86.Is(Signed(r, w) < 0), X86.Is(carry), X86.Is(over))
  }

  /** What the remembered first operand of di, executed at x, evaluates to when the machine is at y. */
  function Remembered(di: DecodedInstr, x: X86.Machine, y: X86.Machine): nat {
    match Watch(di)
    case Some(g) => y.Reg(g)
    case None => FirstValue(di, x)
  }

  /** A flag-setting instruction and the machine it was executed at. */
  datatype Setter = Setter(di: DecodedInstr, x: X86.Machine)

  /** The flag-setting instruction last executed after a straight line, o being the one before it. */
  function LastSet(instrs: seq<DecodedInstr>, x: X86.Machine, o: Option<Setter>): Option<Setter>
    requires X86.AllSupported(instrs)
  {
    if instrs == [] then o
    else
      var init, last := instrs[..|instrs| - 1], instrs[|instrs| - 1];
      if SetsFlags(last.mnemonic) then Some(Setter(last, X86.ExecuteAll(init, x))) else LastSet(init, x, o)
  }

  /** The lazy flags are those that the given instruction captured. */
  ghost predicate Told(o: Option<Setter>, f: Lazy, s: State, n: nat) {
    match o
    case None => true
    case Some(c) =>
      && X86.Supported(c.di) && SetsFlags(c.di.mnemonic)
      && Captures(f, FlagOpOf(c.di), Watch(c.di), FirstValue(c.di, c.x), ResultOf(c.di, c.x), X86.OperandWidth(c.di.Op(0)), s, n)
  }

  /** The machine's flags are those that the given instruction left. */
  predicate Current(o: Option<Setter>, x: X86.Machine) {
    o.Some? ==> X86.Supported(o.value.di) && x.flags == X86.Execute(o.value.di, o.value.x).flags
  }

  lemma CapturesKept(f: Lazy, op: FlagOp, watch: Option<X86.Gpr>, a: nat, r: nat, w: Width, s1: State, s2: State, n: nat, n2: nat)
    requires Captures(f, op, watch, a, r, w, s1, n) && TempsKept(s1, s2, n) && n <= n2
    ensures Captures(f, op, watch, a, r, w, s2, n2)
  {
  }

  lemma ToldKept(o: Option<Setter>, f: Lazy, s1: State, s2: State, n: nat, n2: nat)
    requires Told(o, f, s1, n) && TempsKept(s1, s2, n) && n <= n2
    ensures Told(o, f, s2, n2)
  {
    hide X86.Supported, Captures, SetsFlags, TempsKept, FlagOpOf, Watch, FirstValue, ResultOf;
    if o.Some? {
      var c := o.value;
      CapturesKept(f, FlagOpOf(c.di), Watch(c.di), FirstValue(c.di, c.x), ResultOf(c.di, c.x), X86.OperandWidth(c.di.Op(0)), s1, s2, n, n2);
    }
  }

  lemma KeepsFlags(di: DecodedInstr, x: X86.Machine)
    requires X86.Supported(di) && !SetsFlags(di.mnemonic)
    ensures X86.Execute(di, x).flags == x.flags
  {
  }

  lemma ToldAfterOne(di: DecodedInstr, o: Option<Setter>, names: map<U64, string>, l: Lifted, s: State, x: X86.Machine)
    requires At(l.e, s, x) && X86.Supported(di) && Told(o, l.f, l.e.Run(s), l.e.next)
    ensures var l2 := LiftInstr(di, names, l);
            && Simulates(l.e, l2.e, s, X86.Execute(di, x))
            && Told(if SetsFlags(di.mnemonic) then Some(Setter(di, x)) else o, l2.f, l2.e.Run(s), l2.e.next)
  {
    hide X86.Supported, X86.Execute, FlagsAgree, Related, Exec, LiftInstr, After, Captures, ResultOf, FirstValue, FlagOpOf, SetsFlags, Watch,
      TempsKept;
    NothingAgrees(l, s, x);
    LiftInstrMeans(di, names, l, s, x, NOTHING);
    var l2 := LiftInstr(di, names, l);
    if !SetsFlags(di.mnemonic) {
      ToldKept(o, l.f, l.e.Run(s), l2.e.Run(s), l.e.next, l2.e.next);
    }
  }

  /** Whatever the line was entered with, behind it the lazy flags are those of the flag-setting
      instruction last executed. */
  lemma {:induction false} ToldAfterAll(instrs: seq<DecodedInstr>, o: Option<Setter>, names: map<U64, string>, l: Lifted, s: State, x: X86.Machine)
    requires At(l.e, s, x) && X86.AllSupported(instrs) && Told(o, l.f, l.e.Run(s), l.e.next)
    ensures var l2, y := LiftAll(instrs, names, l), X86.ExecuteAll(instrs, x);
            && Simulates(l.e, l2.e, s, y)
            && Told(LastSet(instrs, x, o), l2.f, l2.e.Run(s), l2.e.next)
  {
    hide X86.Supported, X86.Execute, Related, Exec, LiftInstr, Told, SetsFlags;
    if instrs != [] {
      var init, last := instrs[..|instrs| - 1], instrs[|instrs| - 1];
      ToldAfterAll(init, o, names, l, s, x);
      var mid, y := LiftAll(init, names, l), X86.ExecuteAll(init, x);
      ToldAfterOne(last, LastSet(init, x, o), names, mid, s, y);
      SimulatesLater(l.e, mid.e, LiftInstr(last, names, mid).e, s, y, X86.Execute(last, y));
    }
  }

  /** The processor's flags are those of the flag-setting instruction last executed. */
  lemma {:induction false} CurrentAfterAll(instrs: seq<DecodedInstr>, o: Option<Setter>, x: X86.Machine)
    requires X86.AllSupported(instrs) && Current(o, x)
    ensures Current(LastSet(instrs, x, o), X86.ExecuteAll(instrs, x))
  {
    hide X86.Supported, X86.Execute, SetsFlags;
    if instrs != [] {
      var init, last := instrs[..|instrs| - 1], instrs[|instrs| - 1];
      CurrentAfterAll(init, o, x);
      if !SetsFlags(last.mnemonic) { KeepsFlags(last, X86.ExecuteAll(init, x)); }
    }
  }

  /** The last instruction that sets the flags. */
  predicate LastSetter(instrs: seq<DecodedInstr>, k: nat) {
    && k < |instrs| && SetsFlags(instrs[k].mnemonic)
    && forall j :: k < j < |instrs| ==> !SetsFlags(instrs[j].mnemonic)
  }

  lemma {:induction false} LastSetIs(instrs: seq<DecodedInstr>, k: nat, x: X86.Machine, o: Option<Setter>)
    requires X86.AllSupported(instrs) && LastSetter(instrs, k)
    ensures X86.AllSupported(instrs[..k])
    ensures LastSet(instrs, x, o) == Some(Setter(instrs[k], X86.ExecuteAll(instrs[..k], x)))
  {
    hide X86.Supported, X86.Execute, SetsFlags;
    var init := instrs[..|instrs| - 1];
    if k == |init| {
      assert instrs[..k] == init;
    } else {
      LastSetIs(init, k, x, o);
      assert init[..k] == instrs[..k];
    }
  }

  lemma {:induction false} NothingSet(instrs: seq<DecodedInstr>, x: X86.Machine, o: Option<Setter>)
    requires X86.AllSupported(instrs) && forall d :: d in instrs ==> !SetsFlags(d.mnemonic)
    ensures LastSet(instrs, x, o) == o
  {
    hide X86.Supported, X86.Execute, SetsFlags;
    if instrs != [] {
      var init, d := instrs[..|instrs| - 1], instrs[|instrs| - 1];
      assert d in instrs && forall e :: e in init ==> e in instrs;
      NothingSet(init, x, o);
    }
  }

  lemma RequestIsTaken(m: X86.Mnemonic, zf: bool, sf: bool, cf: bool, ovf: bool)
    requires X86.IsJcc(m)
    ensures FlagRequestForJcc(m).Some?
    ensures Requested(FlagRequestForJcc(m).value, zf, sf, cf, ovf) ==
            X86.Taken(m, X86.Eflags(X86.Is(zf), X86.Is(sf), X86.Is(cf), X86.Is(ovf)))
  {
  }

  lemma CapturedFlags(f: Lazy, op: FlagOp, watch: Option<X86.Gpr>, a: nat, r: nat, w: Width, s: State, n: nat, y: X86.Machine)
    requires Captures(f, op, watch, a, r, w, s, n) && Related(s, y)
    ensures LazyFlags(op, match watch { case Some(g) => y.Reg(g) case None => a }, r, w) ==
            X86.Eflags(X86.Is(LazyZF(f, s)), X86.Is(LazySF(f, s)), X86.Is(LazyCF(f, s)), X86.Is(LazyOF(f, s)))
  {
    hide Signed, Captured, Permanent;
  }

  /** The condition emitted for a jump tests the lazy flags of whatever is captured: the operation, the
      result the captured temporary holds, and the first operand as it is remembered. */
  lemma CapturedJump(l: Lifted, op: FlagOp, watch: Option<X86.Gpr>, a: nat, r: nat, w: Width, m: X86.Mnemonic, s: State, y: X86.Machine)
    requires At(l.e, s, y) && Captures(l.f, op, watch, a, r, w, l.e.Run(s), l.e.next) && X86.IsJcc(m)
    ensures FlagRequestForJcc(m).Some?
    ensures Yields(l.e, Materialise(l.f, FlagRequestForJcc(m).value, l.e), s,
                   X86.Taken(m, LazyFlags(op, match watch { case Some(g) => y.Reg(g) case None => a }, r, w)))
  {
    hide Captured, Permanent, Materialise, LazyZF, LazySF, LazyCF, LazyOF, LazyFlags, X86.Taken, Requested, Yields, WellTerminated, Related, Exec;
    CapturedFlags(l.f, op, watch, a, r, w, l.e.Run(s), l.e.next, y);
    RequestIsTaken(m, LazyZF(l.f, l.e.Run(s)), LazySF(l.f, l.e.Run(s)), LazyCF(l.f, l.e.Run(s)), LazyOF(l.f, l.e.Run(s)));
    MaterialiseMeans(l.f, FlagRequestForJcc(m).value, l.e, s);
  }

  /** The jump's own test of the lazy flags that the instruction captured, at machine y. */
  predicate Decision(c: Setter, m: X86.Mnemonic, y: X86.Machine) {
    X86.Taken(m, LazyFlags(FlagOpOf(c.di), Remembered(c.di, c.x, y), ResultOf(c.di, c.x), X86.OperandWidth(c.di.Op(0))))
  }

  /** The condition emitted for a jump behind a straight line is the jump's own test of the lazy flags of
      the flag-setting instruction last executed, in the line or before it, with its first operand as it is
      remembered at the jump. */
  lemma JumpDecides(instrs: seq<DecodedInstr>, o: Option<Setter>, m: X86.Mnemonic, names: map<U64, string>, l: Lifted, s: State, x: X86.Machine)
    requires At(l.e, s, x) && X86.AllSupported(instrs) && X86.IsJcc(m)
    requires Told(o, l.f, l.e.Run(s), l.e.next) && LastSet(instrs, x, o).Some?
    ensures FlagRequestForJcc(m).Some?
    ensures var l2 := LiftAll(instrs, names, l);
            Yields(l2.e, Materialise(l2.f, FlagRequestForJcc(m).value, l2.e), s,
                   Decision(LastSet(instrs, x, o).value, m, X86.ExecuteAll(instrs, x)))
  {
    hide X86.Supported, X86.Execute, Related, Exec, ResultOf, FirstValue, FlagOpOf, SetsFlags, Watch, Captures, Materialise, LiftAll,
      LazyFlags, X86.Taken, Yields, WellTerminated, LastSet;
    var c, y, l2 := LastSet(instrs, x, o).value, X86.ExecuteAll(instrs, x), LiftAll(instrs, names, l);
    ToldAfterAll(instrs, o, names, l, s, x);
    CapturedJump(l2, FlagOpOf(c.di), Watch(c.di), FirstValue(c.di, c.x), ResultOf(c.di, c.x), X86.OperandWidth(c.di.Op(0)), m, s, y);
  }

  // ----- lines that set no flags -----

  /** The instructions that leave the captured flags as they are. */
  predicate KeepsCapture(m: X86.Mnemonic) {
    !SetsFlags(m) && m !in {X86.DIV, X86.IDIV, X86.SHL, X86.SHR, X86.SAR, X86.CALL}
  }

  lemma {:induction false} LazyKept(instrs: seq<DecodedInstr>, names: map<U64, string>, l: Lifted)
    requires forall d :: d in instrs ==> KeepsCapture(d.mnemonic)
    ensures LiftAll(instrs, names, l).f == l.f
  {
    hide KeepsCapture;
    if instrs != [] {
      var init, d := instrs[..|instrs| - 1], instrs[|instrs| - 1];
      assert d in instrs && forall e :: e in init ==> e in instrs;
      LazyKept(init, names, l);
      KeepsLazy(d, names, LiftAll(init, names, l));
    }
  }

  lemma KeepsLazy(di: DecodedInstr, names: map<U64, string>, l: Lifted)
    requires KeepsCapture(di.mnemonic)
    ensures LiftInstr(di, names, l).f == l.f
  {
    hide LiftMov, LiftExtend, ReadOperand, WriteOperand;
  }

  lemma PlainKeepsCapture(instrs: seq<DecodedInstr>)
    requires X86.AllSupported(instrs) && forall d :: d in instrs ==> !SetsFlags(d.mnemonic)
    ensures forall d :: d in instrs ==> KeepsCapture(d.mnemonic)
  {
  }

  /** Entered with any captured flags, a line that sets none leaves the jump to test those: the result is
      whatever the captured temporary holds, be it that of an earlier visit or of none. */
  lemma InheritedJump(instrs: seq<DecodedInstr>, op: FlagOp, watch: Option<X86.Gpr>, a: nat, r: nat, w: Width, m: X86.Mnemonic,
                      names: map<U64, string>, l: Lifted, s: State, x: X86.Machine)
    requires At(l.e, s, x) && X86.AllSupported(instrs) && X86.IsJcc(m) && forall d :: d in instrs ==> !SetsFlags(d.mnemonic)
    requires Captures(l.f, op, watch, a, r, w, l.e.Run(s), l.e.next)
    ensures FlagRequestForJcc(m).Some?
    ensures var y, l2 := X86.ExecuteAll(instrs, x), LiftAll(instrs, names, l);
            Yields(l2.e, Materialise(l2.f, FlagRequestForJcc(m).value, l2.e), s,
                   X86.Taken(m, LazyFlags(op, match watch { case Some(g) => y.Reg(g) case None => a }, r, w)))
  {
    hide X86.Supported, X86.Execute, LiftAll, Materialise, Yields, SetsFlags, FlagsAgree, Captures, LazyFlags, X86.Taken, Related, Exec,
      WellTerminated, KeepsCapture, TempsKept;
    NothingAgrees(l, s, x);
    LiftAllMeans(instrs, names, l, s, x, NOTHING);
    PlainKeepsCapture(instrs);
    LazyKept(instrs, names, l);
    var y, l2 := X86.ExecuteAll(instrs, x), LiftAll(instrs, names, l);
    CapturesKept(l.f, op, watch, a, r, w, l.e.Run(s), l2.e.Run(s), l.e.next, l2.e.next);
    CapturedJump(l2, op, watch, a, r, w, m, s, y);
  }

  /** Where no instruction has set flags, no jump is ever taken, JNZ, JNB and the other negations included. */
  lemma UnsetThenJump(instrs: seq<DecodedInstr>, m: X86.Mnemonic, names: map<U64, string>, l: Lifted, s: State, x: X86.Machine)
    requires At(l.e, s, x) && X86.AllSupported(instrs) && (forall d :: d in instrs ==> !SetsFlags(d.mnemonic))
    requires !l.f.valid && X86.IsJcc(m)
    ensures FlagRequestForJcc(m).Some?
    ensures var l2 := LiftAll(instrs, names, l);
            Yields(l2.e, Materialise(l2.f, FlagRequestForJcc(m).value, l2.e), s, false)
  {
    hide X86.Supported, X86.Execute, LiftAll, Materialise, Yields, SetsFlags, At, FlagsAgree, KeepsCapture;
    NothingAgrees(l, s, x);
    LiftAllMeans(instrs, names, l, s, x, NOTHING);
    PlainKeepsCapture(instrs);
    LazyKept(instrs, names, l);
    RequestIsTaken(m, false, false, false, false);
    MaterialiseMeans(LiftAll(instrs, names, l).f, FlagRequestForJcc(m).value, LiftAll(instrs, names, l).e, s);
  }

  // ----- when the jump is right -----

  /** Which of the carry and overflow flags a jump depends on. */
  predicate Agrees(m: X86.Mnemonic, zero: bool, carryRight: bool, overRight: bool) {
    match m
    case JB | JNB => carryRight
    case JBE | JNBE => zero || carryRight
    case JO | JNO | JL | JNL => overRight
    case JLE | JNLE => zero || overRight
    case _ => true
  }

  /** Where zero and sign flag are right, a jump is right exactly when the others it depends on are. */
  lemma AgreesIff(m: X86.Mnemonic, f: X86.Eflags, g: X86.Eflags)
    requires X86.IsJcc(m) && f.zf == g.zf && f.sf == g.sf && f.zf.Is? && f.sf.Is? && f.ovf.Is? && g.ovf.Is?
    ensures (X86.Taken(m, f) <==> X86.Taken(m, g)) <==>
            Agrees(m, f.zf.b, f.cf == X86.Is(true) <==> g.cf == X86.Is(true), f.ovf == g.ovf)
  {
  }

  lemma SignBounds(a: nat, w: Width)
    requires Fits(a, w)
    ensures X86.InSignedRange(Signed(a, w), w)
    ensures Signed(a, w) == 0 <==> a == 0
  {
  }

  // ----- ADD, SUB, CMP -----

  function Difference(isSub: bool, a: nat, b: nat, w: Width): nat {
    if isSub then Wrap(a - b, w) else Wrap(a + b, w)
  }

  /** The sign of the unbounded signed sum or difference. */
  predicate Below0(isSub: bool, a: nat, b: nat, w: Width) {
    if isSub then Signed(a, w) < Signed(b, w) else Signed(a, w) + Signed(b, w) < 0
  }

  /** Whether the carry reads right when v is what is remembered of the first operand. */
  predicate CarryRight(isSub: bool, a: nat, b: nat, v: nat, w: Width) {
    var r := Difference(isSub, a, b, w);
    if isSub then (if a < b then v < r else v >= r) else (if a + b >= Modulus(w) then v > r else v <= r)
  }

  /** The processor's flags of a sum or a difference. */
  function DifferenceFlags(isSub: bool, a: nat, b: nat, w: Width): X86.Eflags {
    if isSub then X86.SubFlags(a, b, w) else X86.AddFlags(a, b, w)
  }

  function DifferenceOp(isSub: bool): FlagOp { if isSub then FlagOp.SUB else FlagOp.ADD }

  /** Sign and overflow together are the sign of the unbounded result. */
  lemma SignIsBelow0(isSub: bool, a: nat, b: nat, w: Width)
    requires Fits(a, w) && Fits(b, w)
    ensures DifferenceFlags(isSub, a, b, w).sf != DifferenceFlags(isSub, a, b, w).ovf <==> Below0(isSub, a, b, w)
  {
    hide Wrap;
    WrappedSigned(isSub, a, b, w);
    SignBounds(a, w);
    SignBounds(b, w);
    hide Signed;
  }

  /** The lazy flags of a sum or difference, flag by flag against the processor's. */
  lemma DifferenceAgrees(isSub: bool, a: nat, b: nat, v: nat, w: Width)
    requires Fits(a, w) && Fits(b, w)
    ensures var f, g := LazyFlags(DifferenceOp(isSub), v, Difference(isSub, a, b, w), w), DifferenceFlags(isSub, a, b, w);
            && f.zf == g.zf == X86.Is(Difference(isSub, a, b, w) == 0) && f.sf == g.sf && f.sf.Is? && f.ovf.Is? && g.ovf.Is?
            && (f.cf == g.cf <==> CarryRight(isSub, a, b, v, w))
            && (f.cf == X86.Is(true) <==> g.cf == X86.Is(true) <==> f.cf == g.cf)
            && (f.ovf == g.ovf <==> (Signed(v, w) < 0 <==> Below0(isSub, a, b, w)))
  {
    SignIsBelow0(isSub, a, b, w);
    hide Wrap, Signed, X86.InSignedRange, Below0;
  }

  lemma CarryPlain(isSub: bool, a: nat, b: nat, w: Width)
    requires Fits(a, w) && Fits(b, w)
    ensures CarryRight(isSub, a, b, a, w)
  {
    WrapOnce(a, b, w);
    hide Wrap;
  }

  /** After ADD, SUB and CMP: unsigned jumps are right iff the carry reads right, signed ones and the
      overflow jumps iff what is remembered has the sign of the unbounded result; a zero result
      settles the jumps that include equality. */
  lemma DifferenceExact(isSub: bool, m: X86.Mnemonic, a: nat, b: nat, v: nat, w: Width)
    requires Fits(a, w) && Fits(b, w) && X86.IsJcc(m)
    ensures var r := Difference(isSub, a, b, w);
            (X86.Taken(m, LazyFlags(DifferenceOp(isSub), v, r, w)) <==> X86.Taken(m, DifferenceFlags(isSub, a, b, w)))
            <==> Agrees(m, r == 0, CarryRight(isSub, a, b, v, w), Signed(v, w) < 0 <==> Below0(isSub, a, b, w))
  {
    DifferenceAgrees(isSub, a, b, v, w);
    hide LazyFlags, DifferenceFlags, CarryRight, Below0, X86.Taken, Agrees, Difference;
    AgreesIff(m, LazyFlags(DifferenceOp(isSub), v, Difference(isSub, a, b, w), w), DifferenceFlags(isSub, a, b, w));
  }

  // ----- NEG -----

  /** NEG remembers 0 as first operand, so the overflow reads as the sign of the result: the jumps that
      depend on it are right iff the operand was not positive. */
  lemma NegExact(m: X86.Mnemonic, a: nat, w: Width)
    requires Fits(a, w) && X86.IsJcc(m)
    ensures var r := Wrap(0 - a, w);
            (X86.Taken(m, LazyFlags(FlagOp.SUB, 0, r, w)) <==> X86.Taken(m, X86.SubFlags(0, a, w)))
            <==> Agrees(m, r == 0, true, Signed(a, w) <= 0)
  {
    DifferenceExact(true, m, 0, a, 0, w);
    hide LazyFlags, X86.SubFlags, X86.Taken;
    NegFacts(a, w);
  }

  lemma NegFacts(a: nat, w: Width)
    requires Fits(a, w)
    ensures CarryRight(true, 0, a, 0, w) && Signed(0, w) == 0
    ensures Difference(true, 0, a, w) == Wrap(0 - a, w)
  {
    BorrowOfSub(0, a, w);
  }

  // ----- INC and DEC -----

  function Stepped(isDec: bool, v: int): int { if isDec then v - 1 else v + 1 }

  function StepFlags(isDec: bool, a: nat, w: Width, before: X86.Eflags): X86.Eflags {
    if isDec then X86.DecFlags(a, w, before) else X86.IncFlags(a, w, before)
  }

  function StepOp(isDec: bool): FlagOp { if isDec then FlagOp.DEC else FlagOp.INC }

  /** Whether the overflow of a step from a reads right when v is remembered. */
  predicate StepRight(isDec: bool, a: nat, v: nat, w: Width) {
    if X86.InSignedRange(Stepped(isDec, Signed(a, w)), w) then
      (Signed(v, w) < 0) != isDec || (Signed(Wrap(Stepped(isDec, a), w), w) < 0) == isDec
    else (Signed(v, w) < 0) == isDec
  }

  lemma StepAgrees(isDec: bool, a: nat, v: nat, w: Width, before: X86.Eflags)
    requires Fits(a, w)
    ensures var r := Wrap(Stepped(isDec, a), w);
            var f, g := LazyFlags(StepOp(isDec), v, r, w), StepFlags(isDec, a, w, before);
            && f.zf == g.zf == X86.Is(r == 0) && f.sf == g.sf && f.sf.Is? && f.ovf.Is? && g.ovf.Is?
            && f.cf == X86.Is(false) && g.cf == before.cf
            && (f.ovf == g.ovf <==> StepRight(isDec, a, v, w))
  {
    assert Signed(1, w) == 1;
    if isDec { OverflowOfDec(a, w); } else { OverflowOfInc(a, w); }
    hide Wrap, Signed;
  }

  /** After INC and DEC: the carry reads as clear, and the overflow by what is remembered. */
  lemma StepExact(isDec: bool, m: X86.Mnemonic, a: nat, v: nat, w: Width, before: X86.Eflags)
    requires Fits(a, w) && X86.IsJcc(m)
    ensures var r := Wrap(Stepped(isDec, a), w);
            (X86.Taken(m, LazyFlags(StepOp(isDec), v, r, w)) <==> X86.Taken(m, StepFlags(isDec, a, w, before)))
            <==> Agrees(m, r == 0, before.cf != X86.Is(true), StepRight(isDec, a, v, w))
  {
    StepAgrees(isDec, a, v, w, before);
    hide LazyFlags, StepFlags, StepRight, X86.Taken, Agrees, Wrap;
    AgreesIff(m, LazyFlags(StepOp(isDec), v, Wrap(Stepped(isDec, a), w), w), StepFlags(isDec, a, w, before));
  }

  // ----- logic and IMUL -----

  lemma LogicExact(op: FlagOp, m: X86.Mnemonic, r: nat, v: nat, w: Width)
    requires op in {FlagOp.AND, FlagOp.OR, FlagOp.XOR}
    ensures LazyFlags(op, v, r, w) == X86.LogicFlags(r, w)
  {
  }

  /** After IMUL carry and overflow read as clear; the processor leaves the other flags undefined. */
  lemma ImulExact(m: X86.Mnemonic, a: nat, b: nat, r: nat, v: nat, w: Width)
    requires m in {X86.JO, X86.JNO, X86.JB, X86.JNB}
    ensures (X86.Taken(m, LazyFlags(FlagOp.IMUL, v, r, w)) <==> X86.Taken(m, X86.ImulFlags(a, b, w)))
            <==> X86.InSignedRange(Signed(a, w) * Signed(b, w), w)
  {
    hide Signed;
  }

  // ----- all of them -----

  /** Whether the jump m behind di is right, di executed at x and the machine at y when the jump comes. */
  predicate JumpRight(di: DecodedInstr, m: X86.Mnemonic, x: X86.Machine, y: X86.Machine) {
    var w, v, r := X86.OperandWidth(di.Op(0)), Remembered(di, x, y), ResultOf(di, x);
    var a, b := X86.ReadOp(x, LhsOperand(di), w), X86.ReadOp(x, RhsOperand(di), w);
    match di.mnemonic
    case ADD | SUB | CMP =>
      var isSub := !di.mnemonic.ADD?;
      Agrees(m, r == 0, CarryRight(isSub, a, b, v, w), Signed(v, w) < 0 <==> Below0(isSub, a, b, w))
    case NEG => Agrees(m, r == 0, true, Signed(a, w) <= 0)
    case INC | DEC => Agrees(m, r == 0, x.flags.cf != X86.Is(true), StepRight(di.mnemonic.DEC?, a, v, w))
    case IMUL => X86.InSignedRange(Signed(a, w) * Signed(b, w), w)
    case _ => true
  }

  /** IMUL leaves every flag but carry and overflow undefined, so only their jumps have a right answer. */
  predicate Answered(di: DecodedInstr, m: X86.Mnemonic) {
    X86.IsJcc(m) && (di.mnemonic.IMUL? ==> m in {X86.JO, X86.JNO, X86.JB, X86.JNB})
  }

  lemma FlagsOf(di: DecodedInstr, x: X86.Machine)
    requires X86.Supported(di) && SetsFlags(di.mnemonic)
    ensures var w := X86.OperandWidth(di.Op(0));
            var a, b := X86.ReadOp(x, LhsOperand(di), w), X86.ReadOp(x, RhsOperand(di), w);
            X86.Execute(di, x).flags ==
              match di.mnemonic
              case ADD | SUB | CMP => DifferenceFlags(!di.mnemonic.ADD?, a, b, w)
              case NEG => X86.SubFlags(0, a, w)
              case INC | DEC => StepFlags(di.mnemonic.DEC?, a, w, x.flags)
              case IMUL => X86.ImulFlags(a, b, w)
              case _ => X86.LogicFlags(ResultOf(di, x), w)
  {
    hide X86.ReadOp, X86.AddFlags, X86.SubFlags, X86.ImulFlags, BitAnd, BitOr, BitXor, Signed, Wrap;
  }

  /** The test of the lazy flags is the test of the processor's. */
  predicate SameTest(di: DecodedInstr, m: X86.Mnemonic, x: X86.Machine, y: X86.Machine)
    requires X86.Supported(di)
  {
    X86.Taken(m, LazyFlags(FlagOpOf(di), Remembered(di, x, y), ResultOf(di, x), X86.OperandWidth(di.Op(0)))) <==>
    X86.Taken(m, X86.Execute(di, x).flags)
  }

  lemma DifferenceCase(di: DecodedInstr, m: X86.Mnemonic, x: X86.Machine, y: X86.Machine)
    requires X86.Supported(di) && di.mnemonic in {X86.ADD, X86.SUB, X86.CMP} && X86.IsJcc(m)
    ensures SameTest(di, m, x, y) <==> JumpRight(di, m, x, y)
  {
    hide X86.ReadOp, X86.Supported, X86.Execute, X86.Taken, LazyFlags, Agrees, CarryRight, Below0, StepRight, Signed, Wrap,
      DifferenceFlags, StepFlags, X86.LogicFlags, X86.ImulFlags, X86.SubFlags, X86.InSignedRange;
    FlagsOf(di, x);
    var w, v, r := X86.OperandWidth(di.Op(0)), Remembered(di, x, y), ResultOf(di, x);
    var a, b := X86.ReadOp(x, LhsOperand(di), w), X86.ReadOp(x, RhsOperand(di), w);
    DifferenceExact(!di.mnemonic.ADD?, m, a, b, v, w);
  }

  lemma StepCase(di: DecodedInstr, m: X86.Mnemonic, x: X86.Machine, y: X86.Machine)
    requires X86.Supported(di) && di.mnemonic in {X86.INC, X86.DEC} && X86.IsJcc(m)
    ensures SameTest(di, m, x, y) <==> JumpRight(di, m, x, y)
  {
    hide X86.ReadOp, X86.Supported, X86.Execute, X86.Taken, LazyFlags, Agrees, CarryRight, Below0, StepRight, Signed, Wrap,
      DifferenceFlags, StepFlags, X86.LogicFlags, X86.ImulFlags, X86.SubFlags, X86.InSignedRange;
    FlagsOf(di, x);
    var w, v, r := X86.OperandWidth(di.Op(0)), Remembered(di, x, y), ResultOf(di, x);
    var a, b := X86.ReadOp(x, LhsOperand(di), w), X86.ReadOp(x, RhsOperand(di), w);
    StepExact(di.mnemonic.DEC?, m, a, v, w, x.flags);
  }

  lemma OtherCase(di: DecodedInstr, m: X86.Mnemonic, x: X86.Machine, y: X86.Machine)
    requires X86.Supported(di) && di.mnemonic in {X86.NEG, X86.IMUL, X86.AND, X86.OR, X86.XOR, X86.TEST} && Answered(di, m)
    ensures SameTest(di, m, x, y) <==> JumpRight(di, m, x, y)
  {
    hide X86.ReadOp, X86.Supported, X86.Execute, X86.Taken, LazyFlags, Agrees, CarryRight, Below0, StepRight, Signed, Wrap,
      DifferenceFlags, StepFlags, X86.LogicFlags, X86.ImulFlags, X86.SubFlags, X86.InSignedRange;
    FlagsOf(di, x);
    var w, v, r := X86.OperandWidth(di.Op(0)), Remembered(di, x, y), ResultOf(di, x);
    var a, b := X86.ReadOp(x, LhsOperand(di), w), X86.ReadOp(x, RhsOperand(di), w);
    match di.mnemonic
    case NEG => NegExact(m, a, w);
    case IMUL => ImulExact(m, a, b, r, v, w);
    case _ => LogicExact(FlagOpOf(di), m, r, v, w);
  }

  lemma LazyFlagsExact(di: DecodedInstr, m: X86.Mnemonic, x: X86.Machine, y: X86.Machine)
    requires X86.Supported(di) && SetsFlags(di.mnemonic) && Answered(di, m)
    ensures SameTest(di, m, x, y) <==> JumpRight(di, m, x, y)
  {
    hide SameTest, JumpRight, X86.Supported;
    match di.mnemonic
    case ADD | SUB | CMP => DifferenceCase(di, m, x, y);
    case INC | DEC => StepCase(di, m, x, y);
    case _ => OtherCase(di, m, x, y);
  }

  /** Where the processor's flags are those of the captured instruction, the decision is the processor's
      exactly when JumpRight holds. */
  lemma DecisionExact(c: Setter, m: X86.Mnemonic, y: X86.Machine)
    requires SetsFlags(c.di.mnemonic) && Answered(c.di, m) && Current(Some(c), y)
    ensures (Decision(c, m, y) <==> X86.Taken(m, y.flags)) <==> JumpRight(c.di, m, c.x, y)
  {
    hide JumpRight, X86.Supported, X86.Taken, LazyFlags, SetsFlags, X86.Execute, ResultOf, FlagOpOf, Remembered;
    LazyFlagsExact(c.di, m, c.x, y);
  }

  /** Every jump behind every straight line, whether the flags are set in the line or were captured before
      it: the emitted condition is the processor's exactly when JumpRight holds of the flag-setting
      instruction last executed, and its opposite otherwise. */
  lemma EveryJumpExact(instrs: seq<DecodedInstr>, o: Option<Setter>, m: X86.Mnemonic, names: map<U64, string>, l: Lifted, s: State, x: X86.Machine)
    requires At(l.e, s, x) && X86.AllSupported(instrs) && Told(o, l.f, l.e.Run(s), l.e.next) && Current(o, x)
    requires LastSet(instrs, x, o).Some? && Answered(LastSet(instrs, x, o).value.di, m)
    ensures FlagRequestForJcc(m).Some?
    ensures var c, y, l2 := LastSet(instrs, x, o).value, X86.ExecuteAll(instrs, x), LiftAll(instrs, names, l);
            Yields(l2.e, Materialise(l2.f, FlagRequestForJcc(m).value, l2.e), s,
                   X86.Taken(m, y.flags) <==> JumpRight(c.di, m, c.x, y))
  {
    hide X86.Supported, X86.Execute, At, LiftAll, Materialise, Yields, Decision, X86.Taken, JumpRight, SetsFlags, LastSet, Captures;
    JumpDecides(instrs, o, m, names, l, s, x);
    ToldAfterAll(instrs, o, names, l, s, x);
    CurrentAfterAll(instrs, o, x);
    DecisionExact(LastSet(instrs, x, o).value, m, X86.ExecuteAll(instrs, x));
  }

  // ----- lazy against eager -----

  lemma {:induction false} ConsLine(di: DecodedInstr, later: seq<DecodedInstr>, names: map<U64, string>, l: Lifted, x: X86.Machine)
    requires X86.Supported(di) && X86.AllSupported(later)
    ensures X86.AllSupported([di] + later) && ([di] + later)[..0] == []
    ensures LiftAll([di] + later, names, l) == LiftAll(later, names, LiftInstr(di, names, l))
    ensures X86.ExecuteAll([di] + later, x) == X86.ExecuteAll(later, X86.Execute(di, x))
  {
    hide X86.Supported, X86.Execute, LiftInstr;
    if later == [] {
      assert [di] + later == [di] && [di][..0] == [];
    } else {
      ConsLine(di, later[..|later| - 1], names, l, x);
      assert ([di] + later)[..|later|] == [di] + later[..|later| - 1];
    }
  }

  lemma {:induction false} NotWritten(later: seq<DecodedInstr>, g: X86.Gpr, x: X86.Machine)
    requires X86.AllSupported(later)
    requires forall d :: d in later ==> !SetsFlags(d.mnemonic) && WrittenGpr(d) != Some(g)
    ensures X86.ExecuteAll(later, x).Reg(g) == x.Reg(g)
  {
    hide X86.Supported, X86.Execute;
    if later != [] {
      var init, d := later[..|later| - 1], later[|later| - 1];
      assert d in later && forall e :: e in init ==> e in later;
      NotWritten(init, g, x);
      OtherKept(d, g, X86.ExecuteAll(init, x));
    }
  }

  lemma OtherKept(d: DecodedInstr, g: X86.Gpr, x: X86.Machine)
    requires X86.Supported(d) && !SetsFlags(d.mnemonic) && WrittenGpr(d) != Some(g)
    ensures X86.Execute(d, x).Reg(g) == x.Reg(g)
  {
  }

  /** The first operand was read into a temporary, or nothing has been written to its register. */
  predicate OperandIntact(di: DecodedInstr, later: seq<DecodedInstr>) {
    !CapturedByName(di.Op(0)) || (di.mnemonic.CMP? && forall d :: d in later ==> WrittenGpr(d) != Some(di.Op(0).r.g))
  }

  lemma IntactIsRemembered(di: DecodedInstr, later: seq<DecodedInstr>, x: X86.Machine)
    requires X86.Supported(di) && di.mnemonic in {X86.ADD, X86.SUB, X86.CMP} && X86.AllSupported(later)
    requires (forall d :: d in later ==> !SetsFlags(d.mnemonic)) && OperandIntact(di, later)
    ensures Remembered(di, x, X86.ExecuteAll(later, X86.Execute(di, x))) == FirstValue(di, x)
  {
    if CapturedByName(di.Op(0)) {
      hide X86.AluFlags, LoadLE, X86.AllSupported, SetsFlags, WrittenGpr;
      NotWritten(later, di.Op(0).r.g, X86.Execute(di, x));
    }
  }

  lemma ResultIsAlu(di: DecodedInstr, x: X86.Machine)
    requires X86.Supported(di) && di.mnemonic in {X86.ADD, X86.SUB, X86.CMP}
    ensures var w := X86.OperandWidth(di.Op(0));
            && ResultOf(di, x) == X86.Alu(di.mnemonic, X86.ReadOp(x, di.Op(0), w), X86.ReadOp(x, di.Op(1), w), w)
            && FirstValue(di, x) == X86.ReadOp(x, di.Op(0), w)
  {
  }

  lemma SetterFirst(di: DecodedInstr, later: seq<DecodedInstr>)
    requires SetsFlags(di.mnemonic) && forall d :: d in later ==> !SetsFlags(d.mnemonic)
    ensures LastSetter([di] + later, 0) && ([di] + later)[0] == di
  {
    hide SetsFlags;
    forall j | 0 < j < |[di] + later| ensures !SetsFlags(([di] + later)[j].mnemonic) {
      assert ([di] + later)[j] == later[j - 1] && later[j - 1] in later;
    }
  }

  /** The lazy flags of a sum or difference against the eager ones. */
  lemma LazyAgainstEager(di: DecodedInstr, a: nat, b: nat, v: nat, w: Width)
    requires Fits(a, w) && Fits(b, w) && di.mnemonic in {X86.ADD, X86.SUB, X86.CMP}
    ensures var r := X86.Alu(di.mnemonic, a, b, w);
            var f, g := LazyFlags(FlagOpOf(di), v, r, w), X86.AluFlags(di.mnemonic, a, b, w);
            && f.zf == g.zf && f.sf == g.sf
            && (v == a ==> f.cf == g.cf && (f.ovf == X86.Is(true) ==> EagerOF(a, r, w)))
  {
    var isSub := !di.mnemonic.ADD?;
    DifferenceAgrees(isSub, a, b, v, w);
    CarryPlain(isSub, a, b, w);
    OverflowChain(isSub, a, b, w);
    hide Wrap, Signed, CarryRight, Below0, EagerOF;
  }

  /** For any number of later instructions that set no flags, the lazy zero and sign flags equal the ones
      stored eagerly right after the arithmetic. So does the carry while the first operand is intact, which
      is always so at 8, 16 and 32 bits and for memory; and then a lazy overflow is an eager one. */
  lemma LazyRefinesEager(di: DecodedInstr, later: seq<DecodedInstr>, names: map<U64, string>, l: Lifted, s: State, x: X86.Machine)
    requires At(l.e, s, x) && X86.Supported(di) && di.mnemonic in {X86.ADD, X86.SUB, X86.CMP}
    requires X86.AllSupported(later) && forall d :: d in later ==> !SetsFlags(d.mnemonic)
    ensures var w := X86.OperandWidth(di.Op(0));
            var (o, f) := LiftBinary(di.mnemonic, di.Op(0), di.Op(1), Int(w), l.e);
            var eager := EmitFlagsForArith(o.v, f.lhs, Int(w), !di.mnemonic.ADD?, o.e).Run(s);
            var l2 := LiftAll(later, names, LiftInstr(di, names, l));
            var lazy := l2.e.Run(s);
            && (LazyZF(l2.f, lazy) <==> eager.Get(ZF_VREG) == 1)
            && (LazySF(l2.f, lazy) <==> eager.Get(SF_VREG) == 1)
            && (OperandIntact(di, later) ==> (LazyCF(l2.f, lazy) <==> eager.Get(CF_VREG) == 1))
            && (OperandIntact(di, later) && LazyOF(l2.f, lazy) ==> eager.Get(OF_VREG) == 1)
  {
    SetterFirst(di, later);
    hide Exec, X86.ReadOp, X86.Supported, X86.Execute, LiftBinary, LiftInstr, LiftAll, EmitFlagsForArith, LazyZF, LazySF, LazyCF, LazyOF,
      EagerOF, Captures, Related, OperandIntact, Signed, SetsFlags, Fresh, WellTerminated, BitAnd, BitOr, BitXor, Wrap, TempsKept, X86.AluFlags, X86.Alu, LazyFlags, ResultOf;
    var w, isSub := X86.OperandWidth(di.Op(0)), !di.mnemonic.ADD?;
    var a, b := X86.ReadOp(x, di.Op(0), w), X86.ReadOp(x, di.Op(1), w);
    EagerIsExact(di, l, s, x);
    ConsLine(di, later, names, l, x);
    ResultIsAlu(di, x);
    ToldAfterAll([di] + later, None, names, l, s, x);
    LastSetIs([di] + later, 0, x, None);
    var l2, y := LiftAll(later, names, LiftInstr(di, names, l)), X86.ExecuteAll(later, X86.Execute(di, x));
    CapturedFlags(l2.f, FlagOpOf(di), Watch(di), FirstValue(di, x), ResultOf(di, x), w, l2.e.Run(s), l2.e.next, y);
    LazyAgainstEager(di, a, b, Remembered(di, x, y), w);
    if OperandIntact(di, later) { IntactIsRemembered(di, later, x); }
  }
}
