/** Flags captured in one block and tested in another: which instruction they come from, and how long the
    temporaries they refer to hold. */
module Captured {
  import opened Wrappers
  import opened Bits
  import opened IR
  import opened Flags
  import opened Lifter
  import X86
  import opened LiftMeans
  import opened JumpLaws
  import opened Program
  import Cfg
  import Temporaries

  // ----- which instruction captured the flags of a block -----

  /** The flags were captured by the instruction, in temporaries with ids from n on. */
  predicate CapturedBy(f: Lazy, di: DecodedInstr, n: nat, next: nat) {
    && Refers(f, FlagOpOf(di), Watch(di), X86.OperandWidth(di.Op(0)), next)
    && f.result.VReg? && n <= f.result.id
    && (Watch(di).None? && f.lhs.VReg? ==> n <= f.lhs.id)
  }

  /** What reading an operand gives: the register itself, or something handed out from now on. */
  lemma OperandForm(op: X86.Operand, w: Width, e: Emitter)
    requires X86.SourceAt(op, w) && e.next >= 20
    ensures var o := ReadOperand(op, Int(w), e);
            && e.next <= o.e.next && o.v.ty == Int(w) && Defined(o.v, o.e.next)
            && if CapturedByName(op) then o.v == VReg(GprId(op.r.g), I64) else o.v.VReg? ==> e.next <= o.v.id
  {
    hide Emitter.Push, ComputeAddr;
  }

  /** What combining two operands captures. */
  lemma BinaryRefers(m: X86.Mnemonic, a: X86.Operand, b: X86.Operand, w: Width, e: Emitter)
    requires X86.SourceAt(a, w) && X86.SourceAt(b, w) && e.next >= 20
    ensures var (o, f) := LiftBinary(m, a, b, Int(w), e);
            && Refers(f, AluFlagOp(m), if CapturedByName(a) then Some(a.r.g) else None, w, o.e.next)
            && f.result.VReg? && e.next <= f.result.id && (!CapturedByName(a) && f.lhs.VReg? ==> e.next <= f.lhs.id)
  {
    OperandForm(a, w, e);
    OperandForm(b, w, ReadOperand(a, Int(w), e).e);
    hide X86.SourceAt, ReadOperand, AluFlagOp, AluOpcode;
  }

  lemma RefersLater(f: Lazy, op: FlagOp, watch: Option<X86.Gpr>, w: Width, n: nat, n2: nat)
    requires Refers(f, op, watch, w, n) && n <= n2
    ensures Refers(f, op, watch, w, n2)
  {
  }

  lemma BinaryOperands(di: DecodedInstr)
    requires X86.Supported(di) && (IsAlu(di.mnemonic) || di.mnemonic.IMUL?)
    ensures X86.SourceAt(LhsOperand(di), X86.OperandWidth(di.Op(0))) && X86.SourceAt(RhsOperand(di), X86.OperandWidth(di.Op(0)))
    ensures DestWidth(di.Op(0)) == Int(X86.OperandWidth(di.Op(0)))
  {
  }

  lemma BinaryLifts(di: DecodedInstr, names: map<U64, string>, l: Lifted)
    requires X86.Supported(di) && (IsAlu(di.mnemonic) || di.mnemonic.IMUL?)
    ensures var (o, f) := LiftBinary(di.mnemonic, LhsOperand(di), RhsOperand(di), Int(X86.OperandWidth(di.Op(0))), l.e);
            LiftInstr(di, names, l).f == f && o.e.next <= LiftInstr(di, names, l).e.next
  {
    BinaryOperands(di);
    hide LiftBinary, WriteOperand, WriteReg, X86.SourceAt, X86.OperandWidth, DestWidth;
  }

  lemma BinaryCaptures(di: DecodedInstr, names: map<U64, string>, l: Lifted)
    requires X86.Supported(di) && (IsAlu(di.mnemonic) || di.mnemonic.IMUL?) && l.e.next >= 20
    ensures CapturedBy(LiftInstr(di, names, l).f, di, l.e.next, LiftInstr(di, names, l).e.next)
  {
    var m, a, b, w := di.mnemonic, LhsOperand(di), RhsOperand(di), X86.OperandWidth(di.Op(0));
    BinaryOp(di);
    BinaryOperands(di);
    BinaryLifts(di, names, l);
    hide X86.Supported, LiftInstr, LiftBinary, Refers, X86.SourceAt, FlagOpOf, AluFlagOp, LhsOperand, RhsOperand, X86.OperandWidth;
    BinaryRefers(m, a, b, w, l.e);
    var (o, f) := LiftBinary(m, a, b, Int(w), l.e);
    RefersLater(f, AluFlagOp(m), Watch(di), w, o.e.next, LiftInstr(di, names, l).e.next);
  }

  lemma BinaryOp(di: DecodedInstr)
    requires IsAlu(di.mnemonic) || di.mnemonic.IMUL?
    ensures FlagOpOf(di) == AluFlagOp(di.mnemonic)
  {
  }

  lemma UnaryCaptures(di: DecodedInstr, names: map<U64, string>, l: Lifted)
    requires X86.Supported(di) && di.mnemonic in {X86.NEG, X86.INC, X86.DEC} && l.e.next >= 20
    ensures CapturedBy(LiftInstr(di, names, l).f, di, l.e.next, LiftInstr(di, names, l).e.next)
  {
    hide Emitter.Push, WriteOperand, WriteReg;
  }

  /** The last instruction of the line that touches the captured flags is this one, and it sets them. */
  predicate Captor(instrs: seq<DecodedInstr>, k: nat) {
    && k < |instrs| && X86.Supported(instrs[k]) && SetsFlags(instrs[k].mnemonic)
    && forall j :: k < j < |instrs| ==> KeepsCapture(instrs[j].mnemonic)
  }

  lemma CapturedLater(f: Lazy, di: DecodedInstr, n: nat, n2: nat, next: nat, next2: nat)
    requires CapturedBy(f, di, n, next) && n2 <= n && next <= next2
    ensures CapturedBy(f, di, n2, next2)
  {
  }

  lemma {:induction false} LineCaptures(instrs: seq<DecodedInstr>, k: nat, names: map<U64, string>, l: Lifted)
    requires Captor(instrs, k) && l.e.next >= 20
    ensures CapturedBy(LiftAll(instrs, names, l).f, instrs[k], l.e.next, LiftAll(instrs, names, l).e.next)
  {
    hide CapturedBy, LiftInstr, X86.Supported, KeepsCapture;
    var init, last := instrs[..|instrs| - 1], instrs[|instrs| - 1];
    var mid := LiftAll(init, names, l);
    if k == |init| {
      if IsAlu(last.mnemonic) {
        BinaryCaptures(last, names, mid);
      } else if last.mnemonic.IMUL? {
        BinaryCaptures(last, names, mid);
      } else {
        UnaryCaptures(last, names, mid);
      }
      CapturedLater(LiftInstr(last, names, mid).f, last, mid.e.next, l.e.next, LiftInstr(last, names, mid).e.next, LiftInstr(last, names, mid).e.next);
    } else {
      LineCaptures(init, k, names, l);
      KeepsLazy(last, names, mid);
      CapturedLater(mid.f, instrs[k], l.e.next, l.e.next, mid.e.next, LiftInstr(last, names, mid).e.next);
    }
  }

  /** The flags of block j are captured by instruction k of block i: the nearest before it in key order. */
  predicate Nearest(parts: seq<Cfg.Block>, i: nat, k: nat, j: nat) {
    && i < j <= |parts| && Captor(parts[i], k)
    && forall b, d :: i < b < j && d in parts[b] ==> KeepsCapture(d.mnemonic)
  }

  lemma {:induction false} BlocksCapture(parts: seq<Cfg.Block>, names: map<U64, string>, i: nat, k: nat, j: nat)
    requires Nearest(parts, i, k, j)
    ensures CapturedBy(LiftParts(parts[..j], names).f, parts[i][k], LiftParts(parts[..i], names).next, LiftParts(parts[..i + 1], names).next)
    decreases j
  {
    hide CapturedBy, LiftParts, LiftAll, KeepsCapture, X86.Supported;
    LiftPartsNext(parts, j - 1, names);
    var c := LiftParts(parts[..j - 1], names);
    CounterStartsAt20(parts[..j - 1], names);
    if j == i + 1 {
      LineCaptures(parts[i], k, names, BlockStart(c.next, c.f));
    } else {
      BlocksCapture(parts, names, i, k, j - 1);
      LazyKept(parts[j - 1], names, BlockStart(c.next, c.f));
    }
  }

  // ----- how long the captured temporaries hold -----

  lemma {:induction false} OthersKept(insts: seq<Inst>, s: State, id: nat)
    requires forall i :: i in insts ==> Temporaries.Defines(i) != Some(id)
    ensures Exec(insts, s).Get(id) == s.Get(id)
  {
    if insts != [] {
      var init, i := insts[..|insts| - 1], insts[|insts| - 1];
      assert i in insts && forall k :: k in init ==> k in insts;
      OthersKept(init, s, id);
    }
  }

  /** The ids of the temporaries of block b. */
  predicate Owns(p: Lifting, b: nat, id: nat)
    requires b < |p.Parts()|
  {
    LiftParts(p.Parts()[..b], p.Names()).next <= id < LiftParts(p.Parts()[..b + 1], p.Names()).next
  }

  lemma CodeOwns(p: Lifting, b: nat, i: Inst)
    requires b < |p.Parts()| && i in p.Code()[b] && Temporaries.DefinesOther(i)
    ensures Owns(p, b, Temporaries.Defines(i).value)
  {
    hide LiftParts, LiftAll, Temporaries.Tidy, Cfg.Split, Cfg.Leaders;
    var parts, names := p.Parts(), p.Names();
    LiftPartAt(parts, names, b);
    LiftPartsNext(parts, b, names);
    var c := LiftParts(parts[..b], names);
    var l0 := BlockStart(c.next, c.f);
    EmptyIsTidy(c.next);
    Temporaries.TidyAll(parts[b], names, l0, c.next);
    Temporaries.TidyClose(parts[b], names, LiftAll(parts[b], names, l0).e, c.next);
    TidyOwns(LiftBlock(parts[b], names, l0).e, c.next, i);
  }

  lemma EmptyIsTidy(n: nat)
    ensures Temporaries.Tidy(Emitter([], n, false), n)
  {
  }

  lemma TidyOwns(e: Emitter, lo: nat, i: Inst)
    requires Temporaries.Tidy(e, lo) && i in e.insts && Temporaries.DefinesOther(i)
    ensures lo <= Temporaries.Defines(i).value < e.next
  {
  }

  lemma IdsGrow(parts: seq<Cfg.Block>, names: map<U64, string>, a: nat, b: nat)
    requires a <= b <= |parts|
    ensures LiftParts(parts[..a], names).next <= LiftParts(parts[..b], names).next
  {
    hide LiftParts;
    if a < b {
      LiftPartAt(parts[..b], names, a);
      assert parts[..b][..a] == parts[..a];
    }
  }

  /** Running a block changes no temporary of another block. */
  lemma BlockKeepsOthers(p: Lifting, b: nat, i: nat, id: nat, s: State)
    requires b < |p.Parts()| && i < |p.Parts()| && b != i && Owns(p, i, id)
    ensures Exec(p.Code()[b], s).Get(id) == s.Get(id)
  {
    hide LiftParts, Exec, Cfg.Split, Cfg.Leaders;
    CounterStartsAt20(p.Parts()[..i], p.Names());
    if b < i { IdsGrow(p.Parts(), p.Names(), b + 1, i); } else { IdsGrow(p.Parts(), p.Names(), i + 1, b); }
    forall c | c in p.Code()[b] ensures Temporaries.Defines(c) != Some(id) {
      if Temporaries.DefinesOther(c) { CodeOwns(p, b, c); }
    }
    OthersKept(p.Code()[b], s, id);
  }

  // ----- what was captured on the last visit of each block -----

  /** For blocks that set flags, the instruction that did so on the last visit. */
  type History = map<nat, Setter>

  /** What block i captures is what c captured. */
  ghost predicate ToldAt(p: Lifting, i: nat, c: Setter, s: State) {
    && i < |p.Parts()|
    && (exists k: nat :: Captor(p.Parts()[i], k) && p.Parts()[i][k] == c.di)
    && var code := LiftParts(p.Parts()[..i + 1], p.Names());
       Told(Some(c), code.f, s, code.next)
  }

  ghost predicate Known(p: Lifting, h: History, s: State) {
    forall i :: i in h ==> ToldAt(p, i, h[i], s)
  }

  /** The instruction whose captured flags are tested on entry to block j: that of the nearest block before
      it in key order that touches the flags, on its last visit. */
  function Source(p: Lifting, h: History, j: nat): Option<Setter>
    requires j <= |p.Parts()|
  {
    if j == 0 then None
    else if forall d :: d in p.Parts()[j - 1] ==> KeepsCapture(d.mnemonic) then Source(p, h, j - 1)
    else if j - 1 in h then Some(h[j - 1]) else None
  }

  lemma {:induction false} SourceTold(p: Lifting, h: History, j: nat, s: State)
    requires j <= |p.Parts()| && Known(p, h, s)
    ensures var code := LiftParts(p.Parts()[..j], p.Names()); Told(Source(p, h, j), code.f, s, code.next)
  {
    hide LiftParts, LiftAll, Cfg.Split, Cfg.Leaders, KeepsCapture, Told;
    var parts := p.Parts();
    if j == 0 {
      NothingTold(LiftParts(parts[..j], p.Names()).f, s, LiftParts(parts[..j], p.Names()).next);
    } else if forall d :: d in p.Parts()[j - 1] ==> KeepsCapture(d.mnemonic) {
      SourceTold(p, h, j - 1, s);
      LiftPartsNext(parts, j - 1, p.Names());
      var c := LiftParts(parts[..j - 1], p.Names());
      LazyKept(parts[j - 1], p.Names(), BlockStart(c.next, c.f));
      ToldKept(Source(p, h, j), c.f, s, s, c.next, LiftParts(parts[..j], p.Names()).next);
    } else if j - 1 in h {
      assert ToldAt(p, j - 1, h[j - 1], s);
    } else {
      NothingTold(LiftParts(parts[..j], p.Names()).f, s, LiftParts(parts[..j], p.Names()).next);
    }
  }

  lemma NothingTold(f: Lazy, s: State, n: nat)
    ensures Told(None, f, s, n)
  {
  }

  /** Running a block changes nothing that another block captured. */
  lemma BlockKeepsTold(p: Lifting, b: nat, i: nat, c: Setter, s: State)
    requires b < |p.Parts()| && b != i && ToldAt(p, i, c, s)
    ensures ToldAt(p, i, c, Exec(p.Code()[b], s))
  {
    hide LiftParts, LiftAll, Cfg.Split, Cfg.Leaders, KeepsCapture, X86.Supported, Exec, FlagOpOf, Watch, FirstValue, ResultOf, SetsFlags;
    var parts, names := p.Parts(), p.Names();
    var k: nat :| Captor(parts[i], k) && parts[i][k] == c.di;
    var start, code := LiftParts(parts[..i], names), LiftParts(parts[..i + 1], names);
    LiftPartsNext(parts, i, names);
    CounterStartsAt20(parts[..i], names);
    LineCaptures(parts[i], k, names, BlockStart(start.next, start.f));
    assert CapturedBy(code.f, c.di, start.next, code.next);
    BlockKeepsOthers(p, b, i, code.f.result.id, s);
    if Watch(c.di).None? && code.f.lhs.VReg? { BlockKeepsOthers(p, b, i, code.f.lhs.id, s); }
  }
}
