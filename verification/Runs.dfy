/** Runs of a lifted function: block after block its code does what the machine does, as long as the
    conditional jumps read the flags right. */
module Runs {
  import opened Wrappers
  import opened Bits
  import opened IR
  import opened Flags
  import opened Lifter
  import X86
  import opened Simulation
  import opened LiftMeans
  import FlagLaws
  import opened JumpLaws
  import opened Program
  import opened Captured
  import Cfg
  import Labels

  // ----- the machine alone -----

  lemma OperandsIgnoreRip(op: X86.Operand, w: Width, x: X86.Machine, rip: U64)
    ensures X86.ReadOp(x.(rip := rip), op, w) == X86.ReadOp(x, op, w)
    ensures forall v :: Fits(v, w) && X86.DestAt(op, w) ==>
              X86.WriteOp(x.(rip := rip), op, w, v) == X86.WriteOp(x, op, w, v).(rip := rip)
              && X86.WriteOp(x, op, w, v).rip == x.rip
  {
    hide LoadLE, StoreLE, Wrap, Bytes, Pow2;
    assert forall r :: X86.ReadReg(x.(rip := rip), r) == X86.ReadReg(x, r);
    WriteRegIgnoresRip(op, x, rip);
  }

  lemma ExecuteKeepsRip(di: DecodedInstr, x: X86.Machine, rip: U64)
    requires X86.Supported(di)
    ensures X86.Execute(di, x).rip == x.rip
    ensures X86.Execute(di, x.(rip := rip)) == X86.Execute(di, x).(rip := rip)
  {
    hide X86.Supported, X86.Execute;
    if SetsFlags(di.mnemonic) { SetterKeepsRip(di, x, rip); } else { MoveKeepsRip(di, x, rip); }
  }

  lemma MoveKeepsRip(di: DecodedInstr, x: X86.Machine, rip: U64)
    requires X86.Supported(di) && !SetsFlags(di.mnemonic)
    ensures X86.Execute(di, x).rip == x.rip
    ensures X86.Execute(di, x.(rip := rip)) == X86.Execute(di, x).(rip := rip)
  {
    hide X86.ReadOp, X86.WriteOp, X86.WriteReg, Wrap, Signed;
    OperandsIgnoreRip(di.Op(0), X86.OperandWidth(di.Op(0)), x, rip);
    OperandsIgnoreRip(di.Op(1), X86.OperandWidth(di.Op(0)), x, rip);
    OperandsIgnoreRip(di.Op(1), X86.OperandWidth(di.Op(1)), x, rip);
    WriteRegIgnoresRip(di.Op(0), x, rip);
  }

  lemma SetterKeepsRip(di: DecodedInstr, x: X86.Machine, rip: U64)
    requires X86.Supported(di) && SetsFlags(di.mnemonic)
    ensures X86.Execute(di, x).rip == x.rip
    ensures X86.Execute(di, x.(rip := rip)) == X86.Execute(di, x).(rip := rip)
  {
    hide X86.ReadOp, X86.WriteOp, X86.Alu, X86.AluFlags, X86.SubFlags, X86.IncFlags, X86.DecFlags, X86.ImulFlags, Wrap, Signed;
    var w := X86.OperandWidth(di.Op(0));
    OperandsIgnoreRip(di.Op(0), w, x, rip);
    OperandsIgnoreRip(di.Op(1), w, x, rip);
    OperandsIgnoreRip(di.Op(2), w, x, rip);
  }

  lemma WriteRegIgnoresRip(op: X86.Operand, x: X86.Machine, rip: U64)
    ensures op.RegOp? && op.r.Gp? ==> forall v :: Fits(v, op.r.w) ==>
              X86.WriteReg(x.(rip := rip), op.r, v) == X86.WriteReg(x, op.r, v).(rip := rip)
              && X86.WriteReg(x, op.r, v).rip == x.rip
  {
  }

  /** One more instruction at the end of a run. */
  lemma {:induction false} RunsToOneMore(program: seq<DecodedInstr>, x: X86.Machine, n: nat, y: X86.Machine, k: nat)
    requires X86.RunsTo(program, x, n, y)
    requires k < |program| && program[k].va == y.rip && X86.Steppable(program[k])
    ensures X86.RunsTo(program, x, n + 1, X86.StepInstr(program[k], y))
    decreases n
  {
    hide X86.StepInstr, X86.Steppable;
    if n == 0 {
      assert X86.RunsTo(program, X86.StepInstr(program[k], x), 0, X86.StepInstr(program[k], x));
    } else {
      var i :| 0 <= i < |program| && program[i].va == x.rip && X86.Steppable(program[i])
               && X86.RunsTo(program, X86.StepInstr(program[i], x), n - 1, y);
      RunsToOneMore(program, X86.StepInstr(program[i], x), n - 1, y, k);
    }
  }

  /** Straight-line code runs through to the instruction behind it. */
  lemma {:induction false} RunsStraight(program: seq<DecodedInstr>, a: nat, n: nat, x: X86.Machine)
    requires Cfg.Contiguous(program) && a + n < |program|
    requires x.rip == program[a].va && X86.AllSupported(program[a..a + n])
    ensures X86.RunsTo(program, x, n, X86.ExecuteAll(program[a..a + n], x).(rip := program[a + n].va))
  {
    hide X86.Supported, X86.Execute, X86.RunsTo;
    if n == 0 {
      RunsNowhere(program, x);
      assert x.(rip := program[a].va) == x;
    } else {
      var last := program[a + n - 1];
      ExecuteOneMore(program, a, n, x);
      RunsStraight(program, a, n - 1, x);
      var init := X86.ExecuteAll(program[a..a + n - 1], x);
      SupportedIsNoJump(last);
      RunsToOneMore(program, x, n - 1, init.(rip := last.va), a + n - 1);
      ExecuteKeepsRip(last, init, last.va);
    }
  }

  lemma RunsNowhere(program: seq<DecodedInstr>, x: X86.Machine)
    ensures X86.RunsTo(program, x, 0, x)
  {
  }

  lemma ExecuteOneMore(program: seq<DecodedInstr>, a: nat, n: nat, x: X86.Machine)
    requires n > 0 && a + n <= |program| && X86.AllSupported(program[a..a + n])
    ensures X86.AllSupported(program[a..a + n - 1]) && X86.Supported(program[a + n - 1])
    ensures X86.ExecuteAll(program[a..a + n], x) == X86.Execute(program[a + n - 1], X86.ExecuteAll(program[a..a + n - 1], x))
  {
    hide X86.Supported, X86.Execute;
    var line, init := program[a..a + n], program[a..a + n - 1];
    assert line[..n - 1] == init && line[n - 1] == program[a + n - 1];
    assert forall k :: 0 <= k < |init| ==> init[k] == line[k];
  }

  // ----- what closes a block -----

  /** The label control goes to after a block. */
  function NextLabel(insts: seq<Inst>, s: State): string {
    if insts == [] then ""
    else match insts[|insts| - 1]
         case Jmp(target) => target
         case Cjmp(c, ifTrue, ifFalse) => if Val(c, s) != 0 then ifTrue else ifFalse
         case _ => ""
  }

  /** From l1 to l2 the block is closed: the machine, the temporaries and the captured flags stay, and
      control goes to the label. */
  ghost predicate Closed(l1: Lifted, l2: Lifted, s: State, x: X86.Machine, name: string) {
    var s2 := Exec(l2.e.insts, s);
    && Related(s2, x) && TempsKept(l1.e.Run(s), s2, l1.e.next)
    && l1.e.next <= l2.e.next && l2.f == l1.f
    && NextLabel(l2.e.insts, s2) == name
  }

  /** The code of a conditional jump leaves the machine alone and goes where its condition says. */
  lemma JccCloses(di: DecodedInstr, names: map<U64, string>, l: Lifted, s: State, x: X86.Machine, b: bool)
    requires At(l.e, s, x) && X86.IsJcc(di.mnemonic) && FlagRequestForJcc(di.mnemonic).Some?
    requires Yields(l.e, Materialise(l.f, FlagRequestForJcc(di.mnemonic).value, l.e), s, b)
    ensures Closed(l, LiftInstr(di, names, l), s, x, LabelOf(names, if b then di.DirectTarget() else di.End()))
    ensures Terminated(LiftInstr(di, names, l).e.insts)
  {
    hide Yields, Materialise, Exec, Related, X86.Taken, NextLabel, LabelOf, At, TempsKept;
    var c := Materialise(l.f, FlagRequestForJcc(di.mnemonic).value, l.e);
    CjmpCode(l.e, c, LabelOf(names, di.DirectTarget()), LabelOf(names, di.End()), s, x, b);
  }

  lemma CjmpCode(e: Emitter, c: Out, ifTrue: string, ifFalse: string, s: State, x: X86.Machine, b: bool)
    requires At(e, s, x) && Yields(e, c, s, b)
    ensures var insts := c.e.Push(Cjmp(c.v, ifTrue, ifFalse)).insts;
            && Related(Exec(insts, s), x) && NextLabel(insts, Exec(insts, s)) == (if b then ifTrue else ifFalse)
            && TempsKept(e.Run(s), Exec(insts, s), e.next) && Terminated(insts)
  {
    hide Fresh, Related;
    GivesAt(e, c, s, I1, Flag(b), x);
    var insts := c.e.insts + [Cjmp(c.v, ifTrue, ifFalse)];
    assert insts[..|insts| - 1] == c.e.insts;
  }

  /** A JMP at the end of an open block goes to its label. */
  lemma JmpCloses(e: Emitter, target: string, f: Lazy, s: State, x: X86.Machine)
    requires At(e, s, x)
    ensures Closed(Lifted(e, f), Lifted(e.Push(Jmp(target)), f), s, x, target) && Terminated(e.Push(Jmp(target)).insts)
  {
    var insts := e.insts + [Jmp(target)];
    assert insts[..|e.insts|] == e.insts;
  }

  // ----- blocks -----

  predicate BlockRunnable(part: Cfg.Block) {
    part != [] && X86.AllSupported(part[..|part| - 1]) && X86.Steppable(part[|part| - 1])
  }

  function RunBlock(part: Cfg.Block, x: X86.Machine): X86.Machine
    requires BlockRunnable(part)
  {
    var last := part[|part| - 1];
    X86.StepInstr(last, X86.ExecuteAll(part[..|part| - 1], x).(rip := last.va))
  }

  /** The straight-line part of a block: all of it, or all but the direct jump that closes it. */
  function Body(part: Cfg.Block): (b: Cfg.Block)
    requires BlockRunnable(part)
    ensures X86.AllSupported(b)
  {
    var init, last := part[..|part| - 1], part[|part| - 1];
    if X86.IsDirectJump(last) then init
    else
      assert forall k :: 0 <= k < |init| ==> part[k] == init[k];
      part
  }

  lemma SupportedIsNoJump(di: DecodedInstr)
    requires X86.Supported(di)
    ensures !X86.IsJcc(di.mnemonic) && !di.mnemonic.JMP? && !X86.IsControlFlow(di.mnemonic)
  {
  }

  lemma JumpIsNotSupported(di: DecodedInstr)
    requires X86.IsDirectJump(di)
    ensures !X86.Supported(di) && X86.IsControlFlow(di.mnemonic) && (X86.IsJcc(di.mnemonic) ==> !di.mnemonic.JMP?)
  {
  }

  /** A block does what its body does, and moves the instruction pointer. */
  lemma RunsBody(part: Cfg.Block, x: X86.Machine)
    requires BlockRunnable(part)
    ensures RunBlock(part, x) == X86.ExecuteAll(Body(part), x).(rip := RunBlock(part, x).rip)
    ensures var last, flags := part[|part| - 1], X86.ExecuteAll(Body(part), x).flags;
            RunBlock(part, x).rip ==
              if last.mnemonic.JMP? || (X86.IsJcc(last.mnemonic) && X86.Taken(last.mnemonic, flags)) then last.DirectTarget() else last.End()
  {
    hide X86.Supported, X86.Execute, X86.Taken;
    var init, last := part[..|part| - 1], part[|part| - 1];
    if X86.IsDirectJump(last) {
      JumpIsNotSupported(last);
    } else {
      SupportedIsNoJump(last);
      ExecuteKeepsRip(last, X86.ExecuteAll(init, x), last.va);
    }
  }

  /** The instruction whose captured flags the jump at the end of the block tests. */
  function Tested(p: Lifting, j: nat, x: X86.Machine, h: History): Option<Setter>
    requires j < |p.Parts()| && BlockRunnable(p.Parts()[j])
  {
    LastSet(Body(p.Parts()[j]), x, Source(p, h, j))
  }

  /** The blocks that lifted code follows from x: supported straight-line code that falls through or ends in
      a direct jump, going on at a block; a conditional jump tests flags whose capture has been visited, and
      decides as the processor does. */
  ghost predicate RightBlock(p: Lifting, j: nat, x: X86.Machine, h: History)
    requires p.Valid() && j < |p.keys|
  {
    var part := p.Parts()[j];
    && BlockRunnable(part) && RunBlock(part, x).rip in p.keys
    && var m, y := part[|part| - 1].mnemonic, X86.ExecuteAll(Body(part), x);
       (X86.IsJcc(m) ==> Tested(p, j, x, h).Some? && (Decision(Tested(p, j, x, h).value, m, y) <==> X86.Taken(m, y.flags)))
  }

  /** The history after a visit of block j at x. */
  function Visit(p: Lifting, j: nat, x: X86.Machine, h: History): History
    requires j < |p.Parts()| && BlockRunnable(p.Parts()[j])
  {
    match LastSet(Body(p.Parts()[j]), x, None)
    case Some(c) => h[j := c]
    case None => h
  }

  /** A jump that tests the instruction whose flags the processor has too decides as the processor does
      exactly when JumpRight holds: always so when the flags are set in the block itself. */
  lemma RightIffJumpRight(p: Lifting, j: nat, x: X86.Machine, h: History)
    requires p.Valid() && j < |p.keys| && BlockRunnable(p.Parts()[j]) && X86.IsJcc(p.Parts()[j][|p.Parts()[j]| - 1].mnemonic)
    requires Current(Source(p, h, j), x) || LastSet(Body(p.Parts()[j]), x, None).Some?
    requires Tested(p, j, x, h).Some? && SetsFlags(Tested(p, j, x, h).value.di.mnemonic)
    requires Answered(Tested(p, j, x, h).value.di, p.Parts()[j][|p.Parts()[j]| - 1].mnemonic)
    ensures var part := p.Parts()[j];
            var c, m, y := Tested(p, j, x, h).value, part[|part| - 1].mnemonic, X86.ExecuteAll(Body(part), x);
            RightBlock(p, j, x, h) <==> RunBlock(part, x).rip in p.keys && JumpRight(c.di, m, c.x, y)
  {
    hide Cfg.Split, Cfg.Leaders, LiftParts, X86.Supported, X86.Execute, X86.Taken, X86.ExecuteAll, RunBlock, Body, LastSet, Source, JumpRight,
      Decision, SetsFlags, BlockRunnable;
    var part := p.Parts()[j];
    if LastSet(Body(part), x, None).Some? {
      OwnSetter(Body(part), x, Source(p, h, j));
      CurrentAfterAll(Body(part), None, x);
    } else {
      CurrentAfterAll(Body(part), Source(p, h, j), x);
    }
    DecisionExact(Tested(p, j, x, h).value, part[|part| - 1].mnemonic, X86.ExecuteAll(Body(part), x));
  }

  lemma {:induction false} OwnSetter(instrs: seq<DecodedInstr>, x: X86.Machine, o: Option<Setter>)
    requires X86.AllSupported(instrs) && LastSet(instrs, x, None).Some?
    ensures LastSet(instrs, x, o) == LastSet(instrs, x, None)
  {
    hide X86.Supported, X86.Execute, SetsFlags;
    if instrs != [] && !SetsFlags(instrs[|instrs| - 1].mnemonic) {
      OwnSetter(instrs[..|instrs| - 1], x, o);
    }
  }

  /** When control goes on at a block: behind a jump that is taken if its target is an instruction of the
      stream, and behind anything else if another block follows. */
  lemma SuccessorIsKey(p: Lifting, j: nat, x: X86.Machine)
    requires p.Valid() && j < |p.keys| && BlockRunnable(p.Parts()[j])
    ensures var part := p.Parts()[j];
            var last, flags := part[|part| - 1], X86.ExecuteAll(Body(part), x).flags;
            if last.mnemonic.JMP? || (X86.IsJcc(last.mnemonic) && X86.Taken(last.mnemonic, flags))
            then RunBlock(part, x).rip in p.keys <==> IsBoundary(p, last.DirectTarget())
            else j + 1 < |p.keys| ==> RunBlock(part, x).rip == p.keys[j + 1]
  {
    hide Cfg.Split, Cfg.Leaders, LiftParts, X86.Supported, X86.Execute, X86.Taken, X86.ExecuteAll, RunBlock, Body;
    var part := p.Parts()[j];
    RunsBody(part, x);
    BlockPlace(p, j);
    if j + 1 < |p.keys| { NextKey(p, j); }
    if X86.IsJcc(part[|part| - 1].mnemonic) || part[|part| - 1].mnemonic.JMP? {
      TransferIsFlow(part[|part| - 1]);
      TargetIsLabelled(p, Cfg.Start(p.Parts(), j) + |part| - 1);
    }
  }

  /** Straight-line code in front of another block is always right, and ends at that block. */
  lemma FallThroughIsRight(p: Lifting, j: nat, x: X86.Machine, h: History)
    requires p.Valid() && j + 1 < |p.keys| && X86.AllSupported(p.Parts()[j])
    ensures RightBlock(p, j, x, h)
    ensures RunBlock(p.Parts()[j], x) == X86.ExecuteAll(p.Parts()[j], x).(rip := p.keys[j + 1])
  {
    hide Cfg.Split, Cfg.Leaders, LiftParts, X86.Supported, X86.Execute, X86.Taken, X86.ExecuteAll, RunBlock;
    NextKey(p, j);
    var part := p.Parts()[j];
    assert forall k :: 0 <= k < |part| - 1 ==> part[..|part| - 1][k] == part[k];
    SupportedIsNoJump(part[|part| - 1]);
    SuccessorIsKey(p, j, x);
    RunsBody(part, x);
  }

  lemma TransferIsFlow(di: DecodedInstr)
    requires X86.IsJcc(di.mnemonic) || di.mnemonic.JMP?
    ensures X86.IsControlFlow(di.mnemonic)
  {
  }

  /** Without a flag-setting instruction nothing is known, and neither is after IMUL. */
  lemma {:induction false} KnownHasSetter(body: Cfg.Block) returns (k: nat)
    requires X86.AllSupported(body) && AfterAll(body, NOTHING) != NOTHING
    ensures LastSetter(body, k) && !body[k].mnemonic.IMUL? && X86.AllSupported(body[..k])
  {
    hide X86.Supported;
    var init, last := body[..|body| - 1], body[|body| - 1];
    if SetsFlags(last.mnemonic) {
      k := |init|;
    } else {
      NothingStays(last, AfterAll(init, NOTHING));
      k := KnownHasSetter(init);
      assert init[..k] == body[..k];
    }
  }

  lemma NothingStays(di: DecodedInstr, k: Know)
    requires X86.Supported(di) && !SetsFlags(di.mnemonic) && After(di, k) != NOTHING
    ensures k != NOTHING
  {
  }

  lemma JccIsKnown(m: X86.Mnemonic, k: Know)
    requires JccExact(m, k)
    ensures X86.IsJcc(m) && k != NOTHING
  {
  }

  /** A jump whose flags are known decides as the processor does, whatever the machine and whatever was
      captured before. */
  lemma KnownGoesRight(body: Cfg.Block, m: X86.Mnemonic, o: Option<Setter>, l: Lifted, s: State, x: X86.Machine)
    requires At(l.e, s, x) && X86.AllSupported(body) && JccExact(m, AfterAll(body, NOTHING))
    ensures LastSet(body, x, o).Some?
    ensures Decision(LastSet(body, x, o).value, m, X86.ExecuteAll(body, x)) <==> X86.Taken(m, X86.ExecuteAll(body, x).flags)
  {
    hide X86.Supported, X86.Execute, LiftAll, AfterAll, Materialise, Decision, X86.Taken, At;
    JccIsKnown(m, AfterAll(body, NOTHING));
    var k := KnownHasSetter(body);
    LastSetIs(body, k, x, o);
    LastSetIs(body, k, x, None);
    FlagLaws.StraightLineThenJump(body, m, map[], l, s, x);
    JumpDecides(body, None, m, map[], l, s, x);
  }

  /** The machine runs through the block. */
  lemma BlockRuns(p: Lifting, j: nat, x: X86.Machine)
    requires p.Valid() && j < |p.keys| && BlockRunnable(p.Parts()[j]) && x.rip == p.keys[j]
    ensures X86.RunsTo(p.instrs, x, |p.Parts()[j]|, RunBlock(p.Parts()[j], x))
  {
    hide Cfg.Split, Cfg.Leaders, LiftParts, X86.Supported, X86.Execute, X86.RunsTo, X86.StepInstr;
    var part := p.Parts()[j];
    var a, n := Cfg.Start(p.Parts(), j), |part| - 1;
    BlockPlace(p, j);
    RunsStraight(p.instrs, a, n, x);
    RunsToOneMore(p.instrs, x, n, X86.ExecuteAll(part[..n], x).(rip := part[n].va), a + n);
  }

  lemma LiftLast(part: Cfg.Block, names: map<U64, string>, l0: Lifted)
    requires BlockRunnable(part)
    ensures var l1, last := LiftAll(Body(part), names, l0), part[|part| - 1];
            LiftAll(part, names, l0) == if X86.IsDirectJump(last) then LiftInstr(last, names, l1) else l1
  {
    hide X86.Supported, LiftInstr;
  }

  /** A block that ends in a conditional jump does what its body does, and goes where the test of the
      captured flags says. */
  lemma JccBlock(part: Cfg.Block, o: Option<Setter>, names: map<U64, string>, l0: Lifted, s: State, x: X86.Machine)
    requires BlockRunnable(part) && X86.IsJcc(part[|part| - 1].mnemonic)
    requires At(l0.e, s, x) && Told(o, l0.f, l0.e.Run(s), l0.e.next) && LastSet(Body(part), x, o).Some?
    ensures var y, last := X86.ExecuteAll(Body(part), x), part[|part| - 1];
            Closed(LiftAll(Body(part), names, l0), LiftBlock(part, names, l0), s, y,
                   LabelOf(names, if Decision(LastSet(Body(part), x, o).value, last.mnemonic, y) then last.DirectTarget() else last.End()))
  {
    hide X86.Supported, X86.Execute, LiftAll, LiftInstr, Decision, LastSet, Told, X86.Taken, Yields, Materialise, Closed, LabelOf,
      X86.ExecuteAll, Related, Exec, WellTerminated;
    var body, last := Body(part), part[|part| - 1];
    SupportedOrJump(last);
    LiftLast(part, names, l0);
    ToldAfterAll(body, o, names, l0, s, x);
    JumpDecides(body, o, last.mnemonic, names, l0, s, x);
    var y, l1 := X86.ExecuteAll(body, x), LiftAll(body, names, l0);
    JccCloses(last, names, l1, s, y, Decision(LastSet(body, x, o).value, last.mnemonic, y));
  }

  lemma SupportedOrJump(di: DecodedInstr)
    requires X86.Steppable(di) && (X86.IsJcc(di.mnemonic) || di.mnemonic.JMP?)
    ensures X86.IsDirectJump(di)
  {
  }

  /** A block that ends in a JMP to a block, or falls through, does what its body does and goes on there. */
  lemma PlainBlock(part: Cfg.Block, o: Option<Setter>, names: map<U64, string>, l0: Lifted, s: State, x: X86.Machine)
    requires BlockRunnable(part) && !X86.IsJcc(part[|part| - 1].mnemonic)
    requires At(l0.e, s, x) && Told(o, l0.f, l0.e.Run(s), l0.e.next)
    requires part[|part| - 1].mnemonic.JMP? ==> part[|part| - 1].DirectTarget() in names
    ensures var y, last := X86.ExecuteAll(Body(part), x), part[|part| - 1];
            Closed(LiftAll(Body(part), names, l0), LiftBlock(part, names, l0), s, y,
                   LabelOf(names, if last.mnemonic.JMP? then last.DirectTarget() else last.End()))
  {
    hide X86.Supported, X86.Execute, LiftAll, LastSet, Told, Closed, X86.ExecuteAll, Related, Exec, WellTerminated;
    var body, last := Body(part), part[|part| - 1];
    LiftLast(part, names, l0);
    ToldAfterAll(body, o, names, l0, s, x);
    var y, l1 := X86.ExecuteAll(body, x), LiftAll(body, names, l0);
    var target := LabelOf(names, if last.mnemonic.JMP? then last.DirectTarget() else last.End());
    JmpCloses(l1.e, target, l1.f, s, y);
    if last.mnemonic.JMP? {
      SupportedOrJump(last);
      assert LiftInstr(last, names, l1) == Lifted(l1.e.Push(Jmp(target)), l1.f);
    } else {
      assert !X86.IsDirectJump(last);
    }
  }

  /** The state of things where block j starts. */
  lemma BlockEntry(p: Lifting, j: nat, s: State, x: X86.Machine, h: History)
    requires p.Valid() && j < |p.keys| && Related(s, x) && Known(p, h, s)
    ensures var c := LiftParts(p.Parts()[..j], p.Names());
            var l0 := BlockStart(c.next, c.f);
            var l := LiftBlock(p.Parts()[j], p.Names(), l0);
            && At(l0.e, s, x) && Told(Source(p, h, j), l0.f, l0.e.Run(s), l0.e.next) && p.Code()[j] == l.e.insts
            && LiftParts(p.Parts()[..j + 1], p.Names()).f == l.f && LiftParts(p.Parts()[..j + 1], p.Names()).next == l.e.next
  {
    hide Cfg.Split, Cfg.Leaders, LiftParts, LiftBlock, Told, Related, Source, Known;
    LiftPartAt(p.Parts(), p.Names(), j);
    LiftPartsNext(p.Parts(), j, p.Names());
    CounterStartsAt20(p.Parts()[..j], p.Names());
    SourceTold(p, h, j, s);
  }

  lemma {:induction false} SetterIsCaptor(part: Cfg.Block, instrs: seq<DecodedInstr>, x: X86.Machine) returns (k: nat)
    requires X86.AllSupported(instrs) && LastSet(instrs, x, None).Some?
    requires |instrs| <= |part| && part[..|instrs|] == instrs && forall i :: |instrs| <= i < |part| ==> KeepsCapture(part[i].mnemonic)
    ensures Captor(part, k) && part[k] == LastSet(instrs, x, None).value.di
  {
    hide X86.Supported, X86.Execute, SetsFlags, KeepsCapture;
    var init, last := instrs[..|instrs| - 1], instrs[|instrs| - 1];
    if SetsFlags(last.mnemonic) {
      k := |init|;
    } else {
      PlainKeepsCapture([last]);
      assert last in [last];
      assert part[..|init|] == init;
      k := SetterIsCaptor(part, init, x);
    }
  }

  lemma {:induction false} NoSetter(instrs: seq<DecodedInstr>, x: X86.Machine, i: nat)
    requires X86.AllSupported(instrs) && LastSet(instrs, x, None).None? && i < |instrs|
    ensures !SetsFlags(instrs[i].mnemonic)
  {
    hide X86.Supported, X86.Execute, SetsFlags;
    if i < |instrs| - 1 { NoSetter(instrs[..|instrs| - 1], x, i); }
  }

  lemma JumpKeepsCapture(di: DecodedInstr)
    requires X86.IsDirectJump(di)
    ensures KeepsCapture(di.mnemonic) && !SetsFlags(di.mnemonic)
  {
  }

  /** A visit keeps the history true. */
  lemma VisitKnown(p: Lifting, j: nat, s: State, x: X86.Machine, h: History)
    requires p.Valid() && j < |p.keys| && BlockRunnable(p.Parts()[j]) && Known(p, h, s)
    requires var code := LiftParts(p.Parts()[..j + 1], p.Names());
             Told(LastSet(Body(p.Parts()[j]), x, None), code.f, Exec(p.Code()[j], s), code.next)
    ensures Known(p, Visit(p, j, x, h), Exec(p.Code()[j], s))
  {
    hide Cfg.Split, Cfg.Leaders, LiftParts, Told, X86.Supported, LastSet, Exec, KeepsCapture, SetsFlags, ToldAt;
    var part, s2, h2 := p.Parts()[j], Exec(p.Code()[j], s), Visit(p, j, x, h);
    if X86.IsDirectJump(part[|part| - 1]) { JumpKeepsCapture(part[|part| - 1]); }
    var own := LastSet(Body(part), x, None);
    forall i | i in h2 ensures ToldAt(p, i, h2[i], s2) {
      if i != j {
        BlockKeepsTold(p, j, i, h[i], s);
      } else if own.Some? {
        var k := SetterIsCaptor(part, Body(part), x);
        IsToldAt(p, j, k, own.value, s2);
      } else {
        NotInHistory(p, j, x, h, s);
      }
    }
  }

  lemma IsToldAt(p: Lifting, i: nat, k: nat, c: Setter, s: State)
    requires i < |p.Parts()| && Captor(p.Parts()[i], k) && p.Parts()[i][k] == c.di
    requires var code := LiftParts(p.Parts()[..i + 1], p.Names()); Told(Some(c), code.f, s, code.next)
    ensures ToldAt(p, i, c, s)
  {
  }

  /** A block whose body sets no flags is in no history. */
  lemma NotInHistory(p: Lifting, j: nat, x: X86.Machine, h: History, s: State)
    requires j < |p.Parts()| && BlockRunnable(p.Parts()[j]) && Known(p, h, s) && LastSet(Body(p.Parts()[j]), x, None).None?
    ensures j !in h
  {
    hide Cfg.Split, Cfg.Leaders, LiftParts, Told, X86.Supported, LastSet, KeepsCapture, SetsFlags;
    var part := p.Parts()[j];
    if j in h {
      assert ToldAt(p, j, h[j], s);
      var k: nat :| Captor(part, k) && part[k] == h[j].di;
      if k < |Body(part)| { NoSetter(Body(part), x, k); } else { JumpKeepsCapture(part[k]); }
    }
  }

  /** One block: the lifted code, run from a related state, ends related to what the machine has after the
      block's instructions, goes to the label of the address the machine is at, and keeps the history. */
  lemma BlockSimulates(p: Lifting, j: nat, s: State, x: X86.Machine, h: History)
    requires p.Valid() && j < |p.keys| && RightBlock(p, j, x, h)
    requires Related(s, x) && x.rip == p.keys[j] && Known(p, h, s)
    ensures var y, s2 := RunBlock(p.Parts()[j], x), Exec(p.Code()[j], s);
            && Related(s2, y) && NextLabel(p.Code()[j], s2) == Labels.MakeLabel(y.rip)
            && X86.RunsTo(p.instrs, x, |p.Parts()[j]|, y)
            && Known(p, Visit(p, j, x, h), s2)
  {
    hide Cfg.Split, Cfg.Leaders, LiftParts, LiftBlock, LiftAll, Told, X86.Supported, Decision, X86.Taken, X86.RunsTo, RunBlock,
      Body, X86.ExecuteAll, LastSet, Exec, At, NextLabel, BlockRunnable, Known, Visit, Source;
    var part, names := p.Parts()[j], p.Names();
    var c := LiftParts(p.Parts()[..j], names);
    var l0 := BlockStart(c.next, c.f);
    var o := Source(p, h, j);
    BlockEntry(p, j, s, x, h);
    BlockRuns(p, j, x);
    RunsBody(part, x);
    var y, l1, l2 := X86.ExecuteAll(Body(part), x), LiftAll(Body(part), names, l0), LiftBlock(part, names, l0);
    if X86.IsJcc(part[|part| - 1].mnemonic) {
      JccBlock(part, o, names, l0, s, x);
      JccIsNoJmp(part[|part| - 1].mnemonic);
    } else {
      PlainBlock(part, o, names, l0, s, x);
    }
    OwnTold(part, names, l0, s, x, l2);
    VisitKnown(p, j, s, x, h);
  }

  /** What the block's own instructions have captured holds behind its closing jump. */
  lemma OwnTold(part: Cfg.Block, names: map<U64, string>, l0: Lifted, s: State, x: X86.Machine, l2: Lifted)
    requires BlockRunnable(part) && At(l0.e, s, x)
    requires exists name :: Closed(LiftAll(Body(part), names, l0), l2, s, X86.ExecuteAll(Body(part), x), name)
    ensures Told(LastSet(Body(part), x, None), l2.f, Exec(l2.e.insts, s), l2.e.next)
  {
    hide LiftAll, Told, X86.Supported, Body, X86.ExecuteAll, LastSet, Exec, At, NextLabel, BlockRunnable;
    var l1 := LiftAll(Body(part), names, l0);
    NothingTold(l0.f, l0.e.Run(s), l0.e.next);
    ToldAfterAll(Body(part), None, names, l0, s, x);
    ToldKept(LastSet(Body(part), x, None), l1.f, l1.e.Run(s), Exec(l2.e.insts, s), l1.e.next, l2.e.next);
  }

  lemma JccIsNoJmp(m: X86.Mnemonic)
    requires X86.IsJcc(m)
    ensures !m.JMP?
  {
  }

  /** A block whose jump does not decide as the processor does: registers and memory are still the
      machine's, and control goes to the other of the jump's two successors. */
  lemma WrongJumpGoesAstray(p: Lifting, j: nat, s: State, x: X86.Machine, h: History)
    requires p.Valid() && j < |p.keys| && BlockRunnable(p.Parts()[j]) && Related(s, x) && Known(p, h, s)
    requires var part := p.Parts()[j];
             var m, y := part[|part| - 1].mnemonic, X86.ExecuteAll(Body(part), x);
             X86.IsJcc(m) && Tested(p, j, x, h).Some? && (Decision(Tested(p, j, x, h).value, m, y) <==> !X86.Taken(m, y.flags))
    ensures var part := p.Parts()[j];
            var y, last, s2 := X86.ExecuteAll(Body(part), x), part[|part| - 1], Exec(p.Code()[j], s);
            && Related(s2, y)
            && NextLabel(p.Code()[j], s2) ==
                 LabelOf(p.Names(), if X86.Taken(last.mnemonic, y.flags) then last.End() else last.DirectTarget())
  {
    hide Cfg.Split, Cfg.Leaders, LiftParts, LiftBlock, LiftAll, Told, X86.Supported, Decision, X86.Taken, RunBlock,
      Body, X86.ExecuteAll, Exec, At, NextLabel, BlockRunnable, LastSet, Source;
    var c := LiftParts(p.Parts()[..j], p.Names());
    BlockEntry(p, j, s, x, h);
    JccBlock(p.Parts()[j], Source(p, h, j), p.Names(), BlockStart(c.next, c.f), s, x);
  }

  // ----- runs -----

  /** The block a label names, or the number of blocks when it names none. */
  function IndexOfLabel(keys: seq<U64>, name: string, from: nat): (j: nat)
    requires from <= |keys|
    ensures from <= j <= |keys| && (j < |keys| ==> Labels.MakeLabel(keys[j]) == name)
    ensures forall i :: from <= i < j ==> Labels.MakeLabel(keys[i]) != name
    decreases |keys| - from
  {
    if from == |keys| || Labels.MakeLabel(keys[from]) == name then from else IndexOfLabel(keys, name, from + 1)
  }

  lemma {:induction false} IndexOfKey(keys: seq<U64>, va: U64, from: nat)
    requires from <= |keys| && va in keys[from..]
    ensures var j := IndexOfLabel(keys, Labels.MakeLabel(va), from); j < |keys| && keys[j] == va
    decreases |keys| - from
  {
    Labels.LabelInjective(keys[from], va);
    if keys[from] != va {
      assert keys[from..][1..] == keys[from + 1..];
      IndexOfKey(keys, va, from + 1);
    }
  }

  /** The state of the lifted function: which block is next, and the registers and memory. */
  datatype IRState = IRState(block: nat, s: State)

  /** Executing one block of the lifted function. */
  function StepBlock(p: Lifting, t: IRState): IRState
    requires p.Valid() && t.block < |p.keys|
  {
    var s2 := Exec(p.Code()[t.block], t.s);
    IRState(IndexOfLabel(p.keys, NextLabel(p.Code()[t.block], s2), 0), s2)
  }

  /** The block at the machine's instruction pointer; the number of blocks when there is none. */
  function BlockOf(p: Lifting, x: X86.Machine): nat {
    IndexOfLabel(p.keys, Labels.MakeLabel(x.rip), 0)
  }

  /** The next n blocks the machine runs through from x are all right. */
  ghost predicate RightRun(p: Lifting, x: X86.Machine, h: History, n: nat)
    requires p.Valid()
    decreases n
  {
    var j := BlockOf(p, x);
    n > 0 ==>
      && j < |p.keys| && RightBlock(p, j, x, h)
      && RightRun(p, RunBlock(p.Parts()[j], x), Visit(p, j, x, h), n - 1)
  }

  /** The next n blocks of the lifted function, or fewer when control leaves it. */
  function RunBlocks(p: Lifting, t: IRState, n: nat): IRState
    requires p.Valid()
    decreases n
  {
    if n == 0 || t.block >= |p.keys| then t else RunBlocks(p, StepBlock(p, t), n - 1)
  }

  lemma {:induction false} RunsToCompose(program: seq<DecodedInstr>, x: X86.Machine, n: nat, y: X86.Machine, m: nat, z: X86.Machine)
    requires X86.RunsTo(program, x, n, y) && X86.RunsTo(program, y, m, z)
    ensures X86.RunsTo(program, x, n + m, z)
    decreases n
  {
    hide X86.StepInstr, X86.Steppable;
    if n > 0 {
      var i :| 0 <= i < |program| && program[i].va == x.rip && X86.Steppable(program[i])
               && X86.RunsTo(program, X86.StepInstr(program[i], x), n - 1, y);
      RunsToCompose(program, X86.StepInstr(program[i], x), n - 1, y, m, z);
    }
  }

  lemma KeysDiffer(p: Lifting, i: nat, j: nat)
    requires p.Valid() && i < |p.keys| && j < |p.keys| && p.keys[i] == p.keys[j]
    ensures i == j
  {
    hide Cfg.Split, Cfg.Leaders, LiftParts;
  }

  lemma StepSimulates(p: Lifting, t: IRState, x: X86.Machine, h: History)
    requires p.Valid() && t.block < |p.keys| && RightBlock(p, t.block, x, h)
    requires x.rip == p.keys[t.block] && Related(t.s, x) && Known(p, h, t.s)
    ensures var y, u := RunBlock(p.Parts()[t.block], x), StepBlock(p, t);
            && X86.RunsTo(p.instrs, x, |p.Parts()[t.block]|, y) && |p.Parts()[t.block]| >= 1
            && u.block < |p.keys| && y.rip == p.keys[u.block] && Related(u.s, y)
            && Known(p, Visit(p, t.block, x, h), u.s)
  {
    hide Exec, Cfg.Split, Cfg.Leaders, LiftParts, RunBlock, Related, X86.RunsTo, NextLabel, LastSet, Body, Decision, Source, Known, Visit,
      X86.Supported;
    BlockSimulates(p, t.block, t.s, x, h);
    assert p.keys[0..] == p.keys;
    IndexOfKey(p.keys, RunBlock(p.Parts()[t.block], x).rip, 0);
  }

  /** Some run of at least n instructions takes the machine from x to a state related to u. */
  ghost predicate Matched(p: Lifting, x: X86.Machine, n: nat, u: IRState)
    requires p.Valid()
  {
    exists m: nat, y: X86.Machine ::
      m >= n && X86.RunsTo(p.instrs, x, m, y)
      && u.block < |p.keys| && y.rip == p.keys[u.block] && Related(u.s, y)
  }

  /** Whole runs: while the machine runs through blocks that fall through or whose jumps decide as the
      processor does, the lifted function, entered from a related state at the block the machine is at, runs
      through the same blocks, and each ends in a state related to the machine's, at the block it is at. */
  lemma {:induction false} RunSimulates(p: Lifting, t: IRState, n: nat, x: X86.Machine, h: History)
    requires p.Valid() && RightRun(p, x, h, n)
    requires t.block < |p.keys| && x.rip == p.keys[t.block] && Related(t.s, x) && Known(p, h, t.s)
    ensures Matched(p, x, n, RunBlocks(p, t, n))
    decreases n
  {
    hide StepBlock, RunBlock, Related, X86.RunsTo, BlockRunnable, Known, Visit, Decision, Source;
    assert p.keys[0..] == p.keys;
    IndexOfKey(p.keys, x.rip, 0);
    KeysDiffer(p, BlockOf(p, x), t.block);
    if n == 0 {
      RunsNowhere(p.instrs, x);
    } else {
      StepSimulates(p, t, x, h);
      var mid, k, u := RunBlock(p.Parts()[t.block], x), |p.Parts()[t.block]|, RunBlocks(p, t, n);
      RunSimulates(p, StepBlock(p, t), n - 1, mid, Visit(p, t.block, x, h));
      var m: nat, y: X86.Machine :| m >= n - 1 && X86.RunsTo(p.instrs, mid, m, y)
        && u.block < |p.keys| && y.rip == p.keys[u.block] && Related(u.s, y);
      RunsToCompose(p.instrs, x, k, mid, m, y);
    }
  }

  /** Nothing has to be known at the start. */
  lemma NoHistory(p: Lifting, s: State)
    ensures Known(p, map[], s)
  {
  }
}
