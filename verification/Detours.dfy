/** Jumps that test flags of a block control has not come through: what they decide, and a function in
    which that is wrong. */
module Detours {
  import opened Wrappers
  import opened Bits
  import opened IR
  import opened Flags
  import opened Lifter
  import X86
  import opened Simulation
  import opened LiftMeans
  import opened JumpLaws
  import opened Program
  import opened Captured
  import opened Runs
  import Cfg
  import Labels
  import Deviations
  import FlagLaws

  lemma StartRuns(n: nat, f: Lazy, s: State)
    ensures BlockStart(n, f).e.Run(s) == s
  {
  }

  lemma RefersCaptures(f: Lazy, op: FlagOp, watch: Option<X86.Gpr>, w: Width, s: State, n: nat, n2: nat)
    requires Refers(f, op, watch, w, n) && n <= n2
    ensures Captures(f, op, watch, Val(f.lhs, s), Val(f.result, s), w, s, n2)
  {
  }

  /** A block that sets no flags, entered from anywhere and with any history: its code does what its body
      does, and the jump tests what the flag-setting instruction nearest before it in key order would have
      captured, with whatever the captured temporaries hold. */
  lemma ElsewhereDecides(p: Lifting, i: nat, k: nat, j: nat, s: State, x: X86.Machine)
    requires p.Valid() && j < |p.keys| && Nearest(p.Parts(), i, k, j) && Related(s, x)
    requires BlockRunnable(p.Parts()[j]) && X86.IsJcc(p.Parts()[j][|p.Parts()[j]| - 1].mnemonic)
    requires forall d :: d in Body(p.Parts()[j]) ==> !SetsFlags(d.mnemonic)
    ensures var part, di, f := p.Parts()[j], p.Parts()[i][k], LiftParts(p.Parts()[..j], p.Names()).f;
            var y, last, s2 := X86.ExecuteAll(Body(part), x), part[|part| - 1], Exec(p.Code()[j], s);
            var v := match Watch(di) { case Some(g) => y.Reg(g) case None => Val(f.lhs, s) };
            var goes := X86.Taken(last.mnemonic, LazyFlags(FlagOpOf(di), v, Val(f.result, s), X86.OperandWidth(di.Op(0))));
            && Related(s2, y)
            && NextLabel(p.Code()[j], s2) == LabelOf(p.Names(), if goes then last.DirectTarget() else last.End())
  {
    hide Cfg.Split, Cfg.Leaders, LiftParts, LiftAll, LiftInstr, X86.Supported, X86.Taken, LazyFlags, FlagOpOf, Watch, Captures, X86.ExecuteAll,
      Exec, NextLabel, Related, SetsFlags, KeepsCapture, Body, Materialise, Yields, WellTerminated, Terminated, Refers;
    var part, di, names := p.Parts()[j], p.Parts()[i][k], p.Names();
    var c := LiftParts(p.Parts()[..j], names);
    var l0, last := BlockStart(c.next, c.f), part[|part| - 1];
    var a, r, w := Val(c.f.lhs, s), Val(c.f.result, s), X86.OperandWidth(di.Op(0));
    StartRuns(c.next, c.f, s);
    BlocksCapture(p.Parts(), names, i, k, j);
    IdsGrow(p.Parts(), names, i + 1, j);
    RefersCaptures(c.f, FlagOpOf(di), Watch(di), w, s, LiftParts(p.Parts()[..i + 1], names).next, c.next);
    NoHistory(p, s);
    BlockEntry(p, j, s, x, map[]);
    NothingTold(l0.f, l0.e.Run(s), l0.e.next);
    ToldAfterAll(Body(part), None, names, l0, s, x);
    InheritedJump(Body(part), FlagOpOf(di), Watch(di), a, r, w, last.mnemonic, names, l0, s, x);
    SupportedOrJump(last);
    LiftLast(part, names, l0);
    var y := X86.ExecuteAll(Body(part), x);
    var v := match Watch(di) { case Some(g) => y.Reg(g) case None => a };
    JccCloses(last, names, LiftAll(Body(part), names, l0), s, y, X86.Taken(last.mnemonic, LazyFlags(FlagOpOf(di), v, r, w)));
  }

  // ----- a function in which that is wrong -----

  const COMPARE := X86.DecodedInstr(0x1000, 4, X86.CMP, [Deviations.Reg(X86.RAX, W64), Deviations.Reg(X86.RBX, W64)])
  const SKIP := X86.DecodedInstr(0x1004, 4, X86.JMP, [X86.ImmOp(4, true, 32)])
  const OTHER := X86.DecodedInstr(0x1008, 4, X86.CMP, [Deviations.Reg(X86.RCX, W64), Deviations.Reg(X86.RDX, W64)])
  const TEST := X86.DecodedInstr(0x100C, 4, X86.JZ, [X86.ImmOp(-0x10, true, 32)])
  const REST := X86.DecodedInstr(0x1010, 4, X86.NOP, [])

  /** CMP RAX, RBX; JMP over CMP RCX, RDX to JZ back to the start. */
  const STRAY := Lifting([COMPARE, SKIP, OTHER, TEST, REST], [0x1000, 0x1008, 0x100C, 0x1010])

  lemma StrayTargets()
    ensures SKIP.DirectTarget() == 0x100C && TEST.DirectTarget() == 0x1000
    ensures COMPARE.End() == 0x1004 && SKIP.End() == 0x1008 && OTHER.End() == 0x100C && TEST.End() == 0x1010
    ensures X86.IsDirectJump(SKIP) && X86.IsDirectJump(TEST)
  {
    assert SKIP.RelativeTarget(0) == Some(0x100C);
    assert TEST.RelativeTarget(0) == Some(0x1000);
  }

  lemma StrayLeaders()
    ensures Cfg.Leaders(STRAY.instrs) == {0x1000, 0x1008, 0x100C, 0x1010}
  {
    StrayTargets();
    var s := STRAY.instrs;
    assert Cfg.LeadersUpTo(s, 0) == {0x1000};
    assert Cfg.LeadersUpTo(s, 1) == {0x1000};
    assert Cfg.LeadersUpTo(s, 2) == {0x1000, 0x1008, 0x100C};
    assert Cfg.LeadersUpTo(s, 3) == {0x1000, 0x1008, 0x100C};
    assert Cfg.LeadersUpTo(s, 4) == {0x1000, 0x1008, 0x100C, 0x1010};
    assert Cfg.LeadersUpTo(s, 5) == {0x1000, 0x1008, 0x100C, 0x1010};
  }

  lemma StrayParts()
    ensures STRAY.Parts() == [[COMPARE, SKIP], [OTHER], [TEST], [REST]]
  {
    StrayLeaders();
    CutInFour(COMPARE, SKIP, OTHER, TEST, REST, Cfg.Leaders(STRAY.instrs));
  }

  lemma Opens(init: seq<DecodedInstr>, di: DecodedInstr, leaders: set<U64>)
    requires init == [] || di.va in leaders
    ensures Cfg.Split(init + [di], leaders) == Cfg.Split(init, leaders) + [[di]]
  {
    assert (init + [di])[..|init|] == init;
  }

  lemma Joins(a: DecodedInstr, b: DecodedInstr, leaders: set<U64>)
    requires b.va !in leaders
    ensures Cfg.Split([a, b], leaders) == [[a, b]]
  {
    assert [a, b][..1] == [a] && [a][..0] == [];
    assert Cfg.Split([a], leaders) == [[a]];
    assert [[a]][..0] == [] && [[a]][0] == [a];
    assert [a] + [b] == [a, b];
    assert [] + [[a, b]] == [[a, b]];
  }

  lemma CutInFour(a: DecodedInstr, b: DecodedInstr, c: DecodedInstr, d: DecodedInstr, e: DecodedInstr, leaders: set<U64>)
    requires b.va !in leaders && c.va in leaders && d.va in leaders && e.va in leaders
    ensures Cfg.Split([a, b, c, d, e], leaders) == [[a, b], [c], [d], [e]]
  {
    hide Cfg.Split;
    Joins(a, b, leaders);
    Opens([a, b], c, leaders);
    Opens([a, b] + [c], d, leaders);
    Opens([a, b] + [c] + [d], e, leaders);
    assert [a, b] + [c] + [d] + [e] == [a, b, c, d, e];
    assert [[a, b]] + [[c]] + [[d]] + [[e]] == [[a, b], [c], [d], [e]];
  }

  lemma StrayBlocks()
    ensures STRAY.Parts() == [[COMPARE, SKIP], [OTHER], [TEST], [REST]] && STRAY.Valid()
  {
    StrayParts();
    StrayTargets();
    hide Cfg.Split, Cfg.Leaders;
  }

  lemma StraySupported()
    ensures X86.Supported(COMPARE) && X86.Supported(OTHER) && SetsFlags(COMPARE.mnemonic) && SetsFlags(OTHER.mnemonic)
  {
  }

  /** The registers the function starts with. */
  function Start(rax: U64, rbx: U64): X86.Machine { Deviations.At3(rax, rbx, 0, false).(rip := 0x1000) }

  /** Control goes from the comparison straight to the JZ, on the machine and in the lifted code alike. */
  lemma StrayFirst(x: X86.Machine, s: State)
    requires STRAY.Valid() && x.rip == 0x1000 && Related(s, x)
    ensures var y, u := X86.Execute(COMPARE, x).(rip := 0x100C), StepBlock(STRAY, IRState(0, s));
            X86.Supported(COMPARE) && X86.RunsTo(STRAY.instrs, x, 2, y) && u.block == 2 && Related(u.s, y)
  {
    StrayBlocks();
    StrayTargets();
    StraySupported();
    var part := [COMPARE, SKIP];
    assert part[..1] == [COMPARE] && [COMPARE][..0] == [];
    hide Cfg.Split, Cfg.Leaders, LiftParts, X86.Supported, X86.Execute, X86.RunsTo, Related, NextLabel, Exec, X86.DecodedInstr.DirectTarget;
    assert BlockRunnable(part);
    RunsBody(part, x);
    assert Body(part) == [COMPARE];
    assert X86.ExecuteAll([COMPARE], x) == X86.Execute(COMPARE, x);
    assert STRAY.keys[2] == 0x100C;
    NoHistory(STRAY, s);
    StepSimulates(STRAY, IRState(0, s), x, map[]);
  }

  /** The temporary that the skipped comparison would have written still holds nothing. */
  lemma StrayTemporary(s: State, id: nat)
    requires |STRAY.Parts()| == 4 && Owns(STRAY, 1, id)
    ensures Exec(STRAY.Code()[0], s).Get(id) == s.Get(id)
  {
    hide Owns, Cfg.Split, Cfg.Leaders, LiftParts;
    BlockKeepsOthers(STRAY, 0, 1, id, s);
  }

  lemma {:induction false} LoadedAbove(gs: seq<X86.Gpr>, x: X86.Machine, id: nat)
    requires id >= 20
    ensures Deviations.Loaded(gs, x).Get(id) == 0
  {
    if gs != [] { LoadedAbove(gs[1..], x, id); }
  }

  lemma StrayTest()
    ensures |STRAY.Parts()| == |STRAY.keys| == 4 && STRAY.Parts()[2] == [TEST]
    ensures Nearest(STRAY.Parts(), 1, 0, 2) && STRAY.Parts()[1][0] == OTHER
    ensures BlockRunnable([TEST]) && Body([TEST]) == [] && TEST.mnemonic.JZ?
  {
    StrayBlocks();
    StrayTargets();
    StraySupported();
    hide Cfg.Split, Cfg.Leaders, X86.Supported;
  }

  lemma ZeroIsTaken(v: nat)
    ensures X86.Taken(X86.JZ, LazyFlags(FlagOpOf(OTHER), v, 0, X86.OperandWidth(OTHER.Op(0))))
  {
  }

  lemma BackToStart()
    ensures LabelOf(STRAY.Names(), TEST.DirectTarget()) == Labels.MakeLabel(STRAY.keys[0])
    ensures IndexOfLabel(STRAY.keys, Labels.MakeLabel(STRAY.keys[0]), 0) == 0
  {
    StrayTargets();
  }

  /** The JZ tests a result of 0 that no comparison has computed. */
  lemma StrayJump(x: X86.Machine, s: State)
    requires STRAY.Valid() && Related(s, x)
    requires |STRAY.Parts()| == |STRAY.keys| == 4
    requires forall id :: Owns(STRAY, 1, id) ==> s.Get(id) == 0
    ensures StepBlock(STRAY, IRState(2, s)).block == 0
  {
    hide Cfg.Split, Cfg.Leaders, LiftParts, X86.Supported, X86.Execute, Related, Exec, FlagOpOf, Watch, LazyFlags, X86.Taken, LabelOf,
      IndexOfLabel, NextLabel, Body, KeepsCapture, BlockRunnable, SetsFlags, Captor;
    StrayTest();
    BlocksCapture(STRAY.Parts(), STRAY.Names(), 1, 0, 2);
    ElsewhereDecides(STRAY, 1, 0, 2, s, x);
    var f := LiftParts(STRAY.Parts()[..2], STRAY.Names()).f;
    assert Owns(STRAY, 1, f.result.id);
    ZeroIsTaken(match Watch(OTHER) { case Some(g) => X86.ExecuteAll([], x).Reg(g) case None => Val(f.lhs, s) });
    BackToStart();
  }

  lemma StateAbove(x: X86.Machine, id: nat)
    requires id >= 20
    ensures Deviations.StateOf(x).Get(id) == 0
  {
    LoadedAbove(Deviations.GPRS, x, id);
  }

  lemma StartsRelated(x: X86.Machine)
    ensures Related(Deviations.StateOf(x), x)
  {
    Deviations.StartsAt(x);
    hide Deviations.StateOf;
  }

  lemma OwnedAbove(id: nat)
    requires |STRAY.Parts()| == 4 && Owns(STRAY, 1, id)
    ensures id >= 20
  {
    CounterStartsAt20(STRAY.Parts()[..1], STRAY.Names());
  }

  lemma CompareDiffers(rax: U64, rbx: U64)
    requires rax != rbx
    ensures X86.Supported(COMPARE)
    ensures X86.Execute(COMPARE, Start(rax, rbx)).flags.zf == X86.Is(false)
  {
    StraySupported();
    hide X86.Supported;
    assert X86.ReadOp(Start(rax, rbx), COMPARE.Op(0), W64) == rax && X86.ReadOp(Start(rax, rbx), COMPARE.Op(1), W64) == rbx;
    FlagLaws.ZeroDifference(rax, rbx, W64);
  }

  lemma StrayLast(y: X86.Machine)
    requires y.rip == 0x100C && y.flags.zf == X86.Is(false)
    ensures X86.Steppable(TEST) && X86.StepInstr(TEST, y).rip == 0x1010 && STRAY.instrs[3] == TEST && TEST.va == 0x100C
  {
    StrayTargets();
  }

  lemma TwoSteps(t: IRState)
    requires STRAY.Valid() && t.block < |STRAY.keys| && StepBlock(STRAY, t).block < |STRAY.keys|
    ensures RunBlocks(STRAY, t, 2) == StepBlock(STRAY, StepBlock(STRAY, t))
  {
    hide StepBlock, Cfg.Split, Cfg.Leaders, LiftParts;
    assert RunBlocks(STRAY, StepBlock(STRAY, t), 1) == RunBlocks(STRAY, StepBlock(STRAY, StepBlock(STRAY, t)), 0);
  }

  /** With RAX and RBX different the machine leaves the loop; the lifted function goes back to the start. */
  lemma ElsewhereGoesWrong(rax: U64, rbx: U64)
    requires rax != rbx
    ensures STRAY.Valid()
    ensures RunBlocks(STRAY, IRState(0, Deviations.StateOf(Start(rax, rbx))), 2).block == 0
    ensures exists y :: X86.RunsTo(STRAY.instrs, Start(rax, rbx), 3, y) && y.rip == STRAY.keys[3]
  {
    var x := Start(rax, rbx);
    var s := Deviations.StateOf(x);
    CompareDiffers(rax, rbx);
    StrayBlocks();
    hide Cfg.Split, Cfg.Leaders, LiftParts, X86.Supported, X86.Execute, X86.RunsTo, Related, Exec, NextLabel, Owns, StepBlock, RunBlocks,
      Deviations.StateOf, X86.StepInstr, X86.Steppable, FlagOpOf, Watch;
    StartsRelated(x);
    StrayFirst(x, s);
    var y, u := X86.Execute(COMPARE, x).(rip := 0x100C), StepBlock(STRAY, IRState(0, s));
    StrayTest();
    forall id | Owns(STRAY, 1, id) ensures u.s.Get(id) == 0 {
      StrayTemporary(s, id);
      OwnedAbove(id);
      StateAbove(x, id);
    }
    assert u == IRState(2, u.s);
    StrayJump(y, u.s);
    TwoSteps(IRState(0, s));
    StrayLast(y);
    RunsToOneMore(STRAY.instrs, x, 2, y, 3);
  }
}
