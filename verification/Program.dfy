/** Lifted functions: no lifting step throws, every block ends in one terminator, and branches resolve to the
    blocks they name. */
module Program {
  import opened Bits
  import opened IR
  import opened Lifter
  import X86
  import Cfg
  import Labels
  import FunctionLifter

  /** A lifted function: the stream, the keys of its blocks, and the code of each block. */
  datatype Lifting = Lifting(instrs: seq<DecodedInstr>, keys: seq<U64>) {
    function Parts(): seq<Cfg.Block> { Cfg.Split(instrs, Cfg.Leaders(instrs)) }

    function Names(): map<U64, string> { FunctionLifter.NamesOf(keys) }

    function Code(): (c: seq<seq<Inst>>)
      ensures |c| == |Parts()|
    {
      LiftParts(Parts(), Names()).blocks
    }

    /** The keys are the addresses of the blocks, as the map of basic blocks orders them. */
    ghost predicate Valid() {
      && Cfg.Ascending(instrs) && Cfg.Contiguous(instrs)
      && |keys| == |Parts()|
      && Cfg.NonEmpty(Parts())
      && (forall j :: 0 <= j < |keys| ==> keys[j] == Parts()[j][0].va)
      && (forall i, j :: 0 <= i < j < |keys| ==> keys[i] < keys[j])
    }
  }

  /** The map that BuildCFG returns makes a valid lifting. */
  lemma BuiltIsValid(instrs: seq<DecodedInstr>, blocks: map<U64, Cfg.Block>, keys: seq<U64>)
    requires Cfg.Ascending(instrs) && Cfg.Contiguous(instrs)
    requires Cfg.Represents(blocks, keys, Cfg.Split(instrs, Cfg.Leaders(instrs)))
    ensures Lifting(instrs, keys).Valid()
  {
  }

  // ----- no exception -----

  /** Exactly one terminator, at the end. */
  predicate EndsOnce(insts: seq<Inst>) {
    Terminated(insts) && WellTerminated(insts)
  }

  /** Lifting the blocks of any stream never pushes past a terminator, and every block ends in exactly
      one terminator. */
  lemma {:induction false} LiftingNeverThrows(p: Lifting, j: nat)
    requires j <= |p.Parts()|
    ensures !LiftParts(p.Parts()[..j], p.Names()).thrown
    ensures forall i :: 0 <= i < j ==> EndsOnce(LiftParts(p.Parts()[..j], p.Names()).blocks[i])
  {
    if j > 0 {
      LiftingNeverThrows(p, j - 1);
      LiftPartsNext(p.Parts(), j - 1, p.Names());
      var c := LiftParts(p.Parts()[..j - 1], p.Names());
      var part := p.Parts()[j - 1];
      forall k | 0 <= k < |part| - 1 ensures !X86.IsControlFlow(part[k].mnemonic) {
        Cfg.ControlFlowEndsBlock(p.instrs, j - 1, k);
      }
      Cfg.NoEmptyBlock(p.instrs, Cfg.Leaders(p.instrs));
      LiftBlockNeverThrows(part, p.Names(), BlockStart(c.next, c.f));
    }
  }

  // ----- branch resolution -----

  ghost predicate IsBoundary(p: Lifting, va: U64) {
    exists t :: 0 <= t < |p.instrs| && p.instrs[t].va == va
  }

  lemma HeadIsKey(p: Lifting, di: DecodedInstr)
    requires p.Valid() && Cfg.Heads(p.Parts(), di)
    ensures di.va in p.keys
  {
    var j :| 0 <= j < |p.Parts()| && p.Parts()[j] != [] && p.Parts()[j][0] == di;
    assert p.keys[j] == di.va;
  }

  lemma TargetResolves(p: Lifting, k: nat)
    requires p.Valid() && k < |p.instrs|
    requires X86.IsControlFlow(p.instrs[k].mnemonic) && IsBoundary(p, p.instrs[k].DirectTarget())
    ensures p.instrs[k].DirectTarget() in p.keys
    ensures LabelOf(p.Names(), p.instrs[k].DirectTarget()) == Labels.MakeLabel(p.instrs[k].DirectTarget()) != UNKNOWN
  {
    hide Cfg.Split, Cfg.Leaders, LiftParts;
    var di := p.instrs[k];
    X86.ControlFlowTransfers(p.instrs[k].mnemonic);
    Cfg.FlowReachesBlocks(p.instrs, k);
    var t :| 0 <= t < |p.instrs| && p.instrs[t].va == di.DirectTarget();
    HeadIsKey(p, p.instrs[t]);
    Labels.LabelInjective(di.DirectTarget(), di.End());
  }

  /** Every jump that is not the last instruction and whose target is an instruction boundary gets
      two real labels: those of the blocks at the target and right behind the jump. */
  lemma BranchesResolve(p: Lifting, k: nat)
    requires p.Valid() && k + 1 < |p.instrs|
    requires X86.IsControlFlow(p.instrs[k].mnemonic) && IsBoundary(p, p.instrs[k].DirectTarget())
    ensures p.instrs[k].DirectTarget() in p.keys && p.instrs[k].End() in p.keys
    ensures LabelOf(p.Names(), p.instrs[k].DirectTarget()) == Labels.MakeLabel(p.instrs[k].DirectTarget()) != UNKNOWN
    ensures LabelOf(p.Names(), p.instrs[k].End()) == Labels.MakeLabel(p.instrs[k].End()) != UNKNOWN
  {
    hide Cfg.Split, Cfg.Leaders, LiftParts;
    TargetResolves(p, k);
    X86.ControlFlowTransfers(p.instrs[k].mnemonic);
    Cfg.FlowReachesBlocks(p.instrs, k);
    HeadIsKey(p, p.instrs[k + 1]);
    Labels.LabelInjective(p.instrs[k].End(), p.instrs[k].DirectTarget());
  }

  /** The keys are instruction addresses. */
  lemma KeyIsBoundary(p: Lifting, va: U64)
    requires p.Valid() && va in p.keys
    ensures IsBoundary(p, va)
  {
    hide Cfg.Split, Cfg.Leaders;
    var j :| 0 <= j < |p.keys| && p.keys[j] == va;
    BlockPlace(p, j);
    assert p.instrs[Cfg.Start(p.Parts(), j)].va == va;
  }

  /** The label of a jump target: a real one exactly when the target is an instruction of the stream. */
  ghost function TargetLabel(p: Lifting, va: U64): string {
    if IsBoundary(p, va) then Labels.MakeLabel(va) else UNKNOWN
  }

  lemma TargetIsLabelled(p: Lifting, k: nat)
    requires p.Valid() && k < |p.instrs| && X86.IsControlFlow(p.instrs[k].mnemonic)
    ensures var va := p.instrs[k].DirectTarget();
            && LabelOf(p.Names(), va) == TargetLabel(p, va)
            && (va in p.Names() <==> IsBoundary(p, va))
  {
    hide Cfg.Split, Cfg.Leaders, LiftParts;
    var va := p.instrs[k].DirectTarget();
    if IsBoundary(p, va) {
      TargetResolves(p, k);
    } else if va in p.keys {
      KeyIsBoundary(p, va);
    }
  }

  // ----- blocks in the stream -----

  /** Where a block lies in the stream. */
  lemma BlockPlace(p: Lifting, j: nat)
    requires p.Valid() && j < |p.keys|
    ensures var a, part := Cfg.Start(p.Parts(), j), p.Parts()[j];
            && part != [] && a + |part| <= |p.instrs| && p.instrs[a..a + |part|] == part
            && p.instrs[a] == part[0] && p.instrs[a + |part| - 1] == part[|part| - 1]
            && p.instrs[a..a + |part| - 1] == part[..|part| - 1]
            && (j + 1 < |p.keys| ==> a + |part| < |p.instrs|)
  {
    hide Cfg.Split, Cfg.Leaders;
    Cfg.SplitFlattens(p.instrs, Cfg.Leaders(p.instrs));
    Cfg.PartAt(p.Parts(), j);
    if j + 1 < |p.keys| {
      Cfg.PartAt(p.Parts(), j + 1);
    }
    SliceFacts(p.instrs, Cfg.Start(p.Parts(), j), p.Parts()[j]);
  }

  lemma SliceFacts(instrs: seq<DecodedInstr>, a: nat, part: Cfg.Block)
    requires part != [] && a + |part| <= |instrs| && instrs[a..a + |part|] == part
    ensures instrs[a] == part[0] && instrs[a + |part| - 1] == part[|part| - 1]
    ensures instrs[a..a + |part| - 1] == part[..|part| - 1]
  {
    assert part[0] == instrs[a..a + |part|][0];
    assert part[|part| - 1] == instrs[a..a + |part|][|part| - 1];
  }

  /** A block's last instruction ends where the next block begins. */
  lemma NextKey(p: Lifting, j: nat)
    requires p.Valid() && j + 1 < |p.keys|
    ensures p.Parts()[j] != [] && p.Parts()[j][|p.Parts()[j]| - 1].End() == p.keys[j + 1]
  {
    hide Cfg.Split, Cfg.Leaders;
    BlockPlace(p, j);
    BlockPlace(p, j + 1);
    Cfg.PartAt(p.Parts(), j);
    var k := Cfg.Start(p.Parts(), j + 1);
    assert p.instrs[k - 1].End() == p.instrs[k].va;
  }
}
