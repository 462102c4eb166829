/** From the bytes of a function to its lifted form: what the jumps of the stream become in the
    code, that their labels are found, and the steps of the lifter one after the other. */
module Pipeline {
  import opened Wrappers
  import opened Bits
  import opened IR
  import opened Lifter
  import opened Program
  import opened Runs
  import X86
  import Cfg
  import Labels
  import FL = FunctionLifter

  // ----- what a jump becomes -----

  /** Block j ends with the instruction. */
  ghost predicate Closes(p: Lifting, j: nat, di: X86.DecodedInstr) {
    j < |p.Parts()| && p.Parts()[j] != [] && p.Parts()[j][|p.Parts()[j]| - 1] == di
  }

  /** A control transfer closes the block it lies in. */
  lemma FlowCloses(p: Lifting, k: nat) returns (j: nat)
    requires k < |p.instrs| && X86.IsControlFlow(p.instrs[k].mnemonic)
    ensures Closes(p, j, p.instrs[k])
  {
    hide Cfg.Split, Cfg.Leaders, Cfg.Flatten;
    Cfg.SplitFlattens(p.instrs, Cfg.Leaders(p.instrs));
    j := Cfg.HomeOf(p.Parts(), k);
    Cfg.PartAt(p.Parts(), j);
    var a := Cfg.Start(p.Parts(), j);
    assert p.Parts()[j] == p.instrs[a..a + |p.Parts()[j]|];
    assert p.Parts()[j][k - a] == p.instrs[k];
    if k - a < |p.Parts()[j]| - 1 {
      Cfg.ControlFlowEndsBlock(p.instrs, j, k - a);
      assert false;
    }
  }

  /** A block's code is what lifting its last instruction makes of an open block, closed if need be. */
  lemma CodeOfLast(p: Lifting, j: nat, di: X86.DecodedInstr) returns (l: Lifted)
    requires Closes(p, j, di)
    ensures l.e.Open() && p.Code()[j] == CloseBlock([di], p.Names(), LiftInstr(di, p.Names(), l).e).insts
    ensures EndsOnce(p.Code()[j])
  {
    hide Cfg.Split, Cfg.Leaders, LiftParts, LiftInstr;
    var part := p.Parts()[j];
    assert p.Parts()[..|p.Parts()|] == p.Parts();
    LiftPartAt(p.Parts(), p.Names(), j);
    LiftingNeverThrows(p, |p.Parts()|);
    var c := LiftParts(p.Parts()[..j], p.Names());
    forall k | 0 <= k < |part| - 1 ensures !X86.IsControlFlow(part[k].mnemonic) {
      Cfg.ControlFlowEndsBlock(p.instrs, j, k);
    }
    LiftAllNeverThrows(part[..|part| - 1], p.Names(), BlockStart(c.next, c.f));
    l := LiftAll(part[..|part| - 1], p.Names(), BlockStart(c.next, c.f));
  }

  /** What a block ends in, by its last instruction. */
  ghost predicate EndsAs(i: Inst, di: X86.DecodedInstr, p: Lifting) {
    if X86.IsJcc(di.mnemonic) then i.Cjmp? && i.ifTrue == TargetLabel(p, di.DirectTarget()) && i.ifFalse == LabelOf(p.Names(), di.End())
    else if di.mnemonic.JMP? && IsBoundary(p, di.DirectTarget()) then i == Jmp(Labels.MakeLabel(di.DirectTarget()))
    else i == Jmp(LabelOf(p.Names(), di.End()))
  }

  /** Every block ends in exactly one terminator: a CJMP for a conditional jump, a JMP to the target for a
      JMP to an instruction of the stream, and a synthesised JMP to the next address for everything else,
      be it straight-line code, a call, a return, JP, JNP, LOOP or a JMP to anywhere else. */
  lemma BlockEnd(p: Lifting, j: nat)
    requires p.Valid() && j < |p.keys|
    ensures p.Parts()[j] != [] && EndsOnce(p.Code()[j])
    ensures EndsAs(p.Code()[j][|p.Code()[j]| - 1], p.Parts()[j][|p.Parts()[j]| - 1], p)
  {
    hide Cfg.Split, Cfg.Leaders, LiftParts, TargetLabel, LiftInstr, CloseBlock, EndsOnce;
    BlockPlace(p, j);
    var di := p.Parts()[j][|p.Parts()[j]| - 1];
    var k := Cfg.Start(p.Parts(), j) + |p.Parts()[j]| - 1;
    var l := CodeOfLast(p, j, di);
    if X86.IsControlFlow(di.mnemonic) { TargetIsLabelled(p, k); }
    if X86.IsJcc(di.mnemonic) {
      TransferIsFlow(di);
      JccEndsInCjmp(di, p.Names(), l);
    } else {
      OtherEndsInJmp(di, p.Names(), l);
      if di.mnemonic.JMP? { TransferIsFlow(di); }
    }
    NotEmpty(p.Code()[j]);
  }

  lemma NotEmpty(insts: seq<Inst>)
    requires EndsOnce(insts)
    ensures insts != []
  {
  }

  lemma JccEndsInCjmp(di: X86.DecodedInstr, names: map<U64, string>, l: Lifted)
    requires X86.IsJcc(di.mnemonic) && l.e.Open()
    ensures var code := CloseBlock([di], names, LiftInstr(di, names, l).e).insts;
            && code != [] && code[|code| - 1].Cjmp?
            && code[|code| - 1].ifTrue == LabelOf(names, di.DirectTarget())
            && code[|code| - 1].ifFalse == LabelOf(names, di.End())
  {
    hide LabelOf;
  }

  lemma OtherEndsInJmp(di: X86.DecodedInstr, names: map<U64, string>, l: Lifted)
    requires !X86.IsJcc(di.mnemonic) && l.e.Open()
    ensures var code := CloseBlock([di], names, LiftInstr(di, names, l).e).insts;
            && code != []
            && code[|code| - 1] == Jmp(LabelOf(names, if di.mnemonic.JMP? && di.DirectTarget() in names then di.DirectTarget() else di.End()))
  {
    hide LiftMov, LiftExtend, LiftAlu, LiftCompare, LiftImul, LiftWideImul, LiftUnary, LiftIncDec, LiftLea, LiftDivide, LiftShift, LiftCall;
  }

  /** The label names a block of the function. */
  predicate Exists(p: Lifting, name: string) {
    exists j :: 0 <= j < |p.keys| && Labels.MakeLabel(p.keys[j]) == name
  }

  predicate LabelsExist(p: Lifting, i: Inst) {
    match i
    case Jmp(target) => Exists(p, target)
    case Cjmp(_, ifTrue, ifFalse) => Exists(p, ifTrue) && Exists(p, ifFalse)
    case _ => true
  }

  lemma LabelExists(p: Lifting, va: U64)
    ensures Exists(p, LabelOf(p.Names(), va)) <==> va in p.keys
  {
    var name := LabelOf(p.Names(), va);
    if va in p.keys {
      var j :| 0 <= j < |p.keys| && p.keys[j] == va;
      assert Labels.MakeLabel(p.keys[j]) == name;
    } else if Exists(p, name) {
      var j :| 0 <= j < |p.keys| && Labels.MakeLabel(p.keys[j]) == name;
      Labels.LabelInjective(p.keys[j], va);
    }
  }

  /** The labels of a block's terminator exist exactly when the target of its conditional jump is an
      instruction of the stream and the next address starts a block; a JMP to an instruction of the stream
      needs nothing. The next address starts a block whenever there is a next block, and, unless the code
      reaches the end of the address space, only then. */
  lemma LabelsExistIff(p: Lifting, j: nat)
    requires p.Valid() && j < |p.keys|
    ensures p.Parts()[j] != [] && p.Code()[j] != []
    ensures var di := p.Parts()[j][|p.Parts()[j]| - 1];
            && (LabelsExist(p, p.Code()[j][|p.Code()[j]| - 1]) <==>
                  if X86.IsJcc(di.mnemonic) then IsBoundary(p, di.DirectTarget()) && di.End() in p.keys
                  else (di.mnemonic.JMP? && IsBoundary(p, di.DirectTarget())) || di.End() in p.keys)
            && (j + 1 < |p.keys| ==> di.End() == p.keys[j + 1])
            && (j + 1 == |p.keys| && 0 < di.length && di.va + di.length < TWO64 ==> di.End() !in p.keys)
  {
    hide Cfg.Split, Cfg.Leaders, LiftParts, EndsOnce, Exists, LabelOf;
    BlockEnd(p, j);
    NotEmpty(p.Code()[j]);
    BlockPlace(p, j);
    var di := p.Parts()[j][|p.Parts()[j]| - 1];
    LabelExists(p, di.End());
    LabelExists(p, di.DirectTarget());
    if X86.IsJcc(di.mnemonic) || di.mnemonic.JMP? {
      TransferIsFlow(di);
      TargetIsLabelled(p, Cfg.Start(p.Parts(), j) + |p.Parts()[j]| - 1);
    }
    if j + 1 < |p.keys| {
      NextKey(p, j);
    } else if 0 < di.length && di.va + di.length < TWO64 && di.End() in p.keys {
      KeyIsBoundary(p, di.End());
      NothingBehind(p, j);
    }
  }

  /** The last block ends with the last instruction. */
  lemma NothingBehind(p: Lifting, j: nat)
    requires p.Valid() && j + 1 == |p.keys|
    ensures p.Parts()[j] != [] && forall t :: 0 <= t < |p.instrs| ==> p.instrs[t].va <= p.Parts()[j][|p.Parts()[j]| - 1].va
  {
    hide Cfg.Split, Cfg.Leaders;
    Cfg.SplitFlattens(p.instrs, Cfg.Leaders(p.instrs));
    Cfg.PartAt(p.Parts(), j);
    BlockPlace(p, j);
    assert p.Parts()[..j + 1] == p.Parts();
    assert p.instrs[|p.instrs| - 1] == p.Parts()[j][|p.Parts()[j]| - 1];
  }

  /** Every conditional jump but a last one closes a block whose CJMP goes to the target's label, which is
      real exactly when the target is an instruction of the stream, and to that of the next address. */
  lemma JccIsLifted(p: Lifting, k: nat) returns (j: nat)
    requires p.Valid() && k + 1 < |p.instrs| && X86.IsJcc(p.instrs[k].mnemonic)
    ensures Closes(p, j, p.instrs[k])
    ensures p.instrs[k].End() in p.keys && (p.instrs[k].DirectTarget() in p.keys <==> IsBoundary(p, p.instrs[k].DirectTarget()))
    ensures var code := p.Code()[j];
            && code != [] && code[|code| - 1].Cjmp?
            && code[|code| - 1].ifTrue == TargetLabel(p, p.instrs[k].DirectTarget())
            && code[|code| - 1].ifFalse == Labels.MakeLabel(p.instrs[k].End())
  {
    hide Cfg.Split, Cfg.Leaders, LiftParts, TargetLabel, EndsOnce;
    TransferIsFlow(p.instrs[k]);
    j := FlowCloses(p, k);
    BlockEnd(p, j);
    NotEmpty(p.Code()[j]);
    TargetIsLabelled(p, k);
    X86.ControlFlowTransfers(p.instrs[k].mnemonic);
    Cfg.FlowReachesBlocks(p.instrs, k);
    HeadIsKey(p, p.instrs[k + 1]);
  }

  lemma BlockPlaceIndex(p: Lifting, j: nat)
    requires p.Valid() && j < |p.Parts()|
    ensures j < |p.keys|
  {
  }

  /** Every JMP closes a block whose code ends in a JMP to the target's label when the target is an
      instruction of the stream, and to the next address otherwise. */
  lemma JmpIsLifted(p: Lifting, k: nat) returns (j: nat)
    requires p.Valid() && k < |p.instrs| && p.instrs[k].mnemonic.JMP?
    ensures Closes(p, j, p.instrs[k])
    ensures p.instrs[k].DirectTarget() in p.keys <==> IsBoundary(p, p.instrs[k].DirectTarget())
    ensures var code, target := p.Code()[j], p.instrs[k].DirectTarget();
            && code != []
            && code[|code| - 1] == Jmp(if IsBoundary(p, target) then Labels.MakeLabel(target) else LabelOf(p.Names(), p.instrs[k].End()))
  {
    assert X86.IsControlFlow(p.instrs[k].mnemonic) && !X86.IsJcc(p.instrs[k].mnemonic);
    hide Cfg.Split, Cfg.Leaders, LiftParts, EndsOnce, LabelOf, IsBoundary, Lifting.Valid, X86.IsControlFlow, X86.IsJcc;
    j := FlowCloses(p, k);
    BlockPlaceIndex(p, j);
    BlockEnd(p, j);
    NotEmpty(p.Code()[j]);
    TargetIsLabelled(p, k);
  }

  // ----- labels are found -----

  /** Looking up an address's label finds the block that starts there, and finds it exactly when
      the address is a key. */
  lemma LabelIsFound(blocks: seq<IRBasicBlock>, keys: seq<U64>, va: U64, r: Option<IRBasicBlock>)
    requires FL.Created(blocks, keys) && FirstNamed(blocks, Labels.MakeLabel(va), r)
    ensures r.Some? <==> va in keys
    ensures r.Some? ==> r.value in blocks && r.value.startAddr == va
  {
    forall j | 0 <= j < |keys| && keys[j] != va ensures blocks[j].name != Labels.MakeLabel(va) {
      Labels.LabelInjective(keys[j], va);
    }
    if va in keys {
      var j :| 0 <= j < |keys| && keys[j] == va;
      assert blocks[j] in blocks;
    }
  }

  /** The fallback label finds nothing. */
  lemma FallbackIsNotFound(blocks: seq<IRBasicBlock>, keys: seq<U64>, r: Option<IRBasicBlock>)
    requires FL.Created(blocks, keys) && FirstNamed(blocks, UNKNOWN, r)
    ensures r.None?
  {
    forall j | 0 <= j < |keys| ensures blocks[j].name != UNKNOWN {
      Labels.LabelInjective(keys[j], keys[j]);
    }
  }

  /** The block that a run of the lifted function goes to is the one the lookup finds. */
  lemma StepFollowsLookup(blocks: seq<IRBasicBlock>, keys: seq<U64>, name: string, r: Option<IRBasicBlock>)
    requires FL.Created(blocks, keys) && FirstNamed(blocks, name, r)
    ensures match r
            case None => IndexOfLabel(keys, name, 0) == |keys|
            case Some(b) => var j := IndexOfLabel(keys, name, 0); j < |keys| && blocks[j] == b
  {
    var j := IndexOfLabel(keys, name, 0);
    assert j < |keys| ==> blocks[j] in blocks;
  }

  // ----- the pipeline -----

  /** Disassembles, cuts into blocks and lifts: no step throws, and the function holds, block by
      block, the code whose runs follow the machine's. */
  method LiftFunction(decode: Cfg.Decoder, len: nat, baseVA: U64)
    returns (r: Result<IRFunction>, ghost p: Lifting)
    requires Cfg.DecoderOk(decode, len) && baseVA + len <= TWO64
    ensures r.Success? && fresh(r.value)
    ensures Cfg.Tiles(p.instrs, decode, baseVA, len) && p.Valid()
    ensures FL.Created(r.value.blocks, p.keys)
    ensures FL.HoldsCode(r.value.blocks, p.Code(), |p.keys|)
  {
    hide Cfg.Split, Cfg.Leaders, LiftParts, Cfg.Tiles;
    var instrs := Cfg.Disassemble(decode, len, baseVA);
    Cfg.TilesAscend(instrs, decode, baseVA, len);
    var blocks, keys := Cfg.BuildCFG(instrs);
    p := Lifting(instrs, keys);
    BuiltIsValid(instrs, blocks, keys);
    var lifter := new FL.FunctionLifter();
    var lifted := lifter.Lift(blocks, keys);
    assert FL.PartsOf(blocks, keys) == p.Parts();
    assert p.Parts()[..|p.Parts()|] == p.Parts();
    LiftingNeverThrows(p, |p.Parts()|);
    r := if lifted.IsFailure() then lifted.PropagateFailure() else Success(lifter.fn);
  }
}
