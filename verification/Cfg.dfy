/** The linear-sweep disassembler and the construction of basic blocks. */
module Cfg {
  import opened Bits
  import opened X86

  // ----- disassembly -----

  /** What the instruction decoder answers at an offset of the buffer. */
  datatype Decode = Bad | Good(length: Byte, mnemonic: Mnemonic, ops: seq<Operand>)

  type Decoder = nat -> Decode

  /** Decoded lengths are positive and stay inside the buffer. */
  ghost predicate DecoderOk(decode: Decoder, len: nat) {
    forall o: nat :: o < len && decode(o).Good? ==> 1 <= decode(o).length <= len - o
  }

  /** The instruction that the decoder's answer makes at an address: as decoded, or a one-byte NOP. */
  predicate Decoded(di: DecodedInstr, answer: Decode, va: U64) {
    && di.va == va
    && match answer
       case Bad => di.length == 1 && di.mnemonic == NOP && di.ops == []
       case Good(n, m, ops) => di.length == n && di.mnemonic == m && di.ops == ops
  }

  function TotalLength(instrs: seq<DecodedInstr>): nat {
    if instrs == [] then 0 else TotalLength(instrs[..|instrs| - 1]) + instrs[|instrs| - 1].length
  }

  /** The instructions lie end to end from the start of the buffer, each as the decoder has it at its offset. */
  ghost predicate Tiles(instrs: seq<DecodedInstr>, decode: Decoder, baseVA: U64, len: nat) {
    && TotalLength(instrs) == len
    && forall k :: 0 <= k < |instrs| ==>
         var o := TotalLength(instrs[..k]);
         instrs[k].length >= 1 && Decoded(instrs[k], decode(o), (baseVA + o) % TWO64)
  }

  lemma LengthNext(instrs: seq<DecodedInstr>, di: DecodedInstr)
    ensures TotalLength(instrs + [di]) == TotalLength(instrs) + di.length
  {
    assert (instrs + [di])[..|instrs|] == instrs;
  }

  lemma TilesNext(instrs: seq<DecodedInstr>, di: DecodedInstr, decode: Decoder, baseVA: U64, len: nat)
    requires Tiles(instrs, decode, baseVA, len)
    requires di.length >= 1 && Decoded(di, decode(len), (baseVA + len) % TWO64)
    ensures Tiles(instrs + [di], decode, baseVA, len + di.length)
  {
    hide Decoded, TotalLength;
    var all := instrs + [di];
    LengthNext(instrs, di);
    assert all[..|instrs|] == instrs;
    forall k | 0 <= k < |all|
      ensures all[k].length >= 1 && Decoded(all[k], decode(TotalLength(all[..k])), (baseVA + TotalLength(all[..k])) % TWO64)
    {
      if k < |instrs| { assert all[..k] == instrs[..k]; }
    }
  }

  method Disassemble(decode: Decoder, len: nat, baseVA: U64) returns (instrs: seq<DecodedInstr>)
    requires DecoderOk(decode, len)
    ensures Tiles(instrs, decode, baseVA, len)
  {
    instrs := [];
    var offset := 0;
    while offset < len
      invariant offset <= len
      invariant Tiles(instrs, decode, baseVA, offset)
    {
      hide Tiles;
      var di := DecodedInstr((baseVA + offset) % TWO64, 1, NOP, []);
      match decode(offset) {
        case Bad =>
        case Good(n, m, ops) => di := di.(length := n, mnemonic := m, ops := ops);
      }
      TilesNext(instrs, di, decode, baseVA, offset);
      instrs := instrs + [di];
      offset := offset + di.length;
    }
  }

  /** Addresses grow along the stream, and each instruction ends where the next begins. */
  predicate Ascending(instrs: seq<DecodedInstr>) {
    forall j, k :: 0 <= j < k < |instrs| ==> instrs[j].va < instrs[k].va
  }

  predicate Contiguous(instrs: seq<DecodedInstr>) {
    forall k :: 0 <= k < |instrs| - 1 ==> instrs[k].End() == instrs[k + 1].va
  }

  lemma {:induction false} LengthGrows(instrs: seq<DecodedInstr>, j: nat, k: nat)
    requires j <= k <= |instrs|
    requires forall i :: 0 <= i < |instrs| ==> instrs[i].length >= 1
    ensures TotalLength(instrs[..k]) >= TotalLength(instrs[..j]) + (k - j)
    ensures j < k ==> TotalLength(instrs[..j + 1]) == TotalLength(instrs[..j]) + instrs[j].length
  {
    if j < k {
      LengthGrows(instrs, j, k - 1);
      assert instrs[..k][..k - 1] == instrs[..k - 1];
      assert instrs[..j + 1][..j] == instrs[..j];
    }
  }

  /** Without wrap-around, addresses are offsets from the base. */
  lemma AddressOf(instrs: seq<DecodedInstr>, decode: Decoder, baseVA: U64, len: nat, k: nat)
    requires Tiles(instrs, decode, baseVA, len) && baseVA + len <= TWO64 && k < |instrs|
    ensures instrs[k].va == baseVA + TotalLength(instrs[..k])
    ensures TotalLength(instrs[..k]) + instrs[k].length == TotalLength(instrs[..k + 1]) <= len
  {
    hide TotalLength;
    assert instrs[..|instrs|] == instrs;
    LengthGrows(instrs, k, k + 1);
    LengthGrows(instrs, k + 1, |instrs|);
  }

  /** A buffer that does not run past the address space decodes to a gapless ascending stream. */
  lemma TilesAscend(instrs: seq<DecodedInstr>, decode: Decoder, baseVA: U64, len: nat)
    requires Tiles(instrs, decode, baseVA, len) && baseVA + len <= TWO64
    ensures Ascending(instrs) && Contiguous(instrs)
  {
    hide Decoded, TotalLength;
    forall j, k | 0 <= j < k < |instrs| ensures instrs[j].va < instrs[k].va {
      AddressOf(instrs, decode, baseVA, len, j);
      AddressOf(instrs, decode, baseVA, len, k);
      LengthGrows(instrs, j, k);
    }
    forall k | 0 <= k < |instrs| - 1 ensures instrs[k].End() == instrs[k + 1].va {
      AddressOf(instrs, decode, baseVA, len, k);
      AddressOf(instrs, decode, baseVA, len, k + 1);
    }
  }

  // ----- basic blocks -----

  type Block = seq<DecodedInstr>

  /** Block leaders found by scanning the first i instructions. */
  function LeadersUpTo(instrs: seq<DecodedInstr>, i: nat): set<U64>
    requires i <= |instrs|
  {
    if instrs == [] then {}
    else if i == 0 then {instrs[0].va}
    else
      var di := instrs[i - 1];
      LeadersUpTo(instrs, i - 1) +
      if !IsControlFlow(di.mnemonic) then {}
      else (if i < |instrs| then {instrs[i].va} else {}) + (if di.DirectTarget() != 0 then {di.DirectTarget()} else {})
  }

  function Leaders(instrs: seq<DecodedInstr>): set<U64> {
    LeadersUpTo(instrs, |instrs|)
  }

  /** Cut the stream in front of every leader. */
  function Split(instrs: seq<DecodedInstr>, leaders: set<U64>): seq<Block> {
    if instrs == [] then []
    else
      var parts, di := Split(instrs[..|instrs| - 1], leaders), instrs[|instrs| - 1];
      if parts == [] || di.va in leaders then parts + [[di]]
      else parts[..|parts| - 1] + [parts[|parts| - 1] + [di]]
  }

  function Flatten(parts: seq<Block>): seq<DecodedInstr> {
    if parts == [] then [] else Flatten(parts[..|parts| - 1]) + parts[|parts| - 1]
  }

  /** The ordered map from leader to block: keys in ascending order, each with its block. */
  ghost predicate Represents(blocks: map<U64, Block>, keys: seq<U64>, parts: seq<Block>) {
    && |keys| == |parts|
    && (forall j :: 0 <= j < |keys| ==> keys[j] in blocks && blocks[keys[j]] == parts[j])
    && (forall j :: 0 <= j < |parts| ==> parts[j] != [] && keys[j] == parts[j][0].va)
    && (forall i, j :: 0 <= i < j < |keys| ==> keys[i] < keys[j])
    && (forall va :: va in blocks ==> va in keys)
  }

  method FindLeaders(instrs: seq<DecodedInstr>) returns (leaders: set<U64>)
    ensures leaders == Leaders(instrs)
  {
    if instrs == [] {
      return {};
    }
    leaders := {instrs[0].va};
    for i := 0 to |instrs|
      invariant leaders == LeadersUpTo(instrs, i)
    {
      var di := instrs[i];
      if IsControlFlow(di.mnemonic) {
        if i + 1 < |instrs| {
          leaders := leaders + {instrs[i + 1].va};
        }
        var target := di.DirectTarget();
        if target != 0 {
          leaders := leaders + {target};
        }
      }
    }
  }

  /** A leader other than the current one starts a new block. */
  lemma OpenBlock(blocks: map<U64, Block>, keys: seq<U64>, parts: seq<Block>, di: DecodedInstr)
    requires Represents(blocks, keys, parts)
    requires parts == [] || keys[|keys| - 1] < di.va
    ensures di.va !in blocks
    ensures Represents(blocks[di.va := [di]], keys + [di.va], parts + [[di]])
  {
    assert forall va :: va in keys ==> va <= keys[|keys| - 1];
  }

  /** Everything else joins the current block. */
  lemma ExtendBlock(blocks: map<U64, Block>, keys: seq<U64>, parts: seq<Block>, di: DecodedInstr)
    requires Represents(blocks, keys, parts) && parts != []
    ensures |keys| == |parts| && keys[|keys| - 1] in blocks
    ensures var last := |parts| - 1;
            Represents(blocks[keys[last] := blocks[keys[last]] + [di]], keys, parts[..last] + [parts[last] + [di]])
  {
  }

  /** One more instruction either opens a block or joins the last one. */
  lemma SplitNext(instrs: seq<DecodedInstr>, k: nat, leaders: set<U64>)
    requires k < |instrs|
    ensures var parts := Split(instrs[..k], leaders);
            Split(instrs[..k + 1], leaders) ==
              if parts == [] || instrs[k].va in leaders then parts + [[instrs[k]]]
              else parts[..|parts| - 1] + [parts[|parts| - 1] + [instrs[k]]]
  {
    assert instrs[..k + 1][..k] == instrs[..k];
  }

  /** The first instruction goes into the block that was created empty for it. */
  lemma FirstBlock(blocks: map<U64, Block>, di: DecodedInstr)
    requires blocks == map[di.va := []]
    ensures Represents(blocks[di.va := blocks[di.va] + [di]], [di.va], [[di]])
  {
  }

  method BuildCFG(instrs: seq<DecodedInstr>) returns (blocks: map<U64, Block>, keys: seq<U64>)
    requires Ascending(instrs)
    ensures Represents(blocks, keys, Split(instrs, Leaders(instrs)))
  {
    hide Split, Represents;
    blocks, keys := map[], [];
    if instrs == [] {
      EmptySplit(Leaders(instrs));
      NoBlocks();
      return;
    }
    var leaders := FindLeaders(instrs);
    var current := instrs[0].va;
    blocks, keys := blocks[current := []], [current];
    EmptySplit(leaders);
    for k := 0 to |instrs|
      invariant k == 0 ==> blocks == map[instrs[0].va := []] && keys == [instrs[0].va] && Split(instrs[..k], leaders) == []
      invariant keys != [] && current == keys[|keys| - 1]
      invariant k > 0 ==> current <= instrs[k - 1].va
      invariant k > 0 ==> Represents(blocks, keys, Split(instrs[..k], leaders)) && Split(instrs[..k], leaders) != []
    {
      var di := instrs[k];
      ghost var parts := Split(instrs[..k], leaders);
      SplitNext(instrs, k, leaders);
      if di.va in leaders && di.va != current {
        current := di.va;
      }
      if k == 0 {
        FirstBlock(blocks, di);
        assert parts + [[di]] == [[di]];
      } else if current == di.va {
        OpenBlock(blocks, keys, parts, di);
      } else {
        ExtendBlock(blocks, keys, parts, di);
      }
      if current in blocks {
        blocks := blocks[current := blocks[current] + [di]];
      } else {
        blocks, keys := blocks[current := [di]], keys + [current];
      }
    }
    assert instrs[..|instrs|] == instrs;
  }

  lemma NoBlocks()
    ensures Represents(map[], [], [])
  {
  }

  lemma EmptySplit(leaders: set<U64>)
    ensures Split([], leaders) == []
  {
  }

  // ----- what the blocks are -----

  function Start(parts: seq<Block>, j: nat): nat
    requires j <= |parts|
  {
    |Flatten(parts[..j])|
  }

  /** Every block is the stretch of the stream at its start. */
  lemma {:induction false} PartAt(parts: seq<Block>, j: nat)
    requires j < |parts|
    ensures Start(parts, j) + |parts[j]| == Start(parts, j + 1) <= |Flatten(parts)|
    ensures Flatten(parts)[Start(parts, j)..Start(parts, j + 1)] == parts[j]
    decreases |parts|
  {
    var init := parts[..|parts| - 1];
    assert parts[..j + 1][..j] == parts[..j];
    if j < |init| {
      PartAt(init, j);
      assert init[..j] == parts[..j] && init[..j + 1] == parts[..j + 1];
    } else {
      assert parts[..j + 1] == parts && parts[..j] == init;
    }
  }

  /** Every position of the concatenation lies in exactly one block. */
  lemma {:induction false} HomeOf(parts: seq<Block>, k: nat) returns (j: nat)
    requires k < |Flatten(parts)|
    ensures j < |parts| && Start(parts, j) <= k < Start(parts, j + 1)
  {
    var init := parts[..|parts| - 1];
    if k < |Flatten(init)| {
      j := HomeOf(init, k);
      assert init[..j] == parts[..j] && init[..j + 1] == parts[..j + 1];
    } else {
      j := |init|;
      assert parts[..j] == init && parts[..j + 1] == parts;
    }
  }

  predicate NonEmpty(parts: seq<Block>) {
    forall j :: 0 <= j < |parts| ==> parts[j] != []
  }

  /** No block is empty. */
  lemma {:induction false} NoEmptyBlock(instrs: seq<DecodedInstr>, leaders: set<U64>)
    ensures NonEmpty(Split(instrs, leaders))
  {
    if instrs != [] {
      NoEmptyBlock(instrs[..|instrs| - 1], leaders);
    }
  }

  /** Concatenating the blocks in key order gives back the stream. */
  lemma {:induction false} SplitFlattens(instrs: seq<DecodedInstr>, leaders: set<U64>)
    ensures Flatten(Split(instrs, leaders)) == instrs
  {
    if instrs != [] {
      var init, di := instrs[..|instrs| - 1], instrs[|instrs| - 1];
      SplitFlattens(init, leaders);
      var parts := Split(init, leaders);
      assert instrs == init + [di];
      hide Flatten;
      if parts == [] || di.va in leaders {
        FlattenAppend(parts, [di]);
      } else {
        var front, last := parts[..|parts| - 1], parts[|parts| - 1];
        FlattenAppend(front, last + [di]);
        FlattenAppend(front, last);
        assert parts == front + [last];
        Associative(Flatten(front), last, [di]);
      }
    }
  }

  lemma Associative(a: Block, b: Block, c: Block)
    ensures a + (b + c) == (a + b) + c
  {
  }

  lemma {:induction false} FlattenAppend(parts: seq<Block>, b: Block)
    ensures Flatten(parts + [b]) == Flatten(parts) + b
  {
    assert (parts + [b])[..|parts|] == parts;
  }

  /** The stream is cut exactly in front of the leaders. */
  lemma {:induction false} CutsAreLeaders(instrs: seq<DecodedInstr>, leaders: set<U64>)
    ensures var parts := Split(instrs, leaders);
            && NonEmpty(parts)
            && (forall j :: 0 < j < |parts| ==> parts[j][0].va in leaders)
            && (forall j, i :: 0 <= j < |parts| && 0 < i < |parts[j]| ==> parts[j][i].va !in leaders)
  {
    if instrs != [] {
      var init, di := instrs[..|instrs| - 1], instrs[|instrs| - 1];
      CutsAreLeaders(init, leaders);
      NoEmptyBlock(init, leaders);
      NoEmptyBlock(instrs, leaders);
      var parts: seq<Block>, all: seq<Block> := Split(init, leaders), Split(instrs, leaders);
      forall j, i | 0 <= j < |all| && 0 <= i < |all[j]| && (i > 0 || j > 0)
        ensures all[j][i].va in leaders <==> i == 0
      {
        if j < |parts| && i < |parts[j]| {
          assert all[j][i] == parts[j][i];
        } else {
          assert all[j][i] == di;
        }
      }
    }
  }

  ghost predicate Heads(parts: seq<Block>, di: DecodedInstr) {
    exists j :: 0 <= j < |parts| && parts[j] != [] && parts[j][0] == di
  }

  /** Every instruction of the stream at a leader, and the first one, heads a block. */
  lemma {:induction false} LeaderHeadsBlock(instrs: seq<DecodedInstr>, leaders: set<U64>, k: nat)
    requires k < |instrs| && (k == 0 || instrs[k].va in leaders)
    ensures Heads(Split(instrs, leaders), instrs[k])
  {
    var init := instrs[..|instrs| - 1];
    var parts, all := Split(init, leaders), Split(instrs, leaders);
    NoEmptyBlock(init, leaders);
    if k < |init| {
      LeaderHeadsBlock(init, leaders, k);
      var j :| 0 <= j < |parts| && parts[j] != [] && parts[j][0] == instrs[k];
      assert all[j] != [] && all[j][0] == instrs[k];
    } else {
      assert k == 0 ==> parts == [] by { if k == 0 { assert init == []; } }
      assert all[|all| - 1] == [instrs[k]];
    }
  }

  /** What a control transfer makes a leader. */
  lemma {:induction false} FlowMakesLeaders(instrs: seq<DecodedInstr>, k: nat, i: nat)
    requires k < i <= |instrs| && IsControlFlow(instrs[k].mnemonic)
    ensures k + 1 < |instrs| ==> instrs[k + 1].va in LeadersUpTo(instrs, i)
    ensures instrs[k].DirectTarget() != 0 ==> instrs[k].DirectTarget() in LeadersUpTo(instrs, i)
    decreases i
  {
    if k + 1 < i {
      FlowMakesLeaders(instrs, k, i - 1);
    }
  }

  /** The k-th instruction transfers control and va is its target or the next address. */
  predicate ReachedBy(instrs: seq<DecodedInstr>, k: nat, va: U64)
    requires k < |instrs|
  {
    && instrs[k].mnemonic in TRANSFERS
    && ((k + 1 < |instrs| && va == instrs[k + 1].va) || va == instrs[k].DirectTarget())
  }

  /** Nothing else is a leader. */
  lemma {:induction false} LeadersComeFromFlow(instrs: seq<DecodedInstr>, i: nat, va: U64)
    requires i <= |instrs| && va in LeadersUpTo(instrs, i)
    ensures va == instrs[0].va || exists k :: 0 <= k < |instrs| && ReachedBy(instrs, k, va)
  {
    if i > 0 {
      if va in LeadersUpTo(instrs, i - 1) {
        LeadersComeFromFlow(instrs, i - 1, va);
      } else {
        ControlFlowTransfers(instrs[i - 1].mnemonic);
        assert ReachedBy(instrs, i - 1, va);
      }
    }
  }

  /** Control flow occurs only as the last instruction of a block. */
  lemma ControlFlowEndsBlock(instrs: seq<DecodedInstr>, j: nat, i: nat)
    requires j < |Split(instrs, Leaders(instrs))|
    requires i < |Split(instrs, Leaders(instrs))[j]| - 1
    ensures !IsControlFlow(Split(instrs, Leaders(instrs))[j][i].mnemonic)
    ensures Split(instrs, Leaders(instrs))[j][i].mnemonic !in TRANSFERS
  {
    var leaders := Leaders(instrs);
    var parts := Split(instrs, leaders);
    hide Split, Flatten, LeadersUpTo;
    SplitFlattens(instrs, leaders);
    PartAt(parts, j);
    CutsAreLeaders(instrs, leaders);
    var p := Start(parts, j) + i;
    assert instrs[p] == parts[j][i] && instrs[p + 1] == parts[j][i + 1];
    ControlFlowTransfers(instrs[p].mnemonic);
    if IsControlFlow(instrs[p].mnemonic) {
      FlowMakesLeaders(instrs, p, |instrs|);
    }
  }

  /** A direct target that is an instruction boundary heads a block, and so does whatever follows
      a control transfer. */
  lemma FlowReachesBlocks(instrs: seq<DecodedInstr>, k: nat)
    requires Ascending(instrs) && k < |instrs| && instrs[k].mnemonic in TRANSFERS
    ensures forall t :: 0 <= t < |instrs| && (instrs[t].va == instrs[k].DirectTarget() || t == k + 1) ==>
              Heads(Split(instrs, Leaders(instrs)), instrs[t])
  {
    ControlFlowTransfers(instrs[k].mnemonic);
    FlowMakesLeaders(instrs, k, |instrs|);
    forall t | 0 <= t < |instrs| && (instrs[t].va == instrs[k].DirectTarget() || t == k + 1)
      ensures Heads(Split(instrs, Leaders(instrs)), instrs[t])
    {
      assert t > 0 ==> instrs[0].va < instrs[t].va;
      LeaderHeadsBlock(instrs, Leaders(instrs), t);
    }
  }
}
