/** Placing an executable's loadable segments in guest memory: the span, the contents, the permissions. */
module ImageMapper {
  import opened Wrappers
  import opened Bits
  import opened Regions
  import opened ByteStore
  import opened Elf
  import opened Memory
  import opened Permissions

  // ----- the load span -----

  function MinLow(phs: seq<Phdr>): U64 {
    if phs == [] then TWO64 - 1
    else
      var rest, ph := MinLow(phs[..|phs| - 1]), phs[|phs| - 1];
      if ph.ptype == PT_LOAD && ph.vaddr < rest then ph.vaddr else rest
  }

  function MaxHigh(phs: seq<Phdr>): U64 {
    if phs == [] then 0
    else
      var rest, ph := MaxHigh(phs[..|phs| - 1]), phs[|phs| - 1];
      if ph.ptype == PT_LOAD && rest < Add(ph.vaddr, ph.memsz) then Add(ph.vaddr, ph.memsz) else rest
  }

  predicate HasLoad(phs: seq<Phdr>) {
    exists ph :: ph in phs && ph.ptype == PT_LOAD
  }

  function LoadSpan(phs: seq<Phdr>): Result<(U64, U64)> {
    if HasLoad(phs) then Success((AlignDown(MinLow(phs)), AlignUp(MaxHigh(phs)))) else Failure(NothingToMap)
  }

  method ComputeLoadSpan(phs: seq<Phdr>) returns (r: Result<(U64, U64)>)
    ensures r == LoadSpan(phs)
  {
    var found, minAddr: U64, maxAddr: U64 := false, TWO64 - 1, 0;
    for k := 0 to |phs|
      invariant found <==> HasLoad(phs[..k])
      invariant minAddr == MinLow(phs[..k]) && maxAddr == MaxHigh(phs[..k])
    {
      assert phs[..k + 1] == phs[..k] + [phs[k]];
      assert phs[..k + 1][..k] == phs[..k];
      if phs[k].ptype == PT_LOAD {
        assert phs[k] in phs[..k + 1];
        minAddr := if phs[k].vaddr < minAddr then phs[k].vaddr else minAddr;
        maxAddr := if maxAddr < Add(phs[k].vaddr, phs[k].memsz) then Add(phs[k].vaddr, phs[k].memsz) else maxAddr;
        found := true;
      }
    }
    assert phs[..|phs|] == phs;
    if !found {
      return Failure(NothingToMap);
    }
    return Success((AlignDown(minAddr), AlignUp(maxAddr)));
  }

  /** The span is the least page range around all loadable segments: it contains each, and both ends are attained. */
  lemma {:induction false} SpanIsLeast(phs: seq<Phdr>)
    requires HasLoad(phs)
    ensures forall ph :: ph in phs && ph.ptype == PT_LOAD ==> MinLow(phs) <= ph.vaddr && Add(ph.vaddr, ph.memsz) <= MaxHigh(phs)
    ensures exists ph :: ph in phs && ph.ptype == PT_LOAD && ph.vaddr == MinLow(phs)
    ensures exists ph :: ph in phs && ph.ptype == PT_LOAD && Add(ph.vaddr, ph.memsz) == MaxHigh(phs)
  {
    var init, last := phs[..|phs| - 1], phs[|phs| - 1];
    assert forall ph :: ph in phs <==> ph in init || ph == last;
    if HasLoad(init) {
      SpanIsLeast(init);
    } else {
      NoLoads(init);
      assert last.ptype == PT_LOAD;
    }
    hide Add;
  }

  lemma {:induction false} NoLoads(phs: seq<Phdr>)
    requires !HasLoad(phs)
    ensures MinLow(phs) == TWO64 - 1 && MaxHigh(phs) == 0
  {
    if phs != [] {
      assert forall ph :: ph in phs[..|phs| - 1] ==> ph in phs;
      assert phs[|phs| - 1] in phs;
      NoLoads(phs[..|phs| - 1]);
    }
  }

  /** Position-independent files go where the caller prefers, fixed ones stay. */
  function ChooseLoadBias(file: ElfFile, preferredBase: U64): U64 {
    if file.isFixedExe then 0 else preferredBase
  }

  // ----- segment contents -----

  function GuestAddr(ph: Phdr, bias: U64): U64 { Add(ph.vaddr, bias) }

  /** The bytes a segment takes in memory. */
  function SegLength(ph: Phdr): U64 {
    if ph.memsz < ph.filesz then ph.filesz else ph.memsz
  }

  /** What a segment holds in memory: its file bytes, then zeros. */
  function Segment(bytes: seq<Byte>, ph: Phdr): (s: seq<Byte>)
    ensures |s| == SegLength(ph)
    ensures forall i :: 0 <= i < |s| ==> s[i] == if i < ph.filesz && ph.offset + i < |bytes| then bytes[ph.offset + i] else 0
  {
    seq<Byte>(SegLength(ph), i requires i >= 0 => if i < ph.filesz && ph.offset + i < |bytes| then bytes[ph.offset + i] else 0)
  }

  /** Copying one segment into memory with regions rs. */
  ghost function CopyOne(rs: seq<Region>, m: Mem, bytes: seq<Byte>, ph: Phdr, bias: U64): Result<Mem> {
    if ph.ptype != PT_LOAD || ph.memsz == 0 then Success(m)
    else if ph.filesz > 0 && ph.offset + ph.filesz > |bytes| then Failure(FileTruncated)
    else if !IsMapped(rs, GuestAddr(ph, bias), ph.filesz) then Failure(NotMapped)
    else
      var m1 := if ph.filesz > 0 then WriteBytes(m, GuestAddr(ph, bias), bytes[ph.offset..ph.offset + ph.filesz]) else m;
      if ph.memsz <= ph.filesz then Success(m1)
      else if !IsMapped(rs, Add(GuestAddr(ph, bias), ph.filesz), ph.memsz - ph.filesz) then Failure(NotMapped)
      else Success(WriteBytes(m1, Add(GuestAddr(ph, bias), ph.filesz), Zeros(ph.memsz - ph.filesz)))
  }

  ghost function CopyAll(rs: seq<Region>, m: Mem, bytes: seq<Byte>, phs: seq<Phdr>, bias: U64): Result<Mem> {
    if phs == [] then Success(m)
    else
      match CopyAll(rs, m, bytes, phs[..|phs| - 1], bias)
      case Failure(e) => Failure(e)
      case Success(m1) => CopyOne(rs, m1, bytes, phs[|phs| - 1], bias)
  }

  /** The address lies in the range the header asks for, which is as long as the larger of its two sizes. */
  predicate Covers(ph: Phdr, bias: U64, b: int) {
    && ph.ptype == PT_LOAD && ph.memsz != 0
    && ph.vaddr + bias <= b < ph.vaddr + bias + (if ph.memsz < ph.filesz then ph.filesz else ph.memsz)
  }

  /** The byte at an address once all segments are copied: the last segment that covers it decides. */
  function ImageByte(bytes: seq<Byte>, phs: seq<Phdr>, bias: U64, b: int, before: Byte): Byte {
    if phs == [] then before
    else if Covers(phs[|phs| - 1], bias, b) then Segment(bytes, phs[|phs| - 1])[b - (phs[|phs| - 1].vaddr + bias)]
    else ImageByte(bytes, phs[..|phs| - 1], bias, b, before)
  }

  lemma CopyOneMeans(rs: seq<Region>, m: Mem, bytes: seq<Byte>, ph: Phdr, bias: U64)
    requires ph.ptype == PT_LOAD && ph.memsz != 0 ==> ph.vaddr + bias + SegLength(ph) <= TWO64
    requires CopyOne(rs, m, bytes, ph, bias).Success?
    ensures var m2 := CopyOne(rs, m, bytes, ph, bias).value;
            forall b :: GetByte(m2, b) == if Covers(ph, bias, b) then Segment(bytes, ph)[b - (ph.vaddr + bias)] else GetByte(m, b)
  {
    hide IsMapped, GetByte;
    AddPlain(ph.vaddr, bias);
    AddPlain(GuestAddr(ph, bias), ph.filesz);
    hide Add;
  }

  /** Copying the segments one after the other leaves at every address what the last one put there. */
  lemma {:induction false} CopyAllMeans(rs: seq<Region>, m: Mem, bytes: seq<Byte>, phs: seq<Phdr>, bias: U64)
    requires forall ph :: ph in phs && ph.ptype == PT_LOAD && ph.memsz != 0 ==> ph.vaddr + bias + SegLength(ph) <= TWO64
    requires CopyAll(rs, m, bytes, phs, bias).Success?
    ensures forall b :: GetByte(CopyAll(rs, m, bytes, phs, bias).value, b) == ImageByte(bytes, phs, bias, b, GetByte(m, b))
  {
    if phs != [] {
      var init, last := phs[..|phs| - 1], phs[|phs| - 1];
      assert last in phs && forall ph :: ph in init ==> ph in phs;
      CopyAllMeans(rs, m, bytes, init, bias);
      hide CopyOne, GetByte, Segment, Covers;
      CopyOneMeans(rs, CopyAll(rs, m, bytes, init, bias).value, bytes, last, bias);
    }
  }

  /** The address ranges of the loadable segments do not overlap. */
  ghost predicate SegmentsApart(phs: seq<Phdr>, bias: U64) {
    forall i, j, b :: 0 <= i < j < |phs| && Covers(phs[i], bias, b) ==> !Covers(phs[j], bias, b)
  }

  /** A segment that no later one covers shows its own bytes. */
  lemma {:induction false} CoveredByte(bytes: seq<Byte>, phs: seq<Phdr>, bias: U64, b: int, before: Byte, i: nat)
    requires i < |phs| && Covers(phs[i], bias, b) && forall j :: i < j < |phs| ==> !Covers(phs[j], bias, b)
    ensures var ph, k := phs[i], b - (phs[i].vaddr + bias);
            ImageByte(bytes, phs, bias, b, before) == if k < ph.filesz && ph.offset + k < |bytes| then bytes[ph.offset + k] else 0
  {
    if i < |phs| - 1 { CoveredByte(bytes, phs[..|phs| - 1], bias, b, before, i); }
  }

  lemma {:induction false} UncoveredByte(bytes: seq<Byte>, phs: seq<Phdr>, bias: U64, b: int, before: Byte)
    requires forall ph :: ph in phs ==> !Covers(ph, bias, b)
    ensures ImageByte(bytes, phs, bias, b, before) == before
  {
    if phs != [] {
      assert phs[|phs| - 1] in phs;
      UncoveredByte(bytes, phs[..|phs| - 1], bias, b, before);
    }
  }

  // ----- segment permissions -----

  /** ELF segment flags as guest permissions. */
  function ProtFromPhdrFlags(flags: nat): nat {
    (if Bit(flags, 2) then PROT_READ else 0) + (if Bit(flags, 1) then PROT_WRITE else 0)
    + (if Bit(flags, 0) then PROT_EXEC else 0)
  }

  /** The two encodings have read and execute swapped. */
  lemma ProtBits(flags: nat)
    ensures var prot := ProtFromPhdrFlags(flags);
            && prot < 8 && Bit(prot, 0) == Bit(flags, 2) && Bit(prot, 1) == Bit(flags, 1) && Bit(prot, 2) == Bit(flags, 0)
            && ProtToString(prot) == [if Bit(flags, 2) then 'r' else '-', if Bit(flags, 1) then 'w' else '-', if Bit(flags, 0) then 'x' else '-']
  {
    var prot := ProtFromPhdrFlags(flags);
    assert Bit(prot, 1) == Bit(prot / 2, 0);
    assert Bit(prot, 2) == Bit(prot / 2, 1) == Bit(prot / 2 / 2, 0);
  }

  function ProtToString(prot: nat): string {
    (if Bit(prot, 0) then "r" else "-") + (if Bit(prot, 1) then "w" else "-") + (if Bit(prot, 2) then "x" else "-")
  }

  function SegmentLabel(flags: nat): string {
    "image " + ProtToString(ProtFromPhdrFlags(flags)) +
    (if Bit(flags, 0) then " (text)" else if Bit(flags, 1) then " (data/bss)" else " (rodata)")
  }

  /** Whether the address lies in a page of the segment's memory range. */
  predicate OnPages(ph: Phdr, bias: U64, a: U64) {
    ph.memsz != 0 && AlignDown(Add(ph.vaddr, bias)) <= a < AlignUp(Add(Add(ph.vaddr, bias), ph.memsz))
  }

  function SegmentRequest(ph: Phdr, bias: U64): Request {
    Request(GuestAddr(ph, bias), ph.memsz, ProtFromPhdrFlags(ph.flags), SegmentLabel(ph.flags))
  }

  /** One protect call for each loadable segment, in header order. */
  function SegmentRequests(phs: seq<Phdr>, bias: U64): seq<Request> {
    if phs == [] then []
    else
      var rest, ph := SegmentRequests(phs[..|phs| - 1], bias), phs[|phs| - 1];
      if ph.ptype == PT_LOAD && ph.memsz != 0 then rest + [SegmentRequest(ph, bias)] else rest
  }

  // ----- the other headers -----

  /** The bytes in front of the first NUL, or all when there is none. */
  function UntilNul(s: seq<Byte>): (r: seq<Byte>)
    ensures |r| <= |s| && r == s[..|r|] && 0 !in r
    ensures |r| < |s| ==> s[|r|] == 0
  {
    if s == [] || s[0] == 0 then [] else [s[0]] + UntilNul(s[1..])
  }

  /** The string at a file offset; an offset past the end is refused. */
  function ReadFileString(bytes: seq<Byte>, offset: U64): Result<seq<Byte>> {
    if offset >= |bytes| then Failure(FileTruncated) else Success(UntilNul(bytes[offset..]))
  }

  function NoteHeader(image: GuestElfImage, bytes: seq<Byte>, ph: Phdr): Result<GuestElfImage> {
    if ph.ptype == PT_INTERP then
      match ReadFileString(bytes, ph.offset)
      case Failure(e) => Failure(e)
      case Success(path) => Success(image.(needsInterp := true, interpPath := path))
    else if ph.ptype == PT_DYNAMIC then Success(image.(isDynamic := true, dynamicAddr := GuestAddr(ph, image.loadBias)))
    else Success(image)
  }

  function NoteHeaders(image: GuestElfImage, bytes: seq<Byte>, phs: seq<Phdr>): Result<GuestElfImage> {
    if phs == [] then Success(image)
    else
      match NoteHeaders(image, bytes, phs[..|phs| - 1])
      case Failure(e) => Failure(e)
      case Success(i) => NoteHeader(i, bytes, phs[|phs| - 1])
  }

  /** The i-th header is the last of its type. */
  predicate LastOf(phs: seq<Phdr>, i: nat, ptype: nat) {
    i < |phs| && phs[i].ptype == ptype && forall j :: i < j < |phs| ==> phs[j].ptype != ptype
  }

  predicate HasType(phs: seq<Phdr>, ptype: nat) {
    exists i :: 0 <= i < |phs| && phs[i].ptype == ptype
  }

  lemma HasTypeNext(phs: seq<Phdr>, ptype: nat)
    requires phs != []
    ensures HasType(phs, ptype) <==> HasType(phs[..|phs| - 1], ptype) || phs[|phs| - 1].ptype == ptype
    ensures forall i: nat :: LastOf(phs, i, ptype) ==>
              i == |phs| - 1 || (i < |phs| - 1 && LastOf(phs[..|phs| - 1], i, ptype) && phs[|phs| - 1].ptype != ptype)
    ensures forall i: nat :: LastOf(phs, i, ptype) ==> i < |phs| && phs[i].ptype == ptype
  {
    if HasType(phs[..|phs| - 1], ptype) {
      var i :| 0 <= i < |phs| - 1 && phs[..|phs| - 1][i].ptype == ptype;
      assert phs[i].ptype == ptype;
    }
  }

  lemma NoType(ptype: nat)
    ensures !HasType([], ptype) && forall i: nat :: !LastOf([], i, ptype)
  {
  }

  /** What the last PT_INTERP and the last PT_DYNAMIC header leave in the record; it keeps the rest. */
  ghost predicate Noted(image: GuestElfImage, bytes: seq<Byte>, phs: seq<Phdr>, out: GuestElfImage) {
    && out == image.(needsInterp := out.needsInterp, interpPath := out.interpPath, isDynamic := out.isDynamic, dynamicAddr := out.dynamicAddr)
    && (out.isDynamic <==> image.isDynamic || HasType(phs, PT_DYNAMIC))
    && (out.needsInterp <==> image.needsInterp || HasType(phs, PT_INTERP))
    && (forall i: nat :: LastOf(phs, i, PT_DYNAMIC) ==> out.dynamicAddr == (phs[i].vaddr + image.loadBias) % TWO64)
    && (!HasType(phs, PT_DYNAMIC) ==> out.dynamicAddr == image.dynamicAddr)
    && (forall i: nat :: LastOf(phs, i, PT_INTERP) ==>
          phs[i].offset < |bytes| && out.interpPath == UntilNul(bytes[phs[i].offset..]))
    && (!HasType(phs, PT_INTERP) ==> out.interpPath == image.interpPath)
  }

  lemma {:induction false} LastHeadersDecide(image: GuestElfImage, bytes: seq<Byte>, phs: seq<Phdr>)
    requires NoteHeaders(image, bytes, phs).Success?
    ensures Noted(image, bytes, phs, NoteHeaders(image, bytes, phs).value)
  {
    hide UntilNul, HasType, LastOf;
    if phs != [] {
      var init := phs[..|phs| - 1];
      LastHeadersDecide(image, bytes, init);
      HasTypeNext(phs, PT_DYNAMIC);
      HasTypeNext(phs, PT_INTERP);
    } else {
      NoType(PT_DYNAMIC);
      NoType(PT_INTERP);
    }
  }

  /** Where the program header table lies in memory: by the first segment whose file range holds its start. */
  function TableAddr(phs: seq<Phdr>, phoff: U64, bias: U64): U64 {
    if phs == [] then 0
    else if phs[0].ptype == PT_LOAD && phs[0].offset <= phoff < Add(phs[0].offset, phs[0].filesz) then
      Add(GuestAddr(phs[0], bias), phoff - phs[0].offset)
    else TableAddr(phs[1..], phoff, bias)
  }

  /** The table's address by the first loadable segment whose file range holds the table's start. */
  lemma {:induction false} FirstSegmentDecides(phs: seq<Phdr>, phoff: U64, bias: U64, i: nat)
    requires i <= |phs|
    requires forall j :: 0 <= j < i ==> !(phs[j].ptype == PT_LOAD && phs[j].offset <= phoff < Add(phs[j].offset, phs[j].filesz))
    requires i < |phs| ==> phs[i].ptype == PT_LOAD && phs[i].offset <= phoff < Add(phs[i].offset, phs[i].filesz)
    ensures TableAddr(phs, phoff, bias) == if i == |phs| then 0 else (phs[i].vaddr + bias + (phoff - phs[i].offset)) % TWO64
  {
    if i > 0 {
      FirstSegmentDecides(phs[1..], phoff, bias, i - 1);
    } else if phs != [] {
      SumTwice(phs[0].vaddr + bias, phoff - phs[0].offset);
    }
  }

  // ----- mapping the image -----

  function BlankImage(file: ElfFile, bias: U64, low: U64, high: U64): GuestElfImage {
    GuestElfImage(file.path, !file.isFixedExe, false, false, [], bias, Add(file.entry, bias), low, high, 0,
                  0, file.phentsize, file.phnum, 0, 0, 0)
  }

  /** The record of the image once everything is in place. */
  function ImageRecord(file: ElfFile, bias: U64, low: U64, high: U64): Result<GuestElfImage> {
    match NoteHeaders(BlankImage(file, bias, low, high), file.bytes, file.phdrs)
    case Failure(e) => Failure(e)
    case Success(image) => Success(image.(phdrAddr := TableAddr(file.phdrs, file.phoff, bias), brk := AlignUp(high)))
  }

  function ImageLow(file: ElfFile, bias: U64): U64 { Add(AlignDown(MinLow(file.phdrs)), bias) }

  function ImageHigh(file: ElfFile, bias: U64): U64 { Add(AlignUp(MaxHigh(file.phdrs)), bias) }

  method CopySegments(mem: GuestMemory, bytes: seq<Byte>, phs: seq<Phdr>, bias: U64) returns (r: Result<()>)
    modifies mem`bytes
    ensures var c := CopyAll(mem.regions, old(mem.bytes), bytes, phs, bias);
            if r.Success? then c == Success(mem.bytes) else c == Failure(r.error)
  {
    ghost var m0 := mem.bytes;
    for k := 0 to |phs|
      invariant CopyAll(mem.regions, m0, bytes, phs[..k], bias) == Success(mem.bytes)
    {
      assert phs[..k + 1][..k] == phs[..k];
      hide CopyAll, IsMapped;
      CopyAllNext(mem.regions, m0, bytes, phs, k, bias);
      var copied := CopySegment(mem, bytes, phs[k], bias);
      if copied.Failure? {
        CopyAllStops(mem.regions, m0, bytes, phs, k + 1, bias);
        return copied;
      }
    }
    assert phs[..|phs|] == phs;
    return Success(());
  }

  lemma CopyAllNext(rs: seq<Region>, m: Mem, bytes: seq<Byte>, phs: seq<Phdr>, k: nat, bias: U64)
    requires k < |phs|
    ensures CopyAll(rs, m, bytes, phs[..k + 1], bias) ==
            match CopyAll(rs, m, bytes, phs[..k], bias) { case Failure(e) => Failure(e) case Success(m1) => CopyOne(rs, m1, bytes, phs[k], bias) }
  {
    assert phs[..k + 1][..k] == phs[..k];
  }

  lemma {:induction false} CopyAllStops(rs: seq<Region>, m: Mem, bytes: seq<Byte>, phs: seq<Phdr>, k: nat, bias: U64)
    requires k <= |phs| && CopyAll(rs, m, bytes, phs[..k], bias).Failure?
    ensures CopyAll(rs, m, bytes, phs, bias) == CopyAll(rs, m, bytes, phs[..k], bias)
    decreases |phs| - k
  {
    if k < |phs| {
      CopyAllNext(rs, m, bytes, phs, k, bias);
      CopyAllStops(rs, m, bytes, phs, k + 1, bias);
    } else {
      assert phs[..k] == phs;
    }
  }

  method CopySegment(mem: GuestMemory, bytes: seq<Byte>, ph: Phdr, bias: U64) returns (r: Result<()>)
    modifies mem`bytes
    ensures var c := CopyOne(mem.regions, old(mem.bytes), bytes, ph, bias);
            if r.Success? then c == Success(mem.bytes) else c == Failure(r.error)
  {
    hide IsMapped, Add, GetByte, WriteBytes;
    if ph.ptype != PT_LOAD || ph.memsz == 0 {
      return Success(());
    }
    var guestAddr := Add(ph.vaddr, bias);
    if ph.filesz > 0 {
      if ph.offset > |bytes| || |bytes| - ph.offset < ph.filesz {
        return Failure(FileTruncated);
      }
      :- mem.Write(guestAddr, bytes[ph.offset..ph.offset + ph.filesz]);
    } else {
      NothingIsMapped(mem.regions, guestAddr);
    }
    if ph.memsz > ph.filesz {
      :- mem.Zero(Add(guestAddr, ph.filesz), ph.memsz - ph.filesz);
    }
    return Success(());
  }

  lemma NothingIsMapped(rs: seq<Region>, a: U64)
    ensures IsMapped(rs, a, 0)
  {
  }

  method ProtectRequest(mem: GuestMemory, q: Request) returns (r: Result<()>)
    modifies mem`regions
    ensures var c := ProtectOne(old(mem.regions), q);
            if r.Success? then c == Success(mem.regions) else c == Failure(r.error)
  {
    hide AnyTouched, Protected;
    :- mem.Protect(q.addr, q.length, q.prot, q.name);
    return Success(());
  }

  /** The permissions and the label that a segment's flags ask for, on its whole memory range. */
  method ProtectSegment(mem: GuestMemory, ph: Phdr, bias: U64) returns (r: Result<()>)
    modifies mem`regions
    ensures var c := ProtectOne(old(mem.regions), SegmentRequest(ph, bias));
            if r.Success? then c == Success(mem.regions) else c == Failure(r.error)
  {
    var prot := ProtFromPhdrFlags(ph.flags);
    var name := "image " + ProtToString(prot);
    if Bit(ph.flags, 0) {
      name := name + " (text)";
    } else if Bit(ph.flags, 1) {
      name := name + " (data/bss)";
    } else {
      name := name + " (rodata)";
    }
    r := ProtectRequest(mem, Request(Add(ph.vaddr, bias), ph.memsz, prot, name));
  }

  lemma SegmentsNext(phs: seq<Phdr>, k: nat, bias: U64)
    requires k < |phs|
    ensures SegmentRequests(phs[..k + 1], bias) ==
            if phs[k].ptype == PT_LOAD && phs[k].memsz != 0 then SegmentRequests(phs[..k], bias) + [SegmentRequest(phs[k], bias)] else SegmentRequests(phs[..k], bias)
  {
    assert phs[..k + 1][..k] == phs[..k];
  }

  method ProtectSegments(mem: GuestMemory, phs: seq<Phdr>, bias: U64) returns (r: Result<()>)
    modifies mem`regions
    ensures var c := ProtectAll(old(mem.regions), SegmentRequests(phs, bias));
            if r.Success? then c == Success(mem.regions) else c == Failure(r.error)
  {
    ghost var rs0 := mem.regions;
    for k := 0 to |phs|
      invariant ProtectAll(rs0, SegmentRequests(phs[..k], bias)) == Success(mem.regions)
    {
      hide ProtectAll, ProtectOne, SegmentRequests, SegmentRequest;
      SegmentsNext(phs, k, bias);
      if phs[k].ptype == PT_LOAD && phs[k].memsz != 0 {
        ProtectAllNext(rs0, SegmentRequests(phs[..k], bias), SegmentRequest(phs[k], bias));
        var done := ProtectSegment(mem, phs[k], bias);
        if done.Failure? {
          SegmentsStop(rs0, phs, k + 1, bias);
          return done;
        }
      }
    }
    assert phs[..|phs|] == phs;
    return Success(());
  }

  lemma {:induction false} SegmentsStop(rs: seq<Region>, phs: seq<Phdr>, k: nat, bias: U64)
    requires k <= |phs| && ProtectAll(rs, SegmentRequests(phs[..k], bias)).Failure?
    ensures ProtectAll(rs, SegmentRequests(phs, bias)) == ProtectAll(rs, SegmentRequests(phs[..k], bias))
    decreases |phs| - k
  {
    hide ProtectAll, SegmentRequests, SegmentRequest;
    if k < |phs| {
      SegmentsNext(phs, k, bias);
      ProtectAllNext(rs, SegmentRequests(phs[..k], bias), SegmentRequest(phs[k], bias));
      SegmentsStop(rs, phs, k + 1, bias);
    } else {
      assert phs[..k] == phs;
    }
  }

  method NoteOtherHeaders(image: GuestElfImage, file: ElfFile) returns (r: Result<GuestElfImage>)
    ensures r == NoteHeaders(image, file.bytes, file.phdrs)
  {
    var phs, noted := file.phdrs, image;
    for k := 0 to |phs|
      invariant NoteHeaders(image, file.bytes, phs[..k]) == Success(noted)
    {
      assert phs[..k + 1][..k] == phs[..k];
      hide ReadFileString;
      if phs[k].ptype == PT_INTERP {
        match ReadFileString(file.bytes, phs[k].offset) {
          case Failure(e) =>
            NotingStops(image, file.bytes, phs, k + 1);
            return Failure(e);
          case Success(path) =>
            noted := noted.(needsInterp := true, interpPath := path);
        }
      } else if phs[k].ptype == PT_DYNAMIC {
        noted := noted.(isDynamic := true, dynamicAddr := Add(phs[k].vaddr, noted.loadBias));
      }
    }
    assert phs[..|phs|] == phs;
    return Success(noted);
  }

  lemma {:induction false} NotingStops(image: GuestElfImage, bytes: seq<Byte>, phs: seq<Phdr>, k: nat)
    requires k <= |phs| && NoteHeaders(image, bytes, phs[..k]).Failure?
    ensures NoteHeaders(image, bytes, phs) == NoteHeaders(image, bytes, phs[..k])
    decreases |phs| - k
  {
    hide NoteHeader;
    if k < |phs| {
      assert phs[..k + 1][..k] == phs[..k];
      NotingStops(image, bytes, phs, k + 1);
    } else {
      assert phs[..k] == phs;
    }
  }

  method FindTable(file: ElfFile, bias: U64) returns (a: U64)
    ensures a == TableAddr(file.phdrs, file.phoff, bias)
  {
    var phs := file.phdrs;
    for k := 0 to |phs|
      invariant TableAddr(phs, file.phoff, bias) == TableAddr(phs[k..], file.phoff, bias)
    {
      var ph := phs[k];
      if ph.ptype == PT_LOAD && file.phoff >= ph.offset && file.phoff < Add(ph.offset, ph.filesz) {
        return Add(Add(ph.vaddr, bias), file.phoff - ph.offset);
      }
      assert phs[k..][1..] == phs[k + 1..];
    }
    return 0;
  }

  /** The whole-span region that the image starts from, and its zeroed bytes. */
  function ImageRegions(low: U64, length: U64): seq<Region> {
    if length == 0 then [] else [Region(AlignDown(low), MapSize(low, length), PROT_READ + PROT_WRITE, "iamge")]
  }

  function ZeroedBytes(m: Mem, low: U64, length: U64): Mem {
    if length == 0 then m else WriteBytes(m, AlignDown(low), Zeros(MapSize(low, length)))
  }

  /** Maps the span read-write, copies the segments, sets their permissions, records the rest. It
      succeeds exactly when every step does, and the memory is what the steps make of it. */
  method MapImage(mem: GuestMemory, file: ElfFile, bias: U64, granted: bool) returns (r: Result<GuestElfImage>)
    modifies mem
    ensures var low, length := ImageLow(file, bias), Add(ImageHigh(file, bias), 0 - ImageLow(file, bias));
            var rs, m := old(mem.regions) + ImageRegions(low, length), ZeroedBytes(old(mem.bytes), low, length);
            var copied, protected := CopyAll(rs, m, file.bytes, file.phdrs, bias), ProtectAll(rs, SegmentRequests(file.phdrs, bias));
            var record := ImageRecord(file, bias, low, ImageHigh(file, bias));
            && (r.Success? <==>
                  && HasLoad(file.phdrs)
                  && (length == 0 || (mem.IsAddressable(AlignDown(low), MapSize(low, length)) && granted))
                  && copied.Success? && protected.Success? && record.Success?)
            && (r.Success? ==> r == record && copied == Success(mem.bytes) && protected == Success(mem.regions))
  {
    hide CopyAll, ProtectAll, NoteHeaders, TableAddr, MapSize, SegmentRequests, WriteBytes, Add, MinLow, MaxHigh, HasLoad;
    var span :- ComputeLoadSpan(file.phdrs);
    var low: int, high := Add(span.0, bias), Add(span.1, bias);
    assert mem.regions + [] == mem.regions;
    :- mem.Map(low, Add(high, 0 - low), PROT_READ + PROT_WRITE, "iamge", granted);
    var _ :- CopySegments(mem, file.bytes, file.phdrs, bias);
    var _ :- ProtectSegments(mem, file.phdrs, bias);
    var image :- NoteOtherHeaders(BlankImage(file, bias, low, high), file);
    var table := FindTable(file, bias);
    return Success(image.(phdrAddr := table, brk := AlignUp(high)));
  }

  // ----- read-only after relocation -----

  predicate IsRelro(ph: Phdr) {
    ph.ptype == PT_GNU_RELRO && ph.memsz != 0
  }

  function RelroRequest(ph: Phdr, bias: U64): Request {
    Request(GuestAddr(ph, bias), ph.memsz, PROT_READ, "image r-- (relro)")
  }

  function RelroRequests(phs: seq<Phdr>, bias: U64): seq<Request> {
    if phs == [] then []
    else
      var rest, ph := RelroRequests(phs[..|phs| - 1], bias), phs[|phs| - 1];
      if IsRelro(ph) then rest + [RelroRequest(ph, bias)] else rest
  }

  /** A RELRO header's pages become read-only. */
  lemma RelroIs(ph: Phdr, bias: U64)
    ensures RelroRequest(ph, bias) == Request(Add(ph.vaddr, bias), ph.memsz, PROT_READ, "image r-- (relro)")
    ensures forall a: U64 :: RelroRequest(ph, bias).Pages(a) <==> OnPages(ph, bias, a)
  {
  }

  lemma RelroNext(phs: seq<Phdr>, k: nat, bias: U64)
    requires k < |phs|
    ensures RelroRequests(phs[..k + 1], bias) ==
            if IsRelro(phs[k]) then RelroRequests(phs[..k], bias) + [RelroRequest(phs[k], bias)] else RelroRequests(phs[..k], bias)
  {
    assert phs[..k + 1][..k] == phs[..k];
  }

  method ApplyRelro(mem: GuestMemory, phs: seq<Phdr>, bias: U64) returns (r: Result<()>)
    modifies mem`regions
    ensures var c := ProtectAll(old(mem.regions), RelroRequests(phs, bias));
            if r.Success? then c == Success(mem.regions) else c == Failure(r.error)
  {
    ghost var rs0 := mem.regions;
    for k := 0 to |phs|
      invariant ProtectAll(rs0, RelroRequests(phs[..k], bias)) == Success(mem.regions)
    {
      hide ProtectAll, ProtectOne, RelroRequests, RelroRequest;
      RelroNext(phs, k, bias);
      if phs[k].ptype == PT_GNU_RELRO && phs[k].memsz != 0 {
        RelroIs(phs[k], bias);
        ProtectAllNext(rs0, RelroRequests(phs[..k], bias), RelroRequest(phs[k], bias));
        var done := ProtectRequest(mem, Request(Add(phs[k].vaddr, bias), phs[k].memsz, PROT_READ, "image r-- (relro)"));
        if done.Failure? {
          RelroStops(rs0, phs, k + 1, bias);
          return done;
        }
      }
    }
    assert phs[..|phs|] == phs;
    return Success(());
  }

  lemma {:induction false} RelroStops(rs: seq<Region>, phs: seq<Phdr>, k: nat, bias: U64)
    requires k <= |phs| && ProtectAll(rs, RelroRequests(phs[..k], bias)).Failure?
    ensures ProtectAll(rs, RelroRequests(phs, bias)) == ProtectAll(rs, RelroRequests(phs[..k], bias))
    decreases |phs| - k
  {
    hide ProtectAll, RelroRequests, RelroRequest;
    if k < |phs| {
      RelroNext(phs, k, bias);
      ProtectAllNext(rs, RelroRequests(phs[..k], bias), RelroRequest(phs[k], bias));
      RelroStops(rs, phs, k + 1, bias);
    } else {
      assert phs[..k] == phs;
    }
  }
}
