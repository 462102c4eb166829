/** Assembling the whole process image: reserve, map, relocate, seal, stack. */
module Loader {
  import opened Wrappers
  import opened Bits
  import opened Regions
  import opened Elf
  import opened StackLayout
  import opened Memory
  import opened Permissions
  import opened ImageMapper
  import opened ImageLaws
  import opened Relocation
  import opened GuestStack

  const GUARD_GAP := 16 * 1024 * 1024

  datatype LoadOptions = LoadOptions(pieBase: U64, stackTop: U64, stackSize: U64, fallbackWindowSize: U64)

  /** What the host's mmap answers to the four requests a load makes. */
  datatype HostAnswers = HostAnswers(identity: bool, window: Option<U64>, imageGranted: bool, stackGranted: bool)

  datatype GuestCpuState = GuestCpuState(rip: U64, rsp: U64, rdx: U64)

  // ----- the overlap check -----

  /** The check on the values as given, before any rounding. */
  predicate StackOverlaps(stackTop: U64, stackSize: U64, low: U64, high: U64) {
    Add(stackTop, 0 - stackSize) < high && stackTop > low
  }

  /** A stack that does not wrap passes the check exactly when it lies below or above the image; one that
      does is taken to begin 2^64 higher. */
  lemma StackCheckMeans(stackTop: U64, stackSize: U64, low: U64, high: U64)
    ensures !StackOverlaps(stackTop, stackSize, low, high) <==>
            stackTop <= low || high <= stackTop - stackSize + (if stackSize <= stackTop then 0 else TWO64)
  {
    AddPlain(stackTop, 0 - stackSize);
  }

  /** Passing the check on unrounded values keeps the page-rounded stack off a page-aligned image, and for a
      page-aligned top the check is exact. */
  lemma RoundedStackIsClear(stackTop: U64, stackSize: U64, low: U64, high: U64)
    requires low % PAGE == 0 && high % PAGE == 0 && stackSize <= stackTop && stackTop + PAGE <= TWO64
    ensures AlignUp(stackSize) <= AlignUp(stackTop)
    ensures var clear := AlignUp(stackTop) <= low || high <= AlignUp(stackTop) - AlignUp(stackSize);
            && (!StackOverlaps(stackTop, stackSize, low, high) ==> clear)
            && (stackTop % PAGE == 0 ==> (!StackOverlaps(stackTop, stackSize, low, high) <==> clear))
  {
    StackCheckMeans(stackTop, stackSize, low, high);
    hide Add, StackOverlaps;
    PageAboveAll(stackTop, stackSize, high);
    if stackTop <= low { PageAbove(stackTop, low); }
  }

  /** Otherwise it can refuse a stack that rounding would move off the image. */
  lemma StackRefusedThoughClear()
    ensures StackOverlaps(0x3001, 0x2000, 0x1000, 0x2000)
    ensures 0x2000 <= AlignUp(0x3001) - AlignUp(0x2000)
  {
  }

  lemma PageAboveAll(top: U64, size: U64, high: int)
    requires size <= top && top + PAGE <= TWO64 && high % PAGE == 0
    ensures AlignUp(size) <= AlignUp(top)
    ensures top - size >= high ==> AlignUp(top) - AlignUp(size) >= high
  {
    hide AlignUp;
    var t, s := AlignUp(top), AlignUp(size);
    PageGap(t - s, 0);
    if top - size >= high { PageGap(t - s, high); }
  }

  /** Multiples of the page size that are less than a page apart in one direction are in order. */
  lemma PageGap(a: int, b: int)
    requires a > b - PAGE
    requires a % PAGE == 0 && b % PAGE == 0
    ensures a >= b
  {
  }

  // ----- permissions of the loaded image -----

  /** No read-only-after-relocation range wraps. */
  predicate GoodRelro(file: ElfFile, bias: U64) {
    forall ph :: ph in file.phdrs && IsRelro(ph) ==> GuestAddr(ph, bias) + ph.memsz <= TWO64
  }

  predicate InRelro(file: ElfFile, bias: U64, a: U64) {
    exists ph :: ph in file.phdrs && ph.ptype == PT_GNU_RELRO && OnPages(ph, bias, a)
  }

  /** Read-only inside a rounded RELRO range, else the last segment's, else the span's read-write. */
  function ImageProt(file: ElfFile, bias: U64, a: U64): nat {
    if InRelro(file, bias, a) then PROT_READ
    else LastProt(SegmentRequests(file.phdrs, bias), a, PROT_READ + PROT_WRITE)
  }

  lemma {:induction false} RequestsAreRelro(phs: seq<Phdr>, bias: U64)
    ensures forall q :: q in RelroRequests(phs, bias) <==> exists ph :: ph in phs && IsRelro(ph) && q == RelroRequest(ph, bias)
  {
    hide RelroRequest, IsRelro;
    if phs != [] {
      var init, last := phs[..|phs| - 1], phs[|phs| - 1];
      RequestsAreRelro(init, bias);
      assert phs[..|phs|] == phs;
      RelroNext(phs, |init|, bias);
      assert forall ph :: ph in phs <==> ph in init || ph == last;
      hide RelroRequests;
    }
  }

  /** Sealing keeps the mapping and leaves last-writer permissions over both rounds of protect calls. */
  lemma SealedImage(file: ElfFile, bias: U64, rs: seq<Region>, low: U64, high: U64)
    requires ValidRegions(rs) && GoodRelro(file, bias) && ProtectAll(rs, RelroRequests(file.phdrs, bias)).Success?
    requires forall a: U64 :: Mapped(rs, a) <==> low <= a < high
    requires forall a: U64 :: low <= a < high ==> ProtAt(rs, a) == LastProt(SegmentRequests(file.phdrs, bias), a, PROT_READ + PROT_WRITE)
    ensures var out := ProtectAll(rs, RelroRequests(file.phdrs, bias)).value;
            && ValidRegions(out)
            && (forall a: U64 :: Mapped(out, a) <==> low <= a < high)
            && (forall a: U64 :: ProtAt(out, a) == if low <= a < high then ImageProt(file, bias, a) else PROT_NONE)
  {
    var qs := RelroRequests(file.phdrs, bias);
    RequestsAreRelro(file.phdrs, bias);
    hide ProtectAll, Mapped, ProtAt, ValidRegions, LastProt, RelroRequests, SegmentRequests, Request.Pages;
    LastWriterWins(rs, qs);
    forall a: U64 | low <= a < high ensures LastProt(qs, a, ProtAt(rs, a)) == ImageProt(file, bias, a) {
      LastProtUniform(qs, a, ProtAt(rs, a), PROT_READ);
      forall ph | ph in file.phdrs && IsRelro(ph) ensures RelroRequest(ph, bias).Pages(a) ==> InRelro(file, bias, a) { RelroIs(ph, bias); }
      if InRelro(file, bias, a) {
        var ph :| ph in file.phdrs && ph.ptype == PT_GNU_RELRO && OnPages(ph, bias, a);
        RelroIs(ph, bias);
        assert RelroRequest(ph, bias) in qs;
      }
    }
  }

  // ----- what a loaded process is -----

  /** The image's memory and regions when mapping has finished; mapping starts from an empty reservation. */
  ghost function MappedBytes(file: ElfFile, bias: U64): Result<Mem> {
    var low, length := ImageLow(file, bias), Add(ImageHigh(file, bias), 0 - ImageLow(file, bias));
    CopyAll([] + ImageRegions(low, length), ZeroedBytes(map[], low, length), file.bytes, file.phdrs, bias)
  }

  ghost function MappedRegions(file: ElfFile, bias: U64): Result<seq<Region>> {
    var low, length := ImageLow(file, bias), Add(ImageHigh(file, bias), 0 - ImageLow(file, bias));
    ProtectAll([] + ImageRegions(low, length), SegmentRequests(file.phdrs, bias))
  }

  /** The image in memory: the segments placed, then relocated. */
  ghost predicate ImageInMemory(file: ElfFile, bias: U64, rs: seq<Region>, m1: Mem, m2: Mem, image: GuestElfImage) {
    var record := ImageRecord(file, bias, ImageLow(file, bias), ImageHigh(file, bias));
    && Placed(file, bias, [], map[], rs, m1)
    && record.Success?
    && image == record.value.(relocApplied := image.relocApplied, relocSkipped := image.relocSkipped)
    && Relocated(rs, Progress(m1, 0, 0), record.value) == Progress(m2, image.relocApplied, image.relocSkipped)
  }

  /** Image and stack are disjoint page ranges, they are all that is mapped, and every address has the
      permission it should have. */
  ghost predicate AddressSpace(file: ElfFile, bias: U64, rs: seq<Region>, stack: GuestStackImage) {
    var low, high := ImageLow(file, bias), ImageHigh(file, bias);
    && ValidRegions(rs)
    && (stack.top <= low || high <= stack.low)
    && (forall a: U64 :: Mapped(rs, a) <==> low <= a < high || stack.low <= a < stack.top)
    && (forall a: U64 :: ProtAt(rs, a) ==
          if low <= a < high then ImageProt(file, bias, a)
          else if stack.low <= a < stack.top then PROT_READ + PROT_WRITE
          else PROT_NONE)
  }

  // ----- loading -----

  /** Whether guest addresses are host addresses. */
  predicate Identity(file: ElfFile, bias: U64, host: HostAnswers) {
    host.identity || (host.window.Some? && Add(host.window.value, 0 - AlignDown(ImageLow(file, bias))) == 0)
  }

  /** The end of the reservation when the image could not be placed at its own addresses. */
  function WindowEnd(file: ElfFile, bias: U64, fallbackWindowSize: U64): U64 {
    var low := AlignDown(ImageLow(file, bias));
    Add(low, WindowSize(Add(AlignUp(ImageHigh(file, bias)), 0 - low), fallbackWindowSize))
  }

  /** Whether a range can be given host addresses. */
  predicate Reachable(file: ElfFile, bias: U64, fallbackWindowSize: U64, host: HostAnswers, a: U64, length: U64) {
    || Identity(file, bias, host)
    || (a >= AlignDown(ImageLow(file, bias)) && Add(a, length) >= a && Add(a, length) <= WindowEnd(file, bias, fallbackWindowSize))
  }

  /** When the image phases pass: there is something to load, the host grants it, its segments can be
      copied, an interpreter's name lies inside the file, and every RELRO range reaches into the image. */
  ghost predicate ImageLoads(file: ElfFile, bias: U64, fallbackWindowSize: U64, host: HostAnswers) {
    var low, high := ImageLow(file, bias), ImageHigh(file, bias);
    && HasLoad(file.phdrs) && low != high
    && (host.identity || host.window.Some?)
    && Reachable(file, bias, fallbackWindowSize, host, low, Add(high, 0 - low)) && host.imageGranted
    && MappedBytes(file, bias).Success?
    && (forall ph :: ph in file.phdrs && ph.ptype == PT_INTERP ==> ph.offset < |file.bytes|)
    && (forall ph :: ph in file.phdrs && ph.ptype == PT_GNU_RELRO && ph.memsz != 0 ==> exists a: U64 :: OnPages(ph, bias, a) && low <= a < high)
  }

  /** Where the stack goes: the option, or below a gap of 16 MiB at the end of the reservation when the image
      could not be placed at its own addresses. */
  function StackTopFor(file: ElfFile, bias: U64, options: LoadOptions, host: HostAnswers): U64 {
    if Identity(file, bias, host) then options.stackTop
    else Add(WindowEnd(file, bias, options.fallbackWindowSize), 0 - 0x100_0000)
  }

  /** When the stack phase passes: it is off the image, granted, and large enough. */
  predicate StackLoads(file: ElfFile, bias: U64, options: LoadOptions, host: HostAnswers, argv: seq<Str>, envp: seq<Str>) {
    var stackTop := StackTopFor(file, bias, options, host);
    var top, size := AlignUp(stackTop), AlignUp(options.stackSize);
    && (stackTop <= ImageLow(file, bias) || ImageHigh(file, bias) <= stackTop - options.stackSize)
    && size > 0 && Reachable(file, bias, options.fallbackWindowSize, host, Add(top, 0 - size), size) && host.stackGranted
    && top - size <= StackPointer(top, file.path, argv, envp)
  }

  /** The layout arithmetic does not wrap. */
  predicate RoomForStack(stackTop: U64, stackSize: U64, path: Str, argv: seq<Str>, envp: seq<Str>) {
    stackTop + PAGE <= TWO64 && stackSize <= stackTop && StackPointer(AlignUp(stackTop), path, argv, envp) >= 0
  }

  /** Mapping a good file into an empty reservation places it. */
  lemma MappingPlaces(file: ElfFile, bias: U64)
    requires GoodImage(file, bias) && HasLoad(file.phdrs) && MappedBytes(file, bias).Success?
    ensures MappedRegions(file, bias).Success?
    ensures Placed(file, bias, [], map[], MappedRegions(file, bias).value, MappedBytes(file, bias).value)
  {
    hide Placed, CopyAll, ProtectAll, GoodImage, ImageLow, ImageHigh, ZeroedBytes, ImageRegions, Add;
    assert ValidRegions([]);
    ImageIsPlaced(file, bias, [], map[]);
  }

  /** The segments of a file whose segments have no more file than memory bytes can be copied exactly when
      none runs past the end of the file. */
  lemma MappedBytesIff(file: ElfFile, bias: U64)
    requires GoodImage(file, bias) && HasLoad(file.phdrs) && WithinMemory(file)
    ensures MappedBytes(file, bias).Success? <==>
            forall ph :: ph in file.phdrs && ph.ptype == PT_LOAD && ph.memsz != 0 && ph.filesz > 0 ==> ph.offset + ph.filesz <= |file.bytes|
  {
    hide Placed, CopyAll, ProtectAll, GoodImage, ImageLow, ImageHigh, ZeroedBytes, ImageRegions, Add;
    assert ValidRegions([]);
    ImageIsPlaced(file, bias, [], map[]);
  }

  /** What the later phases need to know of a placed image. */
  lemma PlacedSpan(file: ElfFile, bias: U64, rs: seq<Region>, m: Mem)
    requires Placed(file, bias, [], map[], rs, m)
    ensures var low, high := ImageLow(file, bias), ImageHigh(file, bias);
            && ValidRegions(rs)
            && (forall a: U64 :: Mapped(rs, a) <==> low <= a < high)
            && forall a: U64 :: low <= a < high ==> ProtAt(rs, a) == LastProt(SegmentRequests(file.phdrs, bias), a, PROT_READ + PROT_WRITE)
  {
    hide LastProt, SegmentRequests, ImageByte, ImageLow, ImageHigh, GetByte;
  }

  /** The stack mapping changes nothing about the image's permissions. */
  lemma StackJoins(file: ElfFile, bias: U64, rs: seq<Region>, stack: GuestStackImage)
    requires var low, high := ImageLow(file, bias), ImageHigh(file, bias);
             && ValidRegions(rs)
             && (forall a: U64 :: Mapped(rs, a) <==> low <= a < high)
             && (forall a: U64 :: ProtAt(rs, a) == if low <= a < high then ImageProt(file, bias, a) else PROT_NONE)
             && (stack.top <= low || high <= stack.low)
    requires stack.low < stack.top && stack.top + PAGE <= TWO64 && stack.size == stack.top - stack.low
    requires StackRegion(stack.low, stack.size).Good()
    ensures AddressSpace(file, bias, rs + [StackRegion(stack.low, stack.size)], stack)
  {
    hide Mapped, ProtAt, ValidRegions, ImageLow, ImageHigh, ImageProt, Region.Good;
    MapCommits(rs, StackRegion(stack.low, stack.size));
  }

  lemma StackGood(stackTop: U64, stackSize: U64)
    requires stackSize <= stackTop && stackTop + PAGE <= TWO64
    ensures AlignUp(stackTop) + PAGE <= TWO64 && AlignUp(stackSize) <= AlignUp(stackTop)
    ensures stackSize > 0 ==> StackRegion(AlignUp(stackTop) - AlignUp(stackSize), AlignUp(stackSize)).Good()
    ensures stackSize == 0 ==> AlignUp(stackSize) == 0
  {
    var t, s := AlignUp(stackTop), AlignUp(stackSize);
    PageAboveAll(stackTop, stackSize, 0);
    hide AlignUp;
    PageDifference(s, t);
    PageBelowTop(t);
  }

  /** The record carries the path, the biased entry, the span and the table's address; the program break
      begins behind the image; the last PT_DYNAMIC and the last PT_INTERP header give the rest. */
  lemma RecordOf(file: ElfFile, bias: U64, low: U64, high: U64)
    requires ImageRecord(file, bias, low, high).Success?
    ensures var image, phs := ImageRecord(file, bias, low, high).value, file.phdrs;
            && image.path == file.path && (image.isPie <==> !file.isFixedExe) && image.loadBias == bias
            && image.entry == Add(file.entry, bias) && image.loadLow == low && image.loadHigh == high && image.brk == AlignUp(high)
            && image.phdrAddr == TableAddr(phs, file.phoff, bias) && image.phEntSize == file.phentsize && image.phNum == file.phnum
            && image.relocApplied == 0 && image.relocSkipped == 0
            && (image.isDynamic <==> HasType(phs, PT_DYNAMIC)) && (image.needsInterp <==> HasType(phs, PT_INTERP))
            && (forall i: nat :: LastOf(phs, i, PT_DYNAMIC) ==> image.dynamicAddr == (phs[i].vaddr + bias) % TWO64)
            && (image.isDynamic || image.dynamicAddr == 0) && (image.needsInterp || image.interpPath == [])
            && (forall i: nat :: LastOf(phs, i, PT_INTERP) ==>
                  phs[i].offset < |file.bytes| && image.interpPath == UntilNul(file.bytes[phs[i].offset..]))
  {
    LastHeadersDecide(BlankImage(file, bias, low, high), file.bytes, file.phdrs);
    hide NoteHeaders, TableAddr, Add, HasType, UntilNul;
  }

  lemma {:induction false} NotingPasses(image: GuestElfImage, bytes: seq<Byte>, phs: seq<Phdr>)
    ensures NoteHeaders(image, bytes, phs).Success? <==> forall ph :: ph in phs && ph.ptype == PT_INTERP ==> ph.offset < |bytes|
  {
    hide UntilNul;
    if phs != [] {
      var init, last := phs[..|phs| - 1], phs[|phs| - 1];
      assert forall ph :: ph in phs <==> ph in init || ph == last;
      NotingPasses(image, bytes, init);
    }
  }

  lemma ReachesSpan(rs: seq<Region>, q: Request, low: U64, high: U64)
    requires forall a: U64 :: Mapped(rs, a) <==> low <= a < high
    ensures Reaches(rs, q) <==> exists a: U64 :: q.Pages(a) && low <= a < high
  {
    hide Mapped, Request.Pages;
    if Reaches(rs, q) { var a: U64 :| q.Pages(a) && Mapped(rs, a); }
  }

  lemma RelroPasses(file: ElfFile, bias: U64, rs: seq<Region>, low: U64, high: U64)
    requires ValidRegions(rs) && GoodRelro(file, bias) && forall a: U64 :: Mapped(rs, a) <==> low <= a < high
    ensures ProtectAll(rs, RelroRequests(file.phdrs, bias)).Success? <==>
            forall ph :: ph in file.phdrs && ph.ptype == PT_GNU_RELRO && ph.memsz != 0 ==> exists a: U64 :: OnPages(ph, bias, a) && low <= a < high
  {
    hide Reaches;
    var qs := RelroRequests(file.phdrs, bias);
    RequestsAreRelro(file.phdrs, bias);
    assert forall q :: q in qs ==> q.length > 0 && q.addr + q.length <= TWO64;
    hide ProtectAll, Mapped, ValidRegions, RelroRequests, RelroRequest, Request.Pages, GuestAddr;
    ProtectAllPasses(rs, qs);
    forall ph | ph in file.phdrs && IsRelro(ph)
      ensures Reaches(rs, RelroRequest(ph, bias)) <==> exists a: U64 :: OnPages(ph, bias, a) && low <= a < high
    {
      RelroIs(ph, bias);
      ReachesSpan(rs, RelroRequest(ph, bias), low, high);
    }
    assert forall ph :: ph in file.phdrs && IsRelro(ph) ==> RelroRequest(ph, bias) in qs;
  }

  /** The page arithmetic of a good image's span. */
  lemma SpanPages(file: ElfFile, bias: U64)
    requires GoodImage(file, bias) && HasLoad(file.phdrs)
    ensures var low, high := ImageLow(file, bias), ImageHigh(file, bias);
            && low <= high && AlignDown(low) == low && AlignUp(high) == high && Add(high, 0 - low) == high - low
            && MapSize(low, high - low) == high - low
  {
    var low: int, high: int := ImageLow(file, bias), ImageHigh(file, bias);
    SpanHolds(file, bias);
    hide ImageLow, ImageHigh, GoodImage;
    PageAligned(low);
    PageAligned(high);
    AddPlain(low, high - low);
    AddPlain(high, 0 - low);
  }

  /** A process whose image, stack and registers are in place. */
  class GuestProcess {
    const file: ElfFile
    var memory: GuestMemory?
    var image: Option<GuestElfImage>
    var stack: Option<GuestStackImage>
    var cpu: GuestCpuState

    constructor (file: ElfFile)
      ensures this.file == file && memory == null && image.None? && stack.None? && cpu == GuestCpuState(0, 0, 0)
    {
      this.file, memory, image, stack, cpu := file, null, None, None, GuestCpuState(0, 0, 0);
    }

    /** Image phases: reserve, map, relocate, seal. */
    static method LoadImage(file: ElfFile, bias: U64, fallbackWindowSize: U64, host: HostAnswers)
      returns (r: Result<(GuestMemory, GuestElfImage)>, ghost m1: Mem, ghost rs1: seq<Region>)
      requires GoodImage(file, bias) && GoodRelro(file, bias)
      ensures r.Success? <==> ImageLoads(file, bias, fallbackWindowSize, host)
      ensures r.Success? ==>
                var (mem, image) := r.value;
                var low, high := ImageLow(file, bias), ImageHigh(file, bias);
                && fresh(mem) && mem.Valid() && HasLoad(file.phdrs)
                && image.path == file.path && image.entry == Add(file.entry, bias) && image.loadBias == bias
                && image.loadLow == low && image.loadHigh == high
                && ImageInMemory(file, bias, rs1, m1, mem.bytes, image)
                && (forall a: U64 :: Mapped(mem.regions, a) <==> low <= a < high)
                && (forall a: U64 :: ProtAt(mem.regions, a) == if low <= a < high then ImageProt(file, bias, a) else PROT_NONE)
                && (mem.IsIdentity() <==> Identity(file, bias, host))
                && (forall a, n :: mem.IsAddressable(a, n) <==> Reachable(file, bias, fallbackWindowSize, host, a, n))
                && (!mem.IsIdentity() ==> mem.reservedHigh == WindowEnd(file, bias, fallbackWindowSize))
    {
      hide Placed, ImageProt, Mapped, ProtAt, ValidRegions, CopyAll, ProtectAll, Relocated, NoteHeaders, TableAddr,
        WindowSize, Add, GoodImage, GoodRelro, AlignUp, AlignDown, HasLoad, MinLow, MaxHigh, MapSize;
      m1, rs1 := map[], [];
      var low, high := ImageLow(file, bias), ImageHigh(file, bias);
      if HasLoad(file.phdrs) { SpanPages(file, bias); }
      var span :- ComputeLoadSpan(file.phdrs);
      var mem :- GuestMemory.Reserve(Add(span.0, bias), Add(span.1, bias), fallbackWindowSize, host.identity, host.window);
      NotingPasses(BlankImage(file, bias, low, high), file.bytes, file.phdrs);
      if MappedBytes(file, bias).Success? { MappingPlaces(file, bias); }
      var image :- MapImage(mem, file, bias, host.imageGranted);
      m1, rs1 := mem.bytes, mem.regions;
      PlacedSpan(file, bias, rs1, m1);
      RecordOf(file, bias, low, high);
      var relocated := ApplyRelocations(mem, image);
      RelroPasses(file, bias, rs1, low, high);
      var _ :- ApplyRelro(mem, file.phdrs, bias);
      SealedImage(file, bias, rs1, low, high);
      return Success((mem, relocated)), m1, rs1;
    }

    /** The phases in order. The load succeeds exactly when the image and the stack can be placed; then
        image and stack are all that is mapped, the image's bytes are the
        relocated segments with no trace of the stack, the stack is laid out for the given strings, and
        the registers point at both. */
    static method Load(file: ElfFile, argv: seq<Str>, envp: seq<Str>, options: LoadOptions, host: HostAnswers)
      returns (r: Result<GuestProcess>, ghost pl: Placement, ghost m1: Mem, ghost rs1: seq<Region>, ghost m2: Mem)
      requires var bias := ChooseLoadBias(file, options.pieBase);
               && GoodImage(file, bias) && GoodRelro(file, bias)
               && RoomForStack(StackTopFor(file, bias, options, host), options.stackSize, file.path, argv, envp)
      ensures var bias := ChooseLoadBias(file, options.pieBase);
              r.Success? <==> ImageLoads(file, bias, options.fallbackWindowSize, host) && StackLoads(file, bias, options, host, argv, envp)
      ensures r.Success? ==>
                var p, bias := r.value, ChooseLoadBias(file, options.pieBase);
                && p.file == file && p.memory != null && p.image.Some? && p.stack.Some?
                && var (mem, image, stack) := (p.memory, p.image.value, p.stack.value);
                && ImageInMemory(file, bias, rs1, m1, m2, image)
                && SameOutside(m2, mem.bytes, stack.low, stack.top)
                && AddressSpace(file, bias, mem.regions, stack)
                && Laid(mem.bytes, stack, pl, image, argv, envp)
                && stack.top == AlignUp(StackTopFor(file, bias, options, host)) && stack.size == AlignUp(options.stackSize)
                && image.loadBias == (if file.isFixedExe then 0 else options.pieBase)
                && p.cpu == GuestCpuState(Add(file.entry, image.loadBias), stack.rsp, 0)
    {
      hide ImageInMemory, ImageProt, Mapped, ProtAt, ValidRegions, WindowSize, Add, GoodImage, GoodRelro, AlignUp, AlignDown,
        Laid, StackPointer, GuestMemory.IsAddressable, Reachable, ImageLoads, WindowEnd;
      pl, m1, rs1, m2 := Placement(0, 0, [], [], 0, []), map[], [], map[];
      var process := new GuestProcess(file);
      var bias := ChooseLoadBias(file, options.pieBase);
      var loaded;
      loaded, m1, rs1 := LoadImage(file, bias, options.fallbackWindowSize, host);
      if loaded.Failure? {
        return Failure(loaded.error), pl, m1, rs1, m2;
      }
      var (mem, image) := loaded.value;
      process.memory, process.image, m2 := mem, Some(image), mem.bytes;
      var stackTop := options.stackTop;
      if !mem.IsIdentity() {
        stackTop := Add(mem.reservedHigh, 0 - GUARD_GAP);
      }
      StackCheckMeans(stackTop, options.stackSize, image.loadLow, image.loadHigh);
      if StackOverlaps(stackTop, options.stackSize, image.loadLow, image.loadHigh) {
        return Failure(StackOverlapsImage), pl, m1, rs1, m2;
      }
      SpanHolds(file, bias);
      RoundedStackIsClear(stackTop, options.stackSize, image.loadLow, image.loadHigh);
      StackGood(stackTop, options.stackSize);
      AddPlain(AlignUp(stackTop), 0 - AlignUp(options.stackSize));
      ghost var rs2 := mem.regions;
      var built;
      built, pl := BuildInitialStack(mem, image, argv, envp, stackTop, options.stackSize, host.stackGranted);
      if built.Failure? {
        return Failure(built.error), pl, m1, rs1, m2;
      }
      StackJoins(file, bias, rs2, built.value);
      process.stack := Some(built.value);
      process.cpu := GuestCpuState(image.entry, built.value.rsp, 0);
      return Success(process), pl, m1, rs1, m2;
    }
  }
}
