/** What a started program finds: its strings, its relocated data, and its own code. */
module Process {
  import opened Wrappers
  import opened Bits
  import opened Regions
  import opened ByteStore
  import opened Elf
  import opened StackLayout
  import opened Permissions
  import opened ImageMapper
  import opened ImageLaws
  import opened Relocation
  import opened GuestStack
  import opened StackReader
  import opened Loader

  lemma StackIsMapped(file: ElfFile, bias: U64, rs: seq<Region>, stack: GuestStackImage)
    requires AddressSpace(file, bias, rs, stack)
    ensures ValidRegions(rs) && (stack.low <= stack.top ==> BytesMapped(rs, stack.low, stack.top - stack.low))
  {
    hide Mapped, ProtAt, ImageProt, ImageLow, ImageHigh, ValidRegions;
  }

  lemma StackBounds(m: Mem, stack: GuestStackImage, pl: Placement, image: GuestElfImage, argv: seq<Str>, envp: seq<Str>)
    requires Laid(m, stack, pl, image, argv, envp)
    ensures stack.low <= stack.top
  {
    hide StringsPlaced, WordsAt, VectorSays, FixedRandom;
  }

  /** What the record of an image in memory says about its file. */
  lemma RecordInMemory(file: ElfFile, bias: U64, rs1: seq<Region>, m1: Mem, m2: Mem, image: GuestElfImage)
    requires ImageInMemory(file, bias, rs1, m1, m2, image)
    ensures image.path == file.path && image.entry == Add(file.entry, bias) && image.loadBias == bias
    ensures image.phdrAddr == TableAddr(file.phdrs, file.phoff, bias) && image.phEntSize == file.phentsize && image.phNum == file.phnum
    ensures image.isDynamic <==> HasType(file.phdrs, PT_DYNAMIC)
    ensures forall i: nat :: LastOf(file.phdrs, i, PT_DYNAMIC) ==> image.dynamicAddr == (file.phdrs[i].vaddr + bias) % TWO64
  {
    RecordOf(file, bias, ImageLow(file, bias), ImageHigh(file, bias));
    hide Placed, ImageRecord, ImageLow, ImageHigh, HasType, LastOf, TableAddr, UntilNul, Relocated, Add;
  }

  /** Walking up from the initial stack pointer of a loaded process gives back argc, every argument and
      environment string, both terminators, the path, and an auxiliary vector that names this image's entry
      point and header table. */
  lemma ProgramSeesItsStack(file: ElfFile, bias: U64, rs1: seq<Region>, m1: Mem, m2: Mem, rs: seq<Region>, m: Mem,
                            image: GuestElfImage, stack: GuestStackImage, pl: Placement,
                            argv: seq<Str>, envp: seq<Str>, limit: nat, slots: nat)
    requires ImageInMemory(file, bias, rs1, m1, m2, image)
    requires AddressSpace(file, bias, rs, stack) && Laid(m, stack, pl, image, argv, envp)
    requires slots >= |envp| && slots >= 19 && limit >= 6
    requires forall s :: s in argv || s in envp || s == file.path ==> 0 !in s && |s| <= limit
    ensures var found := Recover(rs, m, stack.rsp, limit, slots);
            && found.argc == |argv| && found.args == argv && found.argNull == 0 && found.envs == envp && found.envNull == 0
            && VectorSays(found.aux, image, pl.random, pl.platform, pl.execfn)
            && found.execfn == file.path && found.platform == PLATFORM && FixedRandom(found.random)
    ensures image.entry == Add(file.entry, bias) && image.phdrAddr == TableAddr(file.phdrs, file.phoff, bias)
    ensures image.phEntSize == file.phentsize && image.phNum == file.phnum
  {
    hide AddressSpace, BytesMapped, ValidRegions, Laid, Recover, Visible, VisibleAll, ImageInMemory, TableAddr, VectorSays, FixedRandom, Add;
    RecordInMemory(file, bias, rs1, m1, m2, image);
    StackBounds(m, stack, pl, image, argv, envp);
    StackIsMapped(file, bias, rs, stack);
    StackRoundTrips(rs, m, stack, pl, image, argv, envp, limit, slots);
    VerbatimStrings(argv, limit);
    VerbatimStrings(envp, limit);
    VisibleIsAll(file.path, limit);
    VisibleIsAll(PLATFORM, limit);
  }

  /** Permissions in a loaded process, by header: an image address in a page of a RELRO range is read-only;
      otherwise the last loadable segment with a page there decides, by its flags; where there is none the
      page is read-write. Index -1 stands for no segment. */
  lemma PermissionsAfterLoad(file: ElfFile, bias: U64, rs: seq<Region>, stack: GuestStackImage, a: U64, i: int)
    requires AddressSpace(file, bias, rs, stack) && ImageLow(file, bias) <= a < ImageHigh(file, bias)
    requires -1 <= i < |file.phdrs| && (i >= 0 ==> file.phdrs[i].ptype == PT_LOAD && OnPages(file.phdrs[i], bias, a))
    requires forall j :: i < j < |file.phdrs| && file.phdrs[j].ptype == PT_LOAD ==> !OnPages(file.phdrs[j], bias, a)
    ensures ProtAt(rs, a) ==
            if exists ph :: ph in file.phdrs && ph.ptype == PT_GNU_RELRO && OnPages(ph, bias, a) then PROT_READ
            else if i >= 0 then ProtFromPhdrFlags(file.phdrs[i].flags)
            else PROT_READ + PROT_WRITE
  {
    hide Mapped, ProtAt, ValidRegions, ImageLow, ImageHigh, OnPages, LastProt, SegmentRequests;
    if i >= 0 {
      LastSegmentDecides(file.phdrs, bias, a, PROT_READ + PROT_WRITE, i);
    } else {
      NoSegmentDecides(file.phdrs, bias, a, PROT_READ + PROT_WRITE);
    }
  }

  /** The relocation entries of the mapped image. */
  ghost function EntriesOf(file: ElfFile, bias: U64, rs1: seq<Region>, m1: Mem): seq<U64> {
    var record := ImageRecord(file, bias, ImageLow(file, bias), ImageHigh(file, bias));
    if ValidRegions(rs1) && record.Success? then ImageEntries(rs1, m1, record.value) else []
  }

  /** Each relocation of the image is settled, in the memory the program starts with. The entries are those
      of the two tables that the words at the last PT_DYNAMIC header's address describe: the last DT_RELA and
      DT_RELASZ, the last DT_JMPREL and DT_PLTRELSZ, and the last DT_RELAENT in front of the first DT_NULL. */
  lemma RelocationsAreSettled(file: ElfFile, bias: U64, rs1: seq<Region>, m1: Mem, m2: Mem, image: GuestElfImage)
    returns (n: nat, first: seq<U64>, second: seq<U64>)
    requires ImageInMemory(file, bias, rs1, m1, m2, image) && NoOverlap(rs1, m1, EntriesOf(file, bias, rs1, m1), bias)
    ensures forall i: nat :: LastOf(file.phdrs, i, PT_DYNAMIC) ==> image.dynamicAddr == (file.phdrs[i].vaddr + bias) % TWO64
    ensures EntriesOf(file, bias, rs1, m1) == first + second
    ensures !HasType(file.phdrs, PT_DYNAMIC) || image.dynamicAddr == 0 ==> first + second == []
    ensures HasType(file.phdrs, PT_DYNAMIC) && image.dynamicAddr != 0 ==>
              var t, ent := image.dynamicAddr, LastValue(m1, image.dynamicAddr, n, DT_RELAENT, 0, 24);
              && HasEntries(rs1, m1, t, n)
              && Walked(rs1, LastValue(m1, t, n, DT_RELA, bias, 0), LastValue(m1, t, n, DT_RELASZ, 0, 0), ent, first)
              && Walked(rs1, LastValue(m1, t, n, DT_JMPREL, bias, 0), LastValue(m1, t, n, DT_PLTRELSZ, 0, 0), ent, second)
    ensures Settled(rs1, m1, m2, first + second, bias)
    ensures image.relocApplied == CountWrites(rs1, m1, first + second, bias)
    ensures image.relocApplied + image.relocSkipped == |first + second|
  {
    RecordInMemory(file, bias, rs1, m1, m2, image);
    PlacedSpan(file, bias, rs1, m1);
    RecordOf(file, bias, ImageLow(file, bias), ImageHigh(file, bias));
    hide Placed, ImageRecord, ImageEntries, NoOverlap, Settled, CountWrites, ImageLow, ImageHigh, ValidRegions, Mapped, ProtAt,
      Walked, HasEntries, LastValue, HasType, LastOf, TableAddr, UntilNul;
    RelocationSettles(rs1, Progress(m1, 0, 0), EntriesOf(file, bias, rs1, m1), bias);
    var record := ImageRecord(file, bias, ImageLow(file, bias), ImageHigh(file, bias)).value;
    n, first, second := EntriesAre(rs1, m1, record);
  }

  /** No relocation of the image writes to [a, a + n). */
  ghost predicate Unrelocated(file: ElfFile, bias: U64, rs1: seq<Region>, m1: Mem, a: int, n: nat) {
    && NoOverlap(rs1, m1, EntriesOf(file, bias, rs1, m1), bias)
    && forall e :: e in EntriesOf(file, bias, rs1, m1) && Writes(rs1, m1, e, bias) ==> Clear(a, n, Target(m1, e, bias), 8)
  }

  /** File bytes of a segment that no relocation writes are the file's own in the running process: what the
      translator will decode is what the file holds. */
  lemma CodeIsFileBytes(file: ElfFile, bias: U64, rs1: seq<Region>, m1: Mem, m2: Mem, m: Mem, image: GuestElfImage,
                        rs: seq<Region>, stack: GuestStackImage, ph: Phdr, at: nat, n: U64)
    requires GoodImage(file, bias) && WithinMemory(file) && SegmentsApart(file.phdrs, bias)
    requires ImageInMemory(file, bias, rs1, m1, m2, image)
    requires AddressSpace(file, bias, rs, stack) && SameOutside(m2, m, stack.low, stack.top)
    requires ph in file.phdrs && ph.ptype == PT_LOAD && ph.memsz != 0
    requires at + n <= ph.filesz && ph.offset + ph.filesz <= |file.bytes|
    requires Unrelocated(file, bias, rs1, m1, ph.vaddr + bias + at, n)
    ensures var a := ph.vaddr + bias + at;
            && a + n < TWO64 && IsMapped(rs, a, n)
            && ReadBytes(m, a, n) == file.bytes[ph.offset + at..ph.offset + at + n]
  {
    hide Relocated, ImageEntries, ImageRecord, GoodImage, NoOverlap, AddressSpace, Mapped, Writes, Target,
      Value, Word, Add, ImageLow, ImageHigh, GetByte, IsMapped, EntriesOf, Lies, SameOutside, Settled, Clear, ReadBytes,
      Placed, BytesMapped, ValidRegions, SegmentsApart, WithinMemory, Walked, HasEntries, LastValue, HasType, LastOf;
    var a := ph.vaddr + bias + at;
    SegmentInSpan(file, bias, ph);
    SpanIsMapped(file, bias, rs, stack);
    MappedWithin(rs, ImageLow(file, bias), ImageHigh(file, bias) - ImageLow(file, bias), a, n);
    var _, first, second := RelocationsAreSettled(file, bias, rs1, m1, m2, image);
    FilePartPlaced(file, bias, [], map[], rs1, m1, ph, at, n);
    UntouchedBytes(rs1, m1, m2, m, first + second, bias, a, n, stack);
    SameRead(m1, m, a, file.bytes[ph.offset + at..ph.offset + at + n]);
  }

  lemma SpanIsMapped(file: ElfFile, bias: U64, rs: seq<Region>, stack: GuestStackImage)
    requires AddressSpace(file, bias, rs, stack)
    ensures var low, high := ImageLow(file, bias), ImageHigh(file, bias);
            ValidRegions(rs) && (stack.top <= low || high <= stack.low) && (low <= high ==> BytesMapped(rs, low, high - low))
  {
    hide Mapped, ProtAt, ImageProt, ImageLow, ImageHigh, ValidRegions;
  }

  lemma SegmentInSpan(file: ElfFile, bias: U64, ph: Phdr)
    requires GoodImage(file, bias) && WithinMemory(file) && ph in file.phdrs && ph.ptype == PT_LOAD && ph.memsz != 0
    ensures ImageLow(file, bias) <= ph.vaddr + bias && ph.vaddr + bias + ph.memsz <= ImageHigh(file, bias)
    ensures ImageHigh(file, bias) + PAGE <= TWO64 && ph.filesz <= ph.memsz
  {
    hide ImageLow, ImageHigh;
    SpanHolds(file, bias);
  }

  lemma SameRead(m1: Mem, m: Mem, a: U64, src: seq<Byte>)
    requires Lies(m1, a, src) && forall b :: a <= b < a + |src| ==> GetByte(m, b) == GetByte(m1, b)
    ensures ReadBytes(m, a, |src|) == src
  {
  }

  lemma UntouchedBytes(rs: seq<Region>, m1: Mem, m2: Mem, m: Mem, es: seq<U64>, bias: U64, a: U64, n: nat, stack: GuestStackImage)
    requires Settled(rs, m1, m2, es, bias) && SameOutside(m2, m, stack.low, stack.top)
    requires forall e :: e in es && Writes(rs, m1, e, bias) ==> Clear(a, n, Target(m1, e, bias), 8)
    requires stack.top <= a || a + n <= stack.low
    ensures forall b :: a <= b < a + n ==> GetByte(m, b) == GetByte(m1, b)
  {
    hide Writes, Target, Value, Word;
  }

  /** Reading guest code for translation. */
  method ReadCode(p: GuestProcess, a: U64, n: U64) returns (r: Result<seq<Byte>>)
    requires p.memory != null
    ensures r == if IsMapped(p.memory.regions, a, n) then Success(ReadBytes(p.memory.bytes, a, n)) else Failure(NotMapped)
  {
    r := p.memory.Read(a, n);
  }
}
