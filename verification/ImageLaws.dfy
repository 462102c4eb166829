/** What a mapped image is: the segments' bytes, zeros in between, and last-writer permissions. */
module ImageLaws {
  import opened Bits
  import opened Regions
  import opened ByteStore
  import opened Elf
  import opened StackLayout
  import opened Memory
  import opened Permissions
  import opened ImageMapper

  /** The bias is page-aligned and no segment wraps or reaches the last page of the address space. */
  predicate GoodImage(file: ElfFile, bias: U64) {
    && bias % PAGE == 0
    && forall ph :: ph in file.phdrs && ph.ptype == PT_LOAD ==> ph.vaddr + SegLength(ph) + bias + PAGE <= TWO64
  }

  /** As the ELF specification asks: file sizes within memory sizes. */
  predicate WithinMemory(file: ElfFile) {
    forall ph :: ph in file.phdrs && ph.ptype == PT_LOAD && ph.memsz != 0 ==> ph.filesz <= ph.memsz
  }

  lemma RoundedSpan(minAddr: U64, maxAddr: U64, bias: U64)
    requires bias % PAGE == 0 && minAddr <= maxAddr && maxAddr + bias + PAGE <= TWO64
    ensures var low, high := Add(AlignDown(minAddr), bias), Add(AlignUp(maxAddr), bias);
            && low % PAGE == 0 && high % PAGE == 0 && low <= minAddr + bias && maxAddr + bias <= high
            && high + PAGE <= TWO64
  {
    AddPlain(AlignDown(minAddr), bias);
    AddPlain(AlignUp(maxAddr), bias);
    SumOfPages(AlignDown(minAddr), bias);
    SumOfPages(AlignUp(maxAddr), bias);
    hide Add;
    RoomAbove(maxAddr, bias);
  }

  lemma RoomAbove(v: U64, bias: U64)
    requires bias % PAGE == 0 && v + bias + PAGE <= TWO64
    ensures AlignUp(v) + bias + PAGE <= TWO64
  {
    assert (TWO64 - bias - PAGE) % PAGE == 0;
    PageAbove(v, TWO64 - bias - PAGE);
  }

  lemma PageAbove(v: U64, p: int)
    requires p % PAGE == 0 && v <= p && v + PAGE <= TWO64
    ensures AlignUp(v) <= p
  {
  }

  /** The mapped span is a page range that holds every segment. */
  lemma SpanHolds(file: ElfFile, bias: U64)
    requires GoodImage(file, bias) && HasLoad(file.phdrs)
    ensures var low, high := ImageLow(file, bias), ImageHigh(file, bias);
            && low % PAGE == 0 && high % PAGE == 0 && low <= high && high + PAGE <= TWO64
            && Add(high, 0 - low) == high - low
            && forall ph :: ph in file.phdrs && ph.ptype == PT_LOAD ==>
                 GuestAddr(ph, bias) == ph.vaddr + bias && low <= GuestAddr(ph, bias) && GuestAddr(ph, bias) + ph.memsz <= high
  {
    hide Add;
    var phs := file.phdrs;
    SpanIsLeast(phs);
    forall ph | ph in phs && ph.ptype == PT_LOAD
      ensures GuestAddr(ph, bias) == ph.vaddr + bias && Add(ph.vaddr, ph.memsz) == ph.vaddr + ph.memsz
    {
      AddPlain(ph.vaddr, bias);
      AddPlain(ph.vaddr, ph.memsz);
    }
    var top :| top in phs && top.ptype == PT_LOAD && Add(top.vaddr, top.memsz) == MaxHigh(phs);
    RoundedSpan(MinLow(phs), MaxHigh(phs), bias);
    AddPlain(ImageHigh(file, bias), 0 - ImageLow(file, bias));
  }

  /** Right after map: the span is mapped read-write and zeroed, over whatever was there. */
  lemma SpanMapped(rs: seq<Region>, m: Mem, low: U64, high: U64)
    requires ValidRegions(rs) && low % PAGE == 0 && high % PAGE == 0 && low <= high && high + PAGE <= TWO64
    requires forall b: U64 :: low <= b < high ==> !Mapped(rs, b)
    ensures var out := rs + ImageRegions(low, high - low);
            && ValidRegions(out) && BytesMapped(out, low, high - low)
            && forall b: U64 :: (Mapped(out, b) <==> Mapped(rs, b) || low <= b < high)
                 && ProtAt(out, b) == if low <= b < high then PROT_READ + PROT_WRITE else ProtAt(rs, b)
  {
    hide Mapped, ProtAt, ValidRegions, Add;
    if low < high {
      var r := Region(low, high - low, PROT_READ + PROT_WRITE, "iamge");
      PageDifference(low, high);
      MapCommits(rs, r);
    } else {
      assert rs + [] == rs;
    }
  }

  lemma SpanZeroed(m: Mem, low: U64, high: U64)
    requires low % PAGE == 0 && high % PAGE == 0 && low <= high && high + PAGE <= TWO64
    ensures forall b :: GetByte(ZeroedBytes(m, low, high - low), b) == if low <= b < high then 0 else GetByte(m, b)
  {
    if low < high {
      AddPlain(low, high - low);
      AddPlain(high, 0 - low);
      PageAligned(low);
      PageAligned(high);
      hide Add, AlignDown, AlignUp, GetByte;
      assert MapSize(low, high - low) == high - low;
      assert ZeroedBytes(m, low, high - low) == WriteBytes(m, low, Zeros(high - low));
    }
  }

  /** Inside a mapped span, copying fails only on a segment that runs past the end of the file. */
  lemma {:induction false} CopySucceeds(rs: seq<Region>, m: Mem, bytes: seq<Byte>, phs: seq<Phdr>, bias: U64, low: U64, high: U64)
    requires ValidRegions(rs) && low <= high && BytesMapped(rs, low, high - low)
    requires forall ph :: ph in phs && ph.ptype == PT_LOAD && ph.memsz != 0 ==>
               low <= GuestAddr(ph, bias) && GuestAddr(ph, bias) + ph.memsz <= high && ph.filesz <= ph.memsz
    ensures CopyAll(rs, m, bytes, phs, bias).Success? <==>
            forall ph :: ph in phs && ph.ptype == PT_LOAD && ph.memsz != 0 && ph.filesz > 0 ==> ph.offset + ph.filesz <= |bytes|
  {
    if phs != [] {
      var init, last := phs[..|phs| - 1], phs[|phs| - 1];
      assert forall ph :: ph in phs <==> ph in init || ph == last;
      CopySucceeds(rs, m, bytes, init, bias, low, high);
      hide IsMapped, BytesMapped, ValidRegions, Add, WriteBytes, GetByte;
      if last.ptype == PT_LOAD && last.memsz != 0 {
        var g := GuestAddr(last, bias);
        MappedWithin(rs, low, high - low, g, last.filesz);
        AddPlain(g, last.filesz);
        MappedWithin(rs, low, high - low, g + last.filesz, last.memsz - last.filesz);
      }
    }
  }

  /** A segment's protect call always finds pages to change. */
  lemma {:induction false} ProtectSucceeds(rs: seq<Region>, qs: seq<Request>)
    requires ValidRegions(rs)
    requires forall q :: q in qs ==> q.length > 0 && q.addr + q.length + PAGE <= TWO64 && Mapped(rs, q.addr)
    ensures ProtectAll(rs, qs).Success?
  {
    if qs != [] {
      var init, last := qs[..|qs| - 1], qs[|qs| - 1];
      assert forall q :: q in qs <==> q in init || q == last;
      ProtectSucceeds(rs, init);
      LastWriterWins(rs, init);
      hide Mapped, ValidRegions, ProtAt;
      MappedIsTouched(ProtectAll(rs, init).value, last);
    }
  }

  lemma MappedIsTouched(rs: seq<Region>, q: Request)
    requires q.length > 0 && q.addr + q.length + PAGE <= TWO64 && Mapped(rs, q.addr)
    ensures AnyTouched(rs, q.Start(), q.End())
  {
    FindRegionFinds(rs, q.addr);
    AddPlain(q.addr, q.length);
    hide Add;
    var r :| r in rs && r.Holds(q.addr);
    assert Touches(r, q.Start(), q.End());
  }

  lemma {:induction false} RequestsAreSegments(phs: seq<Phdr>, bias: U64)
    ensures forall q :: q in SegmentRequests(phs, bias) ==> exists ph :: ph in phs && ph.ptype == PT_LOAD && ph.memsz != 0 && q == SegmentRequest(ph, bias)
  {
    if phs != [] {
      RequestsAreSegments(phs[..|phs| - 1], bias);
      assert forall ph :: ph in phs[..|phs| - 1] ==> ph in phs;
      hide SegmentRequest;
    }
  }

  /** What memory and regions are after a successful mapping, given what they were before. */
  ghost predicate Placed(file: ElfFile, bias: U64, rs0: seq<Region>, m0: Mem, rs: seq<Region>, m: Mem) {
    var low, high := ImageLow(file, bias), ImageHigh(file, bias);
    && ValidRegions(rs)
    && (forall a: U64 :: Mapped(rs, a) <==> Mapped(rs0, a) || low <= a < high)
    && (forall b :: GetByte(m, b) == ImageByte(file.bytes, file.phdrs, bias, b, if low <= b < high then 0 else GetByte(m0, b)))
    && (forall a: U64 :: ProtAt(rs, a) ==
          if low <= a < high then LastProt(SegmentRequests(file.phdrs, bias), a, PROT_READ + PROT_WRITE) else ProtAt(rs0, a))
  }

  /** Permission changes of the segments stay inside the span. */
  lemma {:induction false} RequestsInside(phs: seq<Phdr>, bias: U64, low: U64, high: U64, a: U64, p: nat)
    requires low % PAGE == 0 && high % PAGE == 0 && high + PAGE <= TWO64 && !(low <= a < high)
    requires forall ph :: ph in phs && ph.ptype == PT_LOAD && ph.memsz != 0 ==> low <= GuestAddr(ph, bias) && GuestAddr(ph, bias) + ph.memsz <= high
    ensures LastProt(SegmentRequests(phs, bias), a, p) == p
  {
    RequestsAreSegments(phs, bias);
    var qs := SegmentRequests(phs, bias);
    forall q | q in qs ensures !q.Pages(a) {
      var ph :| ph in phs && ph.ptype == PT_LOAD && ph.memsz != 0 && q == SegmentRequest(ph, bias);
      AddPlain(q.addr, q.length);
      hide Add;
      PagesInside(q.addr, q.addr + q.length, low, high);
    }
    LastProtNone(qs, a, p);
  }

  lemma PagesInside(a: U64, b: U64, low: U64, high: U64)
    requires low % PAGE == 0 && high % PAGE == 0 && high + PAGE <= TWO64 && low <= a && b <= high
    ensures low <= AlignDown(a) && AlignUp(b) <= high
  {
    PageOrder(low, a);
    PageAbove(b, high);
  }

  lemma PermissionsPlaced(phs: seq<Phdr>, bias: U64, low: U64, high: U64, rs0: seq<Region>, rs: seq<Region>)
    requires ValidRegions(rs) && low % PAGE == 0 && high % PAGE == 0 && low <= high && high + PAGE <= TWO64
    requires forall ph :: ph in phs && ph.ptype == PT_LOAD && ph.memsz != 0 ==> low <= GuestAddr(ph, bias) && GuestAddr(ph, bias) + ph.memsz <= high
    requires forall b: U64 :: (Mapped(rs, b) <==> Mapped(rs0, b) || low <= b < high)
               && ProtAt(rs, b) == if low <= b < high then PROT_READ + PROT_WRITE else ProtAt(rs0, b)
    requires ProtectAll(rs, SegmentRequests(phs, bias)).Success?
    ensures var out := ProtectAll(rs, SegmentRequests(phs, bias)).value;
            && ValidRegions(out)
            && forall a: U64 :: (Mapped(out, a) <==> Mapped(rs0, a) || low <= a < high)
                 && ProtAt(out, a) ==
                    if low <= a < high then LastProt(SegmentRequests(phs, bias), a, PROT_READ + PROT_WRITE) else ProtAt(rs0, a)
  {
    var qs := SegmentRequests(phs, bias);
    RequestsAreSegments(phs, bias);
    hide Mapped, ProtAt, ValidRegions, Add, ProtectAll, SegmentRequests, LastProt;
    LastWriterWins(rs, qs);
    var out := ProtectAll(rs, qs).value;
    forall a: U64 ensures ProtAt(out, a) == if low <= a < high then LastProt(qs, a, PROT_READ + PROT_WRITE) else ProtAt(rs0, a) {
      if !(low <= a < high) {
        RequestsInside(phs, bias, low, high, a, ProtAt(rs0, a));
        if !Mapped(rs0, a) { UnmappedHasNone(rs0, a); }
      }
    }
  }

  lemma RequestsSucceed(phs: seq<Phdr>, bias: U64, low: U64, high: U64, rs: seq<Region>)
    requires ValidRegions(rs) && low <= high && high + PAGE <= TWO64 && BytesMapped(rs, low, high - low)
    requires forall ph :: ph in phs && ph.ptype == PT_LOAD && ph.memsz != 0 ==> low <= GuestAddr(ph, bias) && GuestAddr(ph, bias) + ph.memsz <= high
    ensures ProtectAll(rs, SegmentRequests(phs, bias)).Success?
  {
    RequestsAreSegments(phs, bias);
    hide Mapped, ValidRegions, Add, ProtectAll, SegmentRequests;
    ProtectSucceeds(rs, SegmentRequests(phs, bias));
  }

  lemma CopyPasses(file: ElfFile, bias: U64, rs: seq<Region>, m: Mem)
    requires GoodImage(file, bias) && HasLoad(file.phdrs) && WithinMemory(file) && ValidRegions(rs)
    requires var low, high := ImageLow(file, bias), ImageHigh(file, bias); low <= high && BytesMapped(rs, low, high - low)
    ensures CopyAll(rs, m, file.bytes, file.phdrs, bias).Success? <==>
            forall ph :: ph in file.phdrs && ph.ptype == PT_LOAD && ph.memsz != 0 && ph.filesz > 0 ==> ph.offset + ph.filesz <= |file.bytes|
  {
    SpanHolds(file, bias);
    hide GoodImage, CopyAll, ImageLow, ImageHigh, GuestAddr;
    CopySucceeds(rs, m, file.bytes, file.phdrs, bias, ImageLow(file, bias), ImageHigh(file, bias));
  }

  lemma BytesPlaced(file: ElfFile, bias: U64, rs: seq<Region>, m: Mem, rs0: seq<Region>, m0: Mem)
    requires GoodImage(file, bias) && CopyAll(rs, m, file.bytes, file.phdrs, bias).Success?
    requires forall b :: GetByte(m, b) == if ImageLow(file, bias) <= b < ImageHigh(file, bias) then 0 else GetByte(m0, b)
    requires ProtectAll(rs, SegmentRequests(file.phdrs, bias)).Success?
    requires var out, low, high := ProtectAll(rs, SegmentRequests(file.phdrs, bias)).value, ImageLow(file, bias), ImageHigh(file, bias);
             && ValidRegions(out)
             && forall a: U64 :: (Mapped(out, a) <==> Mapped(rs0, a) || low <= a < high)
                  && ProtAt(out, a) ==
                     if low <= a < high then LastProt(SegmentRequests(file.phdrs, bias), a, PROT_READ + PROT_WRITE) else ProtAt(rs0, a)
    ensures Placed(file, bias, rs0, m0, ProtectAll(rs, SegmentRequests(file.phdrs, bias)).value,
                   CopyAll(rs, m, file.bytes, file.phdrs, bias).value)
  {
    hide CopyAll, ProtectAll, ImageByte, GetByte, Mapped, ProtAt, ValidRegions, LastProt, SegmentRequests, ImageLow, ImageHigh;
    CopyAllMeans(rs, m, file.bytes, file.phdrs, bias);
  }

  /** The image is placed: given room for its span, mapping succeeds exactly when no segment runs past
      the end of the file, and then memory holds the segments over zeros. */
  lemma ImageIsPlaced(file: ElfFile, bias: U64, rs0: seq<Region>, m0: Mem)
    requires GoodImage(file, bias) && HasLoad(file.phdrs) && ValidRegions(rs0)
    requires forall b: U64 :: ImageLow(file, bias) <= b < ImageHigh(file, bias) ==> !Mapped(rs0, b)
    ensures var low, length := ImageLow(file, bias), Add(ImageHigh(file, bias), 0 - ImageLow(file, bias));
            var rs, m := rs0 + ImageRegions(low, length), ZeroedBytes(m0, low, length);
            var copied, protected := CopyAll(rs, m, file.bytes, file.phdrs, bias), ProtectAll(rs, SegmentRequests(file.phdrs, bias));
            && protected.Success?
            && (WithinMemory(file) ==>
                  (copied.Success? <==> forall ph :: ph in file.phdrs && ph.ptype == PT_LOAD && ph.memsz != 0 && ph.filesz > 0 ==> ph.offset + ph.filesz <= |file.bytes|))
            && (copied.Success? ==> Placed(file, bias, rs0, m0, protected.value, copied.value))
  {
    var low, high := ImageLow(file, bias), ImageHigh(file, bias);
    SpanHolds(file, bias);
    hide GoodImage, Mapped, ProtAt, ValidRegions, BytesMapped, Add, CopyAll, ProtectAll, GetByte, ImageLow, ImageHigh, ImageRegions,
      ZeroedBytes, SegmentRequests, LastProt, ImageByte, WithinMemory, GuestAddr, Placed;
    SpanMapped(rs0, m0, low, high);
    SpanZeroed(m0, low, high);
    var rs, m := rs0 + ImageRegions(low, high - low), ZeroedBytes(m0, low, high - low);
    if WithinMemory(file) { CopyPasses(file, bias, rs, m); }
    RequestsSucceed(file.phdrs, bias, low, high, rs);
    PermissionsPlaced(file.phdrs, bias, low, high, rs0, rs);
    if CopyAll(rs, m, file.bytes, file.phdrs, bias).Success? { BytesPlaced(file, bias, rs, m, rs0, m0); }
  }

  /** A segment's pages are those of its protect call. */
  lemma PagesOfSegment(ph: Phdr, bias: U64, a: U64)
    ensures SegmentRequest(ph, bias).Pages(a) <==> OnPages(ph, bias, a)
    ensures SegmentRequest(ph, bias).prot == ProtFromPhdrFlags(ph.flags)
  {
  }

  /** The permission of an address right after mapping, by header position: the last loadable segment
      whose pages hold the address decides. */
  lemma {:induction false} LastSegmentDecides(phs: seq<Phdr>, bias: U64, a: U64, p: nat, i: nat)
    requires i < |phs| && phs[i].ptype == PT_LOAD && OnPages(phs[i], bias, a)
    requires forall j :: i < j < |phs| && phs[j].ptype == PT_LOAD ==> !OnPages(phs[j], bias, a)
    ensures LastProt(SegmentRequests(phs, bias), a, p) == ProtFromPhdrFlags(phs[i].flags)
  {
    var init, last := phs[..|phs| - 1], phs[|phs| - 1];
    var rest := SegmentRequests(init, bias);
    PagesOfSegment(last, bias, a);
    hide Request.Pages, SegmentRequest;
    if last.ptype == PT_LOAD && last.memsz != 0 { assert (rest + [SegmentRequest(last, bias)])[..|rest|] == rest; }
    if i < |init| {
      LastSegmentDecides(init, bias, a, p, i);
    }
  }

  lemma {:induction false} NoSegmentDecides(phs: seq<Phdr>, bias: U64, a: U64, p: nat)
    requires forall ph :: ph in phs && ph.ptype == PT_LOAD ==> !OnPages(ph, bias, a)
    ensures LastProt(SegmentRequests(phs, bias), a, p) == p
  {
    RequestsAreSegments(phs, bias);
    forall ph | ph in phs && ph.ptype == PT_LOAD ensures !SegmentRequest(ph, bias).Pages(a) { PagesOfSegment(ph, bias, a); }
    LastProtNone(SegmentRequests(phs, bias), a, p);
  }

  /** What a segment holds at an address that no later segment covers: its file byte, or zero behind its file part. */
  lemma SegmentShows(file: ElfFile, bias: U64, rs0: seq<Region>, m0: Mem, rs: seq<Region>, m: Mem, i: nat, k: nat)
    requires Placed(file, bias, rs0, m0, rs, m) && i < |file.phdrs|
    requires var ph := file.phdrs[i]; ph.ptype == PT_LOAD && ph.memsz != 0 && (k < ph.filesz || k < ph.memsz)
    requires forall j :: i < j < |file.phdrs| ==> !Covers(file.phdrs[j], bias, file.phdrs[i].vaddr + bias + k)
    ensures var ph := file.phdrs[i];
            GetByte(m, ph.vaddr + bias + k) == if k < ph.filesz && ph.offset + k < |file.bytes| then file.bytes[ph.offset + k] else 0
  {
    hide Mapped, ProtAt, ValidRegions, LastProt, SegmentRequests, ImageLow, ImageHigh, ImageByte, GetByte;
    var b := file.phdrs[i].vaddr + bias + k;
    CoveredByte(file.bytes, file.phdrs, bias, b, if ImageLow(file, bias) <= b < ImageHigh(file, bias) then 0 else GetByte(m0, b), i);
  }

  /** With disjoint segments every file byte lies at its segment's address, everything behind a segment's
      file part is zero, and so are all other bytes of the span; outside it memory is as it was. */
  lemma SegmentsLie(file: ElfFile, bias: U64, rs0: seq<Region>, m0: Mem, rs: seq<Region>, m: Mem)
    requires SegmentsApart(file.phdrs, bias) && Placed(file, bias, rs0, m0, rs, m)
    ensures forall ph, b :: ph in file.phdrs && ph.ptype == PT_LOAD && ph.memsz != 0 && 0 <= b - (ph.vaddr + bias) < ph.filesz ==>
              var at := ph.offset + (b - (ph.vaddr + bias)); at < |file.bytes| ==> GetByte(m, b) == file.bytes[at]
    ensures forall ph, b :: ph in file.phdrs && ph.ptype == PT_LOAD && ph.filesz <= b - (ph.vaddr + bias) < ph.memsz ==> GetByte(m, b) == 0
    ensures forall b :: (forall ph :: ph in file.phdrs ==> !Covers(ph, bias, b)) ==>
              GetByte(m, b) == if ImageLow(file, bias) <= b < ImageHigh(file, bias) then 0 else GetByte(m0, b)
  {
    hide ImageLow, ImageHigh, GetByte, Placed;
    var phs := file.phdrs;
    forall ph, b | ph in phs && Covers(ph, bias, b)
      ensures GetByte(m, b) == var k := b - (ph.vaddr + bias);
                               if k < ph.filesz && ph.offset + k < |file.bytes| then file.bytes[ph.offset + k] else 0
    {
      var i :| 0 <= i < |phs| && phs[i] == ph;
      SegmentShows(file, bias, rs0, m0, rs, m, i, b - (ph.vaddr + bias));
    }
    forall b | forall ph :: ph in phs ==> !Covers(ph, bias, b)
      ensures GetByte(m, b) == if ImageLow(file, bias) <= b < ImageHigh(file, bias) then 0 else GetByte(m0, b)
    {
      OthersZero(file, bias, rs0, m0, rs, m, b);
    }
  }

  lemma OthersZero(file: ElfFile, bias: U64, rs0: seq<Region>, m0: Mem, rs: seq<Region>, m: Mem, b: int)
    requires Placed(file, bias, rs0, m0, rs, m) && forall ph :: ph in file.phdrs ==> !Covers(ph, bias, b)
    ensures GetByte(m, b) == if ImageLow(file, bias) <= b < ImageHigh(file, bias) then 0 else GetByte(m0, b)
  {
    hide Mapped, ProtAt, ValidRegions, LastProt, SegmentRequests, ImageLow, ImageHigh, ImageByte, GetByte;
    UncoveredByte(file.bytes, file.phdrs, bias, b, if ImageLow(file, bias) <= b < ImageHigh(file, bias) then 0 else GetByte(m0, b));
  }

  /** Any stretch of a segment's file part lies in memory as it lies in the file. */
  lemma FilePartPlaced(file: ElfFile, bias: U64, rs0: seq<Region>, m0: Mem, rs: seq<Region>, m: Mem, ph: Phdr, at: nat, n: nat)
    requires SegmentsApart(file.phdrs, bias) && Placed(file, bias, rs0, m0, rs, m)
    requires ph in file.phdrs && ph.ptype == PT_LOAD && ph.memsz != 0 && at + n <= ph.filesz && ph.offset + ph.filesz <= |file.bytes|
    ensures Lies(m, ph.vaddr + bias + at, file.bytes[ph.offset + at..ph.offset + at + n])
  {
    hide Placed, SegmentsApart, GetByte, ImageLow, ImageHigh, Covers;
    SegmentsLie(file, bias, rs0, m0, rs, m);
    var a, src := ph.vaddr + bias + at, file.bytes[ph.offset + at..ph.offset + at + n];
    forall b | a <= b < a + |src| ensures GetByte(m, b) == src[b - a] {
      assert src[b - a] == file.bytes[ph.offset + (b - (ph.vaddr + bias))];
    }
  }

  /** The program header table is where AT_PHDR will point, when the first segment whose file range holds
      its start holds all of it. */
  lemma TableIsPlaced(file: ElfFile, bias: U64, rs0: seq<Region>, m0: Mem, rs: seq<Region>, m: Mem, i: nat, n: nat)
    requires GoodImage(file, bias) && SegmentsApart(file.phdrs, bias)
    requires Placed(file, bias, rs0, m0, rs, m) && i < |file.phdrs|
    requires var ph := file.phdrs[i]; ph.ptype == PT_LOAD && ph.memsz != 0 && ph.offset + ph.filesz <= |file.bytes|
    requires var ph := file.phdrs[i]; ph.offset <= file.phoff < Add(ph.offset, ph.filesz)
    requires forall ph :: ph in file.phdrs[..i] && ph.ptype == PT_LOAD ==> !(ph.offset <= file.phoff < Add(ph.offset, ph.filesz))
    requires file.phoff + n <= file.phdrs[i].offset + file.phdrs[i].filesz
    ensures Lies(m, TableAddr(file.phdrs, file.phoff, bias), file.bytes[file.phoff..file.phoff + n])
  {
    var ph := file.phdrs[i];
    hide Placed, GoodImage, SegmentsApart, TableAddr, Lies;
    FirstSegmentDecides(file.phdrs, file.phoff, bias, i);
    TableInside(ph, file.phoff);
    assert ph in file.phdrs;
    SegmentPlain(file, bias, ph, file.phoff - ph.offset);
    FilePartPlaced(file, bias, rs0, m0, rs, m, ph, file.phoff - ph.offset, n);
  }

  lemma TableInside(ph: Phdr, phoff: U64)
    requires ph.offset <= phoff < Add(ph.offset, ph.filesz)
    ensures phoff - ph.offset < ph.filesz
  {
  }

  /** No address of a good image's file part wraps. */
  lemma SegmentPlain(file: ElfFile, bias: U64, ph: Phdr, k: nat)
    requires GoodImage(file, bias) && ph in file.phdrs && ph.ptype == PT_LOAD && k < ph.filesz
    ensures (ph.vaddr + bias + k) % TWO64 == ph.vaddr + bias + k
  {
  }
}
