/** Guest memory as an object: the region list, and the bytes of the guest's address space.
    What the host's mmap answers is a parameter; host pages are taken to be guest pages. */
module Memory {
  import opened Wrappers
  import opened Bits
  import opened Regions
  import opened ByteStore

  class GuestMemory {
    const hostOffset: U64
    const reservedLow: U64
    const reservedHigh: U64
    var regions: seq<Region>
    var bytes: Mem

    /** A reservation holds no regions yet. */
    constructor (hostOffset: U64, low: U64, high: U64)
      ensures this.hostOffset == hostOffset && reservedLow == low && reservedHigh == high
      ensures regions == [] && bytes == map[]
    {
      this.hostOffset, reservedLow, reservedHigh := hostOffset, low, high;
      regions, bytes := [], map[];
    }

    ghost predicate Valid()
      reads this`regions
    {
      ValidRegions(regions)
    }

    predicate IsIdentity() { hostOffset == 0 }

    /** Biased memory is bounded by its reservation. */
    predicate IsAddressable(a: U64, length: U64) {
      IsIdentity() || (a >= reservedLow && Add(a, length) >= a && Add(a, length) <= reservedHigh)
    }

    /** Reserves address space for an image. The host either grants the image's own addresses,
        or a window elsewhere, or neither. */
    static method Reserve(imageLow: U64, imageHigh: U64, fallbackSize: U64, identityGranted: bool, window: Option<U64>)
      returns (r: Result<GuestMemory>)
      ensures AlignUp(imageHigh) == AlignDown(imageLow) ==> r == Failure(NothingToMap)
      ensures AlignUp(imageHigh) != AlignDown(imageLow) ==> (r.Success? <==> identityGranted || window.Some?)
      ensures r.Success? ==> fresh(r.value) && r.value.regions == [] && r.value.bytes == map[]
      ensures r.Success? ==> r.value.reservedLow == AlignDown(imageLow)
      ensures r.Success? && identityGranted ==> r.value.IsIdentity() && r.value.reservedHigh == AlignUp(imageHigh)
      ensures r.Success? && !identityGranted ==>
                var low := AlignDown(imageLow);
                && r.value.hostOffset == Add(window.value, 0 - low)
                && r.value.reservedHigh == Add(low, WindowSize(Add(AlignUp(imageHigh), 0 - low), fallbackSize))
    {
      var low: int, high := AlignDown(imageLow), AlignUp(imageHigh);
      var size := Add(high, 0 - low);
      if size == 0 {
        return Failure(NothingToMap);
      }
      if identityGranted {
        var m := new GuestMemory(0, low, high);
        return Success(m);
      }
      match window
      case None => return Failure(HostRefused);
      case Some(w) =>
        var windowSize := AlignUp(fallbackSize);
        if windowSize < size {
          windowSize := AlignUp((size * 2) % TWO64);
        }
        var m := new GuestMemory(Add(w, 0 - low), low, Add(low, windowSize));
        return Success(m);
    }

    /** Commits zero-filled pages and records them. */
    method Map(guestAddr: U64, length: U64, prot: nat, name: string, granted: bool) returns (o: Outcome)
      modifies this
      ensures length == 0 ==> o.Pass?
      ensures length > 0 ==>
                var start, size := AlignDown(guestAddr), MapSize(guestAddr, length);
                && o == (if !IsAddressable(start, size) then Fail(NotAddressable)
                         else if !granted then Fail(HostRefused) else Pass)
                && (o.Pass? ==> regions == old(regions) + [Region(start, size, prot, name)]
                                && bytes == WriteBytes(old(bytes), start, Zeros(size)))
      ensures length == 0 || o.Fail? ==> regions == old(regions) && bytes == old(bytes)
    {
      if length == 0 {
        return Pass;
      }
      var start: int, end := AlignDown(guestAddr), AlignUp(Add(guestAddr, length));
      var size := Add(end, 0 - start);
      if !IsAddressable(start, size) {
        return Fail(NotAddressable);
      }
      if !granted {
        return Fail(HostRefused);
      }
      regions := regions + [Region(start, size, prot, name)];
      bytes := WriteBytes(bytes, start, Zeros(size));
      return Pass;
    }

    /** Changes the permissions of the pages that a range touches; throws when it touches no region. */
    method Protect(guestAddr: U64, length: U64, prot: nat, name: string) returns (o: Outcome)
      modifies this`regions
      ensures var start, end := AlignDown(guestAddr), AlignUp(Add(guestAddr, length));
              && o == (if length > 0 && !AnyTouched(old(regions), start, end) then Fail(NotMapped) else Pass)
              && regions == if length > 0 && o.Pass? then Protected(old(regions), start, end, prot, name) else old(regions)
    {
      if length == 0 {
        return Pass;
      }
      var start, end := AlignDown(guestAddr), AlignUp(Add(guestAddr, length));
      var rs, rebuilt, covered := regions, [], false;
      for k := 0 to |rs|
        invariant regions == rs
        invariant rebuilt == Rebuild(rs[..k], start, end, prot, name)
        invariant covered <==> AnyTouched(rs[..k], start, end)
      {
        hide AnyTouched, SortByStart, Rebuild, Pieces;
        RebuildStep(rs, k, start, end, prot, name);
        TouchedNext(rs, k, start, end);
        var touched;
        rebuilt, touched := CutRegion(rebuilt, rs[k], start, end, prot, name);
        covered := covered || touched;
      }
      assert rs[..|rs|] == rs;
      if !covered {
        return Fail(NotMapped);
      }
      regions := SortByStart(rebuilt);
      return Pass;
    }

    /** One region: kept whole outside the range, otherwise cut into at most three. */
    static method CutRegion(rebuilt: seq<Region>, r: Region, start: U64, end: U64, prot: nat, name: string)
      returns (out: seq<Region>, touched: bool)
      ensures out == rebuilt + Pieces(r, start, end, prot, name)
      ensures touched == Touches(r, start, end)
    {
      if r.End() <= start || end <= r.start {
        return rebuilt + [r], false;
      }
      out := rebuilt;
      if r.start < start {
        out := out + [Region(r.start, Add(start, 0 - r.start), r.prot, r.name)];
      }
      out := out + [Body(r, start, end, prot, name)];
      if end < r.End() {
        out := out + [Region(end, Add(r.End(), 0 - end), r.prot, r.name)];
      }
      touched := true;
    }

    method Find(a: U64) returns (r: Option<Region>)
      ensures r == FindRegion(regions, a)
    {
      for k := 0 to |regions|
        invariant FindRegion(regions, a) == FindRegion(regions[k..], a)
      {
        if regions[k].Holds(a) {
          return Some(regions[k]);
        }
        assert regions[k..][1..] == regions[k + 1..];
      }
      return None;
    }

    /** The walk over the pages from first to last, with the guard against wrap-around. */
    method WalkPages(first: U64, last: U64) returns (all: bool)
      requires first % PAGE == 0
      ensures all <==> PagesMapped(regions, first, last)
    {
      var page := first;
      while page <= last
        invariant page % PAGE == 0 && first <= page
        invariant forall p: U64 :: p % PAGE == 0 && first <= p < page ==> Mapped(regions, p)
        decreases TWO64 - page
      {
        var r := Find(page);
        if r.None? {
          assert page % PAGE == 0 && !Mapped(regions, page);
          return false;
        }
        NextPage(page);
        if Add(page, PAGE) < page {
          break;
        }
        page := Add(page, PAGE);
      }
      return true;
    }

    /** As the source has it, rounding the last byte up. */
    method IsMappedWritten(a: U64, length: U64) returns (b: bool)
      ensures b <==> IsMappedAsWritten(regions, a, length)
    {
      if length == 0 {
        return true;
      }
      b := WalkPages(AlignDown(a), AlignUp(Add(a, length - 1)));
    }

    /** As documented, and as everything below relies on it. */
    method CheckMapped(a: U64, length: U64) returns (b: bool)
      ensures b <==> IsMapped(regions, a, length)
    {
      if length == 0 {
        return true;
      }
      b := WalkPages(AlignDown(a), AlignDown(Add(a, length - 1)));
    }

    method Write(a: U64, src: seq<Byte>) returns (o: Outcome)
      requires |src| < TWO64
      modifies this`bytes
      ensures o == if IsMapped(regions, a, |src|) then Pass else Fail(NotMapped)
      ensures bytes == if o.Pass? then WriteBytes(old(bytes), a, src) else old(bytes)
    {
      if src == [] {
        return Pass;
      }
      var mapped := CheckMapped(a, |src|);
      if !mapped {
        return Fail(NotMapped);
      }
      bytes := WriteBytes(bytes, a, src);
      return Pass;
    }

    method Zero(a: U64, n: U64) returns (o: Outcome)
      modifies this`bytes
      ensures o == if IsMapped(regions, a, n) then Pass else Fail(NotMapped)
      ensures bytes == if o.Pass? then WriteBytes(old(bytes), a, Zeros(n)) else old(bytes)
    {
      o := Write(a, Zeros(n));
    }

    method Read(a: U64, n: U64) returns (r: Result<seq<Byte>>)
      ensures r == if IsMapped(regions, a, n) then Success(ReadBytes(bytes, a, n)) else Failure(NotMapped)
    {
      if n == 0 {
        return Success([]);
      }
      var mapped := CheckMapped(a, n);
      return if mapped then Success(ReadBytes(bytes, a, n)) else Failure(NotMapped);
    }

    /** The little-endian inverse of Read64. */
    method Write64(a: U64, v: U64) returns (o: Outcome)
      modifies this`bytes
      ensures o == if IsMapped(regions, a, 8) then Pass else Fail(NotMapped)
      ensures bytes == if o.Pass? then WriteBytes(old(bytes), a, LeBytes(v, 8)) else old(bytes)
    {
      o := Write(a, LeBytes(v, 8));
    }

    method Read64(a: U64) returns (r: Result<U64>)
      ensures r == if IsMapped(regions, a, 8) then Success(Word(bytes, a)) else Failure(NotMapped)
    {
      var mapped := CheckMapped(a, 8);
      return if mapped then Success(Word(bytes, a)) else Failure(NotMapped);
    }
  }

  /** The fallback window: the requested size, or twice the image when that is too small. */
  function WindowSize(size: U64, fallbackSize: U64): U64 {
    if AlignUp(fallbackSize) < size then AlignUp((size * 2) % TWO64) else AlignUp(fallbackSize)
  }

  /** The fallback window has room for the image, in whole pages, and is as large as asked for. */
  lemma WindowHolds(size: U64, fallbackSize: U64)
    requires size % PAGE == 0 && size * 2 < TWO64 && fallbackSize + PAGE <= TWO64
    ensures var window := WindowSize(size, fallbackSize);
            && size <= window && fallbackSize <= window && window % PAGE == 0
            && (fallbackSize >= size ==> window < fallbackSize + PAGE)
            && (fallbackSize + PAGE <= size ==> window == size * 2)
  {
    SumOfPages(size, size);
    hide Add;
    if fallbackSize < size { PageRoundsTo(size * 2); }
  }

  lemma PageRoundsTo(p: U64)
    requires p % PAGE == 0
    ensures AlignUp(p) == p
  {
    if p + PAGE <= TWO64 { PageAligned(p); }
  }

  /** The bytes that map commits for a range, in whole pages. */
  function MapSize(guestAddr: U64, length: U64): U64 {
    Add(AlignUp(Add(guestAddr, length)), 0 - AlignDown(guestAddr))
  }

  /** They reach from the page of the first byte to the end of the page of the last. */
  lemma MapSizeReaches(guestAddr: U64, length: U64)
    requires guestAddr + length + PAGE <= TWO64
    ensures AlignDown(guestAddr) + MapSize(guestAddr, length) == AlignUp(guestAddr + length)
  {
    AddPlain(guestAddr, length);
    AddPlain(AlignUp(guestAddr + length), 0 - AlignDown(guestAddr));
    hide Add;
  }

  lemma PageAligned(p: U64)
    requires p % PAGE == 0 && p + PAGE <= TWO64
    ensures AlignDown(p) == p && AlignUp(p) == p
  {
  }

  /** What map does for a page-aligned range over unmapped pages: the list stays valid, and exactly
      the range becomes mapped, with the permission asked for. */
  lemma MapCommits(rs: seq<Region>, r: Region)
    requires ValidRegions(rs) && r.Good() && r.start + r.length + PAGE <= TWO64
    requires forall b: U64 :: r.start <= b < r.start + r.length ==> !Mapped(rs, b)
    ensures AlignDown(r.start) == r.start && MapSize(r.start, r.length) == r.length
    ensures ValidRegions(rs + [r]) && BytesMapped(rs + [r], r.start, r.length)
    ensures forall b: U64 :: (Mapped(rs + [r], b) <==> Mapped(rs, b) || r.start <= b < r.start + r.length)
              && ProtAt(rs + [r], b) == if r.start <= b < r.start + r.length then r.prot else ProtAt(rs, b)
  {
    hide Mapped, ProtAt;
    AddPlain(r.start, r.length);
    SumOfPages(r.start, r.length);
    PageAligned(r.start + r.length);
    AddPlain(r.start + r.length, 0 - r.start);
    assert r.End() == r.start + r.length;
    MapExtends(rs, r);
  }

  ghost predicate AnyTouched(rs: seq<Region>, start: U64, end: U64) {
    exists r :: r in rs && Touches(r, start, end)
  }

  lemma TouchedNext(rs: seq<Region>, k: nat, start: U64, end: U64)
    requires k < |rs|
    ensures AnyTouched(rs[..k + 1], start, end) <==> AnyTouched(rs[..k], start, end) || Touches(rs[k], start, end)
  {
    assert rs[..k + 1] == rs[..k] + [rs[k]];
    if Touches(rs[k], start, end) { assert rs[k] in rs[..k + 1]; }
  }

  lemma RebuildStep(rs: seq<Region>, k: nat, start: U64, end: U64, prot: nat, name: string)
    requires k < |rs|
    ensures Rebuild(rs[..k + 1], start, end, prot, name) ==
            Rebuild(rs[..k], start, end, prot, name) + Pieces(rs[k], start, end, prot, name)
  {
    assert rs[..k + 1][..k] == rs[..k];
  }

  lemma NextPage(page: U64)
    requires page % PAGE == 0
    ensures Add(page, PAGE) % PAGE == 0
    ensures Add(page, PAGE) < page <==> page + PAGE == TWO64
    ensures forall p: U64 :: p % PAGE == 0 && page < p ==> page + PAGE <= p
  {
  }
}
