/** Applying an image's relocations: the dynamic table, the two relocation tables, and what they leave in memory. */
module Relocation {
  import opened Bits
  import opened Regions
  import opened ByteStore
  import opened Elf
  import opened Memory

  // ----- the dynamic table -----

  /** What the dynamic table says about the relocation tables. */
  datatype DynInfo = DynInfo(rela: U64, relaSize: U64, relaEnt: U64, jmpRel: U64, pltRelSize: U64)

  const NO_TABLES := DynInfo(0, 0, RELA_SIZE, 0, 0)

  /** How far the scan can still go; the last page is never mapped, so it ends there at the latest. */
  function ScanRoom(addr: U64): nat {
    if addr > TWO64 - DYN_SIZE then TWO64 + 1 else TWO64 - addr
  }

  lemma ScanAdvances(rs: seq<Region>, addr: U64)
    requires ValidRegions(rs) && IsMapped(rs, addr, DYN_SIZE)
    ensures ScanRoom(Add(addr, DYN_SIZE)) < ScanRoom(addr)
  {
    if addr <= TWO64 - DYN_SIZE {
      IsMappedMeansBytes(rs, addr, DYN_SIZE);
      assert Mapped(rs, addr);
      TopUnmapped(rs, addr);
    }
  }

  lemma TopUnmapped(rs: seq<Region>, a: U64)
    requires ValidRegions(rs) && Mapped(rs, a)
    ensures a < TWO64 - PAGE
  {
    FindRegionFinds(rs, a);
    var r :| r in rs && r.Holds(a);
    HoldsWholePages(r, a);
    hide Add, Mapped;
    assert r.End() <= TWO64 - PAGE by { PageBelowTop(r.End()); }
  }

  lemma PageBelowTop(p: U64)
    requires p % PAGE == 0
    ensures p <= TWO64 - PAGE
  {
  }

  /** The tag and the value of the k-th entry of a table. */
  function TagAt(m: Mem, table: U64, k: nat): U64 { Word(m, Add(table, 16 * k)) }

  function ValueAt(m: Mem, table: U64, k: nat): U64 { Word(m, Add(table, 16 * k + 8)) }

  /** The k-th entry is mapped and does not end the table. */
  ghost predicate IsEntry(rs: seq<Region>, m: Mem, table: U64, k: nat) {
    IsMapped(rs, Add(table, 16 * k), 16) && TagAt(m, table, k) != DT_NULL
  }

  ghost predicate ReachesEntry(rs: seq<Region>, m: Mem, table: U64, n: nat) {
    forall k :: 0 <= k < n ==> IsEntry(rs, m, table, k)
  }

  /** The table has n entries in front of the first that is DT_NULL or not mapped. */
  ghost predicate HasEntries(rs: seq<Region>, m: Mem, table: U64, n: nat) {
    ReachesEntry(rs, m, table, n) && !IsEntry(rs, m, table, n)
  }

  lemma {:induction false} TableEnds(rs: seq<Region>, m: Mem, table: U64, k: nat) returns (n: nat)
    requires ValidRegions(rs) && ReachesEntry(rs, m, table, k)
    ensures HasEntries(rs, m, table, n)
    decreases ScanRoom(Add(table, 16 * k))
  {
    n := k;
    if IsEntry(rs, m, table, k) {
      ScanAdvances(rs, Add(table, 16 * k));
      AddTwice(table, 16 * k, 16);
      n := TableEnds(rs, m, table, k + 1);
    }
  }

  /** Every table ends, at the latest with mapped memory. */
  ghost function TableLength(rs: seq<Region>, m: Mem, table: U64): (n: nat)
    requires ValidRegions(rs)
    ensures HasEntries(rs, m, table, n)
  {
    assert exists n: nat :: HasEntries(rs, m, table, n) by { var n := TableEnds(rs, m, table, 0); }
    var n: nat :| HasEntries(rs, m, table, n);
    n
  }

  /** The biased value of the last of the first n entries that has the tag, or a default when none has. */
  function LastValue(m: Mem, table: U64, n: nat, tag: U64, bias: U64, absent: U64): U64 {
    if n == 0 then absent
    else if TagAt(m, table, n - 1) == tag then Add(ValueAt(m, table, n - 1), bias)
    else LastValue(m, table, n - 1, tag, bias, absent)
  }

  /** By position: k is the last of the entries with the tag, or -1 when there is none. */
  lemma {:induction false} LastEntryDecides(m: Mem, table: U64, n: nat, k: int, tag: U64, bias: U64, absent: U64)
    requires -1 <= k < n && (k >= 0 ==> Word(m, Add(table, 16 * k)) == tag)
    requires forall j: nat :: k < j < n ==> TagAt(m, table, j) != tag
    ensures LastValue(m, table, n, tag, bias, absent) == if k < 0 then absent else (Word(m, Add(table, 16 * k + 8)) + bias) % TWO64
  {
    hide Word;
    if k < n - 1 { LastEntryDecides(m, table, n - 1, k, tag, bias, absent); }
  }

  /** What the first n entries say: addresses are biased, sizes are not, and an entry takes 24 bytes unless
      the table says otherwise. */
  function Described(m: Mem, table: U64, n: nat, bias: U64): DynInfo {
    DynInfo(LastValue(m, table, n, DT_RELA, bias, 0), LastValue(m, table, n, DT_RELASZ, 0, 0),
            LastValue(m, table, n, DT_RELAENT, 0, 24),
            LastValue(m, table, n, DT_JMPREL, bias, 0), LastValue(m, table, n, DT_PLTRELSZ, 0, 0))
  }

  lemma DescribedNext(m: Mem, table: U64, n: nat, bias: U64)
    ensures var info, tag, value := Described(m, table, n, bias), TagAt(m, table, n), ValueAt(m, table, n);
            Described(m, table, n + 1, bias) ==
              DynInfo(if tag == DT_RELA then Add(value, bias) else info.rela, if tag == DT_RELASZ then value else info.relaSize,
                      if tag == DT_RELAENT then value else info.relaEnt, if tag == DT_JMPREL then Add(value, bias) else info.jmpRel,
                      if tag == DT_PLTRELSZ then value else info.pltRelSize)
  {
    hide Word;
  }

  /** The unbounded scan finds what the words of the table say. */
  method ScanTable(mem: GuestMemory, dynamicAddr: U64, bias: U64) returns (info: DynInfo)
    requires mem.Valid()
    ensures info == Described(mem.bytes, dynamicAddr, TableLength(mem.regions, mem.bytes, dynamicAddr), bias)
  {
    info := NO_TABLES;
    var addr := dynamicAddr;
    AddPlain(dynamicAddr, 0);
    ghost var n := 0;
    while true
      invariant addr == Add(dynamicAddr, 16 * n) && info == Described(mem.bytes, dynamicAddr, n, bias)
      invariant ReachesEntry(mem.regions, mem.bytes, dynamicAddr, n)
      decreases ScanRoom(addr)
    {
      hide IsMapped, Word, Add, ValidRegions, ScanRoom, LastValue, Described, TagAt, ValueAt, IsEntry, ReachesEntry;
      EntryWords(mem.regions, mem.bytes, dynamicAddr, n);
      var mapped := mem.CheckMapped(addr, DYN_SIZE);
      if !mapped {
        break;
      }
      ScanAdvances(mem.regions, addr);
      DescribedNext(mem.bytes, dynamicAddr, n, bias);
      var tag, value := Word(mem.bytes, addr), Word(mem.bytes, Add(addr, 8));
      if tag == DT_NULL {
        break;
      }
      if tag == DT_RELA {
        info := info.(rela := Add(value, bias));
      } else if tag == DT_JMPREL {
        info := info.(jmpRel := Add(value, bias));
      } else if tag == DT_RELASZ {
        info := info.(relaSize := value);
      } else if tag == DT_RELAENT {
        info := info.(relaEnt := value);
      } else if tag == DT_PLTRELSZ {
        info := info.(pltRelSize := value);
      }
      addr, n := Add(addr, DYN_SIZE), n + 1;
    }
    OneLength(mem.regions, mem.bytes, dynamicAddr, n, TableLength(mem.regions, mem.bytes, dynamicAddr));
  }

  lemma EntryWords(rs: seq<Region>, m: Mem, table: U64, n: nat)
    ensures var addr := Add(table, 16 * n);
            && TagAt(m, table, n) == Word(m, addr) && ValueAt(m, table, n) == Word(m, Add(addr, 8))
            && (IsEntry(rs, m, table, n) <==> IsMapped(rs, addr, DYN_SIZE) && Word(m, addr) != DT_NULL)
            && Add(table, 16 * (n + 1)) == Add(addr, DYN_SIZE)
            && (ReachesEntry(rs, m, table, n + 1) <==> ReachesEntry(rs, m, table, n) && IsEntry(rs, m, table, n))
  {
    AddTwice(table, 16 * n, 8);
    AddTwice(table, 16 * n, DYN_SIZE);
  }

  lemma AddTwice(a: U64, b: int, c: int)
    ensures Add(Add(a, b), c) == Add(a, b + c)
  {
    SumTwice(a + b, c);
  }

  lemma OneLength(rs: seq<Region>, m: Mem, table: U64, n1: nat, n2: nat)
    requires HasEntries(rs, m, table, n1) && HasEntries(rs, m, table, n2)
    ensures n1 == n2
  {
    hide IsEntry;
  }

  // ----- one relocation -----

  datatype Rela = Rela(offset: U64, info: U64, addend: U64) {
    function Type(): nat { info % 0x1_0000_0000 }
  }

  function ReadRela(m: Mem, e: U64): Rela {
    Rela(Word(m, e), Word(m, Add(e, 8)), Word(m, Add(e, 16)))
  }

  /** Memory and the two counters while relocations are applied. */
  datatype Progress = Progress(mem: Mem, applied: nat, skipped: nat)

  /** Where the entry at e writes, and what: its first and its third word, biased. */
  function Target(m: Mem, e: U64, bias: U64): U64 { Add(Word(m, e), bias) }

  function Value(m: Mem, e: U64, bias: U64): U64 { Add(bias, Word(m, Add(e, 16))) }

  /** Whether an entry asks for a write that can be made: the low half of its second word is the type. */
  ghost predicate Writes(rs: seq<Region>, m: Mem, e: U64, bias: U64) {
    Word(m, Add(e, 8)) % 0x1_0000_0000 == R_X86_64_RELATIVE && IsMapped(rs, Target(m, e, bias), 8)
  }

  ghost function ApplyEntry(rs: seq<Region>, st: Progress, e: U64, bias: U64): Progress {
    if Writes(rs, st.mem, e, bias) then
      Progress(WriteBytes(st.mem, Target(st.mem, e, bias), LeBytes(Value(st.mem, e, bias), 8)), st.applied + 1, st.skipped)
    else st.(skipped := st.skipped + 1)
  }

  ghost function ApplyAll(rs: seq<Region>, st: Progress, es: seq<U64>, bias: U64): Progress {
    if es == [] then st else ApplyEntry(rs, ApplyAll(rs, st, es[..|es| - 1], bias), es[|es| - 1], bias)
  }

  // ----- a table -----

  /** The addresses of the entries walked from the i-th on: those before the first that is not mapped. */
  ghost function EntriesFrom(rs: seq<Region>, table: U64, ent: U64, i: nat, count: nat): (es: seq<U64>)
    ensures |es| <= if i < count then count - i else 0
    ensures forall k :: 0 <= k < |es| ==> es[k] == Add(table, (i + k) * ent) && IsMapped(rs, es[k], RELA_SIZE)
    ensures i + |es| < count ==> !IsMapped(rs, Add(table, (i + |es|) * ent), RELA_SIZE)
    decreases if i < count then count - i else 0
  {
    if i >= count || !IsMapped(rs, Add(table, i * ent), RELA_SIZE) then []
    else [Add(table, i * ent)] + EntriesFrom(rs, table, ent, i + 1, count)
  }

  ghost function Entries(rs: seq<Region>, table: U64, size: U64, ent: U64): seq<U64> {
    if table == 0 || size == 0 || ent == 0 then [] else EntriesFrom(rs, table, ent, 0, size / ent)
  }

  /** All entries of both tables, in the order they are applied. */
  ghost function AllEntries(rs: seq<Region>, info: DynInfo): seq<U64> {
    Entries(rs, info.rela, info.relaSize, info.relaEnt) + Entries(rs, info.jmpRel, info.pltRelSize, info.relaEnt)
  }

  /** es are the entries of a table that are walked: size / ent of them, or those in front of the first
      that is not mapped. */
  ghost predicate Walked(rs: seq<Region>, table: U64, size: U64, ent: U64, es: seq<U64>) {
    if table == 0 || size == 0 || ent == 0 then es == []
    else
      && |es| <= size / ent
      && (forall k :: 0 <= k < |es| ==> es[k] == Add(table, k * ent) && IsMapped(rs, es[k], 24))
      && (|es| < size / ent ==> !IsMapped(rs, Add(table, |es| * ent), 24))
  }

  lemma EntriesAreWalked(rs: seq<Region>, table: U64, size: U64, ent: U64)
    ensures Walked(rs, table, size, ent, Entries(rs, table, size, ent))
  {
    hide IsMapped, Add;
  }

  lemma {:induction false} ApplyAllJoin(rs: seq<Region>, st: Progress, es: seq<U64>, es2: seq<U64>, bias: U64)
    ensures ApplyAll(rs, st, es + es2, bias) == ApplyAll(rs, ApplyAll(rs, st, es, bias), es2, bias)
  {
    hide ApplyEntry;
    if es2 == [] {
      assert es + es2 == es;
    } else {
      ApplyAllJoin(rs, st, es, es2[..|es2| - 1], bias);
      assert (es + es2)[..|es + es2| - 1] == es + es2[..|es2| - 1];
    }
  }

  lemma ApplyNone(rs: seq<Region>, st: Progress, bias: U64)
    ensures ApplyAll(rs, st, [], bias) == st
  {
  }

  lemma ApplyFirst(rs: seq<Region>, st: Progress, e: U64, es: seq<U64>, bias: U64)
    ensures ApplyAll(rs, st, [e] + es, bias) == ApplyAll(rs, ApplyEntry(rs, st, e, bias), es, bias)
  {
    ApplyAllJoin(rs, st, [e], es, bias);
    ApplyAllNext(rs, st, [], e, bias);
    assert [] + [e] == [e];
  }

  lemma ApplyAllNext(rs: seq<Region>, st: Progress, es: seq<U64>, e: U64, bias: U64)
    ensures ApplyAll(rs, st, es + [e], bias) == ApplyEntry(rs, ApplyAll(rs, st, es, bias), e, bias)
  {
    assert (es + [e])[..|es|] == es;
  }

  /** Applies one entry. */
  method ProcessEntry(mem: GuestMemory, e: U64, bias: U64) returns (wrote: bool)
    modifies mem`bytes
    ensures wrote == Writes(mem.regions, old(mem.bytes), e, bias)
    ensures mem.bytes == if wrote then WriteBytes(old(mem.bytes), Target(old(mem.bytes), e, bias), LeBytes(Value(old(mem.bytes), e, bias), 8))
                         else old(mem.bytes)
  {
    hide IsMapped, Word, WriteBytes, LeBytes, Add;
    var rela := ReadRela(mem.bytes, e);
    if rela.Type() == R_X86_64_RELATIVE {
      var target := Add(rela.offset, bias);
      var mapped := mem.CheckMapped(target, 8);
      if mapped {
        var _ := mem.Write64(target, Add(bias, rela.addend));
        return true;
      }
    }
    return false;
  }

  /** Walks one table and counts what was written and what was left. */
  method ProcessTable(mem: GuestMemory, table: U64, size: U64, ent: U64, bias: U64, applied0: nat, skipped0: nat)
    returns (applied: nat, skipped: nat)
    modifies mem`bytes
    ensures Progress(mem.bytes, applied, skipped) ==
            ApplyAll(mem.regions, Progress(old(mem.bytes), applied0, skipped0), Entries(mem.regions, table, size, ent), bias)
  {
    applied, skipped := applied0, skipped0;
    if table == 0 || size == 0 || ent == 0 {
      return;
    }
    ghost var goal := ApplyAll(mem.regions, Progress(mem.bytes, applied, skipped), Entries(mem.regions, table, size, ent), bias);
    var count := size / ent;
    for i := 0 to count
      invariant ApplyAll(mem.regions, Progress(mem.bytes, applied, skipped), EntriesFrom(mem.regions, table, ent, i, count), bias) == goal
    {
      hide IsMapped, Writes, Target, Value, WriteBytes, Add, ApplyAll;
      var entry := Add(table, i * ent);
      var mapped := mem.CheckMapped(entry, RELA_SIZE);
      if !mapped {
        ApplyNone(mem.regions, Progress(mem.bytes, applied, skipped), bias);
        return;
      }
      ApplyFirst(mem.regions, Progress(mem.bytes, applied, skipped), entry, EntriesFrom(mem.regions, table, ent, i + 1, count), bias);
      var wrote := ProcessEntry(mem, entry, bias);
      if wrote { applied := applied + 1; } else { skipped := skipped + 1; }
    }
  }

  /** Both tables, after the scan. An image without a dynamic table is left alone. */
  method ApplyRelocations(mem: GuestMemory, image: GuestElfImage) returns (out: GuestElfImage)
    requires mem.Valid()
    modifies mem`bytes
    ensures out == image.(relocApplied := out.relocApplied, relocSkipped := out.relocSkipped)
    ensures Progress(mem.bytes, out.relocApplied, out.relocSkipped) ==
            Relocated(mem.regions, Progress(old(mem.bytes), image.relocApplied, image.relocSkipped), image)
  {
    if !image.isDynamic || image.dynamicAddr == 0 {
      return image;
    }
    hide ApplyAll, Entries, Described, ValidRegions;
    ghost var st := Progress(mem.bytes, image.relocApplied, image.relocSkipped);
    var info := ScanTable(mem, image.dynamicAddr, image.loadBias);
    var applied, skipped := ProcessTable(mem, info.rela, info.relaSize, info.relaEnt, image.loadBias, image.relocApplied, image.relocSkipped);
    applied, skipped := ProcessTable(mem, info.jmpRel, info.pltRelSize, info.relaEnt, image.loadBias, applied, skipped);
    ApplyAllJoin(mem.regions, st, Entries(mem.regions, info.rela, info.relaSize, info.relaEnt),
                 Entries(mem.regions, info.jmpRel, info.pltRelSize, info.relaEnt), image.loadBias);
    return image.(relocApplied := applied, relocSkipped := skipped);
  }

  /** The entries that apply to an image in a given memory. */
  ghost function ImageEntries(rs: seq<Region>, m: Mem, image: GuestElfImage): seq<U64>
    requires ValidRegions(rs)
  {
    if !image.isDynamic || image.dynamicAddr == 0 then []
    else AllEntries(rs, Described(m, image.dynamicAddr, TableLength(rs, m, image.dynamicAddr), image.loadBias))
  }

  /** The entries that apply are those of two tables, one behind the other. Where they lie, how large they are
      and how far apart their entries are is what the last words say that carry the respective tag. */
  lemma EntriesAre(rs: seq<Region>, m: Mem, image: GuestElfImage) returns (n: nat, first: seq<U64>, second: seq<U64>)
    requires ValidRegions(rs)
    ensures ImageEntries(rs, m, image) == first + second
    ensures !image.isDynamic || image.dynamicAddr == 0 ==> first + second == []
    ensures image.isDynamic && image.dynamicAddr != 0 ==>
              var t, bias := image.dynamicAddr, image.loadBias;
              var ent := LastValue(m, t, n, DT_RELAENT, 0, 24);
              && HasEntries(rs, m, t, n)
              && Walked(rs, LastValue(m, t, n, DT_RELA, bias, 0), LastValue(m, t, n, DT_RELASZ, 0, 0), ent, first)
              && Walked(rs, LastValue(m, t, n, DT_JMPREL, bias, 0), LastValue(m, t, n, DT_PLTRELSZ, 0, 0), ent, second)
  {
    hide LastValue, Entries, Walked, HasEntries, ValidRegions;
    n, first, second := 0, [], [];
    if image.isDynamic && image.dynamicAddr != 0 {
      n := TableLength(rs, m, image.dynamicAddr);
      var info := Described(m, image.dynamicAddr, n, image.loadBias);
      first, second := Entries(rs, info.rela, info.relaSize, info.relaEnt), Entries(rs, info.jmpRel, info.pltRelSize, info.relaEnt);
      EntriesAreWalked(rs, info.rela, info.relaSize, info.relaEnt);
      EntriesAreWalked(rs, info.jmpRel, info.pltRelSize, info.relaEnt);
    }
  }

  ghost function Relocated(rs: seq<Region>, st: Progress, image: GuestElfImage): Progress
    requires ValidRegions(rs)
  {
    ApplyAll(rs, st, ImageEntries(rs, st.mem, image), image.loadBias)
  }

  // ----- what relocation leaves -----

  predicate Clear(a: int, n: nat, b: int, k: nat) {
    a + n <= b || b + k <= a
  }

  /** Nothing wraps, and no target overlaps an entry or another target. */
  ghost predicate NoOverlap(rs: seq<Region>, m: Mem, es: seq<U64>, bias: U64) {
    && (forall e :: e in es ==> e + RELA_SIZE <= TWO64)
    && (forall e :: e in es && Writes(rs, m, e, bias) ==> Target(m, e, bias) + 8 <= TWO64)
    && (forall e, f :: e in es && f in es && Writes(rs, m, e, bias) ==> Clear(Target(m, e, bias), 8, f, RELA_SIZE))
    && (forall i, j :: 0 <= i < j < |es| && Writes(rs, m, es[i], bias) && Writes(rs, m, es[j], bias) ==>
          Clear(Target(m, es[i], bias), 8, Target(m, es[j], bias), 8))
  }

  ghost function CountWrites(rs: seq<Region>, m: Mem, es: seq<U64>, bias: U64): nat {
    if es == [] then 0
    else CountWrites(rs, m, es[..|es| - 1], bias) + if Writes(rs, m, es[|es| - 1], bias) then 1 else 0
  }

  /** Every write that was asked for is in place, and nothing else has changed. */
  ghost predicate Settled(rs: seq<Region>, m0: Mem, m: Mem, es: seq<U64>, bias: U64) {
    && (forall e :: e in es && Writes(rs, m0, e, bias) ==> Word(m, Target(m0, e, bias)) == Value(m0, e, bias))
    && (forall b :: (forall e :: e in es && Writes(rs, m0, e, bias) ==> !(Target(m0, e, bias) <= b < Target(m0, e, bias) + 8)) ==>
          GetByte(m, b) == GetByte(m0, b))
  }

  lemma RelaFrame(m1: Mem, m2: Mem, e: U64)
    requires e + RELA_SIZE <= TWO64 && forall b :: e <= b < e + RELA_SIZE ==> GetByte(m1, b) == GetByte(m2, b)
    ensures ReadRela(m1, e) == ReadRela(m2, e)
  {
    AddPlain(e, 8);
    AddPlain(e, 16);
    hide Add, Word;
    WordFrame(m1, m2, e);
    WordFrame(m1, m2, e + 8);
    WordFrame(m1, m2, e + 16);
  }

  /** Entries read the same after the writes made so far. */
  lemma EntryUnchanged(rs: seq<Region>, m0: Mem, m: Mem, es: seq<U64>, all: seq<U64>, e: U64, bias: U64)
    requires NoOverlap(rs, m0, all, bias) && Settled(rs, m0, m, es, bias) && e in all && forall f :: f in es ==> f in all
    ensures ReadRela(m, e) == ReadRela(m0, e)
  {
    hide ReadRela, Target, Writes, GetByte;
    forall b | e <= b < e + RELA_SIZE ensures GetByte(m, b) == GetByte(m0, b) {
      forall f | f in es && Writes(rs, m0, f, bias) ensures !(Target(m0, f, bias) <= b < Target(m0, f, bias) + 8) {
        assert Clear(Target(m0, f, bias), 8, e, RELA_SIZE);
      }
    }
    RelaFrame(m, m0, e);
  }

  lemma SettledNext(rs: seq<Region>, m0: Mem, m1: Mem, es: seq<U64>, bias: U64)
    requires es != [] && NoOverlap(rs, m0, es, bias) && Settled(rs, m0, m1, es[..|es| - 1], bias)
    requires Writes(rs, m0, es[|es| - 1], bias)
    ensures Settled(rs, m0, WriteBytes(m1, Target(m0, es[|es| - 1], bias), LeBytes(Value(m0, es[|es| - 1], bias), 8)), es, bias)
  {
    hide Target, Value, Writes, Word, LeBytes;
    var init, e := es[..|es| - 1], es[|es| - 1];
    var t, v := Target(m0, e, bias), Value(m0, e, bias);
    var m2 := WriteBytes(m1, t, LeBytes(v, 8));
    WordWritten(m1, t, v);
    forall f | f in es && Writes(rs, m0, f, bias) ensures Word(m2, Target(m0, f, bias)) == Value(m0, f, bias) {
      var i :| 0 <= i < |es| && es[i] == f;
      if i < |init| {
        assert init[i] == f && f in init && Clear(Target(m0, f, bias), 8, t, 8);
        WordFrame(m2, m1, Target(m0, f, bias));
      }
    }
    forall b | forall f :: f in es && Writes(rs, m0, f, bias) ==> !(Target(m0, f, bias) <= b < Target(m0, f, bias) + 8)
      ensures GetByte(m2, b) == GetByte(m0, b)
    {
      assert e in es && forall f :: f in init ==> f in es;
      assert GetByte(m2, b) == GetByte(m1, b);
    }
  }

  /** After both tables every mapped target of a walked RELATIVE entry holds bias + addend, every
      other byte is as it was, and the counters have grown by the entries written and the entries walked. */
  lemma {:induction false} RelocationSettles(rs: seq<Region>, st: Progress, es: seq<U64>, bias: U64)
    requires NoOverlap(rs, st.mem, es, bias)
    ensures var out := ApplyAll(rs, st, es, bias);
            && Settled(rs, st.mem, out.mem, es, bias)
            && out.applied == st.applied + CountWrites(rs, st.mem, es, bias)
            && out.applied + out.skipped == st.applied + st.skipped + |es|
  {
    if es != [] {
      var init, e := es[..|es| - 1], es[|es| - 1];
      hide ReadRela, NoOverlap, IsMapped, WriteBytes, LeBytes, Add, Settled, Target, Value;
      NoOverlapInit(rs, st.mem, es, bias);
      RelocationSettles(rs, st, init, bias);
      var mid := ApplyAll(rs, st, init, bias);
      EntryUnchanged(rs, st.mem, mid.mem, init, es, e, bias);
      assert es == init + [e];
      ApplyAllNext(rs, st, init, e, bias);
      hide ApplyAll;
      SameReading(rs, st.mem, mid.mem, e, bias);
      if Writes(rs, st.mem, e, bias) {
        SettledNext(rs, st.mem, mid.mem, es, bias);
      } else {
        SettledSame(rs, st.mem, mid.mem, es, bias);
      }
    }
  }

  lemma SameReading(rs: seq<Region>, m1: Mem, m2: Mem, e: U64, bias: U64)
    requires ReadRela(m1, e) == ReadRela(m2, e)
    ensures Target(m1, e, bias) == Target(m2, e, bias) && Value(m1, e, bias) == Value(m2, e, bias)
    ensures Writes(rs, m1, e, bias) <==> Writes(rs, m2, e, bias)
  {
    hide IsMapped, Add, Word;
  }

  lemma NoOverlapInit(rs: seq<Region>, m: Mem, es: seq<U64>, bias: U64)
    requires es != [] && NoOverlap(rs, m, es, bias)
    ensures NoOverlap(rs, m, es[..|es| - 1], bias)
    ensures es[|es| - 1] in es && forall e :: e in es[..|es| - 1] ==> e in es
  {
    hide Target, Writes;
    var init := es[..|es| - 1];
    assert es[|es| - 1] in es && forall e :: e in init ==> e in es;
    forall i, j | 0 <= i < j < |init| && Writes(rs, m, init[i], bias) && Writes(rs, m, init[j], bias)
      ensures Clear(Target(m, init[i], bias), 8, Target(m, init[j], bias), 8)
    {
      assert init[i] == es[i] && init[j] == es[j];
    }
  }

  lemma SettledSame(rs: seq<Region>, m0: Mem, m: Mem, es: seq<U64>, bias: U64)
    requires es != [] && Settled(rs, m0, m, es[..|es| - 1], bias) && !Writes(rs, m0, es[|es| - 1], bias)
    ensures Settled(rs, m0, m, es, bias)
  {
    hide Target, Writes, Value;
    assert forall f :: f in es <==> f in es[..|es| - 1] || f == es[|es| - 1];
  }
}
