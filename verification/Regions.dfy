/** The region list of guest memory: page-aligned ranges with permissions, and how protect splits them. */
module Regions {
  import opened Wrappers
  import opened Bits

  const PAGE := 4096

  const PROT_NONE := 0
  const PROT_READ := 1
  const PROT_WRITE := 2
  const PROT_EXEC := 4

  // ----- 64-bit address arithmetic -----

  function Add(a: U64, b: int): U64 { (a + b) % TWO64 }

  function AlignDown(v: U64): (r: U64)
    ensures r % PAGE == 0 && r <= v < r + PAGE
  {
    v - v % PAGE
  }

  /** Wraps to 0 within the last page of the address space. */
  function AlignUp(v: U64): (r: U64)
    ensures r % PAGE == 0
    ensures v + PAGE <= TWO64 ==> v <= r < v + PAGE
    ensures v + PAGE > TWO64 ==> r == 0
  {
    AlignDown(Add(v, PAGE - 1))
  }

  // ----- regions -----

  datatype Region = Region(start: U64, length: U64, prot: nat, name: string) {
    /** One past the last address; wraps like the source's sum. */
    function End(): U64 { Add(start, length) }

    predicate Holds(a: U64) { start <= a < End() }

    predicate Good() {
      start % PAGE == 0 && length % PAGE == 0 && length > 0 && start + length < TWO64
    }
  }

  predicate Apart(r: Region, q: Region) {
    r.End() <= q.start || q.End() <= r.start
  }

  /** Page-aligned, not empty, pairwise disjoint. */
  ghost predicate ValidRegions(rs: seq<Region>) {
    && (forall i :: 0 <= i < |rs| ==> rs[i].Good())
    && (forall i, j :: 0 <= i < j < |rs| ==> Apart(rs[i], rs[j]))
  }

  /** The first region of the list that holds the address. */
  function FindRegion(rs: seq<Region>, a: U64): Option<Region> {
    if rs == [] then None
    else if rs[0].Holds(a) then Some(rs[0])
    else FindRegion(rs[1..], a)
  }

  predicate Mapped(rs: seq<Region>, a: U64) {
    FindRegion(rs, a).Some?
  }

  function ProtAt(rs: seq<Region>, a: U64): nat {
    match FindRegion(rs, a)
    case Some(r) => r.prot
    case None => PROT_NONE
  }

  lemma {:induction false} FindRegionFinds(rs: seq<Region>, a: U64)
    ensures FindRegion(rs, a).Some? <==> exists r :: r in rs && r.Holds(a)
    ensures FindRegion(rs, a).Some? ==> FindRegion(rs, a).value in rs && FindRegion(rs, a).value.Holds(a)
  {
    if rs != [] {
      FindRegionFinds(rs[1..], a);
      assert forall r :: r in rs <==> r == rs[0] || r in rs[1..];
    }
  }

  /** In a valid list the region of an address is unique, so order does not matter. */
  lemma RegionOf(rs: seq<Region>, a: U64, r: Region)
    requires ValidRegions(rs) && r in rs && r.Holds(a)
    ensures FindRegion(rs, a) == Some(r)
  {
    FindRegionFinds(rs, a);
    var i :| 0 <= i < |rs| && rs[i] == r;
    assert forall j :: 0 <= j < |rs| && rs[j].Holds(a) ==> j == i;
  }

  // ----- protect -----

  /** The part of a region before an address, or nothing. */
  function Before(r: Region, start: U64): seq<Region> {
    if r.start < start then [Region(r.start, Add(start, 0 - r.start), r.prot, r.name)] else []
  }

  function Behind(r: Region, end: U64): seq<Region> {
    if end < r.End() then [Region(end, Add(r.End(), 0 - end), r.prot, r.name)] else []
  }

  function Body(r: Region, start: U64, end: U64, prot: nat, name: string): Region {
    var bodyStart := if r.start < start then start else r.start;
    var bodyEnd := if r.End() < end then r.End() else end;
    Region(bodyStart, Add(bodyEnd, 0 - bodyStart), prot, if name == "" then r.name else name)
  }

  /** What changing the permissions of [start, end) makes of one region. */
  function Pieces(r: Region, start: U64, end: U64, prot: nat, name: string): seq<Region> {
    if r.End() <= start || end <= r.start then [r]
    else Before(r, start) + [Body(r, start, end, prot, name)] + Behind(r, end)
  }

  function Rebuild(rs: seq<Region>, start: U64, end: U64, prot: nat, name: string): seq<Region> {
    if rs == [] then []
    else Rebuild(rs[..|rs| - 1], start, end, prot, name) + Pieces(rs[|rs| - 1], start, end, prot, name)
  }

  predicate Touches(r: Region, start: U64, end: U64) {
    !(r.End() <= start || end <= r.start)
  }

  /** Sorting by start address. */
  function InsertByStart(r: Region, rs: seq<Region>): seq<Region> {
    if rs == [] || r.start < rs[0].start then [r] + rs else [rs[0]] + InsertByStart(r, rs[1..])
  }

  function SortByStart(rs: seq<Region>): seq<Region> {
    if rs == [] then [] else InsertByStart(rs[0], SortByStart(rs[1..]))
  }

  predicate SortedByStart(rs: seq<Region>) {
    forall i, j :: 0 <= i < j < |rs| ==> rs[i].start <= rs[j].start
  }

  function TotalLength(rs: seq<Region>): nat {
    if rs == [] then 0 else TotalLength(rs[..|rs| - 1]) + rs[|rs| - 1].length
  }

  /** The regions after protect: rebuilt piece by piece, then sorted. */
  function Protected(rs: seq<Region>, start: U64, end: U64, prot: nat, name: string): seq<Region> {
    SortByStart(Rebuild(rs, start, end, prot, name))
  }

  /** The new permission of an address that had permission p. */
  function NewProt(a: U64, p: nat, start: U64, end: U64, prot: nat): nat {
    if start <= a < end then prot else p
  }

  /** p is a part of r that carries r's permission, or the new one inside the range. */
  ghost predicate PieceOf(p: Region, r: Region, start: U64, end: U64, prot: nat) {
    && p.Good() && r.start <= p.start && p.End() <= r.End()
    && forall a: U64 :: p.Holds(a) ==> p.prot == NewProt(a, r.prot, start, end, prot)
  }

  ghost predicate PageRange(start: U64, end: U64) {
    start % PAGE == 0 && end % PAGE == 0 && start < end
  }

  lemma AddPlain(a: U64, b: int)
    ensures 0 <= a + b < TWO64 ==> Add(a, b) == a + b
  {
  }

  lemma BodyIsPiece(r: Region, start: U64, end: U64, prot: nat, name: string)
    requires r.Good() && PageRange(start, end) && Touches(r, start, end)
    ensures var p := Body(r, start, end, prot, name);
            && p.Good() && p.prot == prot
            && p.start == (if r.start < start then start else r.start)
            && p.End() == (if r.End() < end then r.End() else end)
            && p.length == p.End() - p.start
            && p.name == if name == "" then r.name else name
  {
    hide Add;
    AddPlain(r.start, r.length);
    SumOfPages(r.start, r.length);
    var bodyStart := if r.start < start then start else r.start;
    var bodyEnd := if r.End() < end then r.End() else end;
    PageDifference(bodyStart, bodyEnd);
    AddPlain(bodyEnd, 0 - bodyStart);
    AddPlain(bodyStart, bodyEnd - bodyStart);
  }

  lemma BeforeIsPiece(r: Region, start: U64, end: U64)
    requires r.Good() && PageRange(start, end) && Touches(r, start, end)
    ensures forall p :: p in Before(r, start) ==>
              p.Good() && p.prot == r.prot && p.start == r.start && p.End() == start && p.length == start - r.start
  {
    hide Add;
    AddPlain(r.start, r.length);
    AddPlain(start, 0 - r.start);
    AddPlain(r.start, start - r.start);
  }

  lemma BehindIsPiece(r: Region, start: U64, end: U64)
    requires r.Good() && PageRange(start, end) && Touches(r, start, end)
    ensures forall p :: p in Behind(r, end) ==>
              p.Good() && p.prot == r.prot && p.start == end && p.End() == r.End() && p.length == r.End() - end
  {
    hide Add;
    AddPlain(r.start, r.length);
    AddPlain(r.End(), 0 - end);
    AddPlain(end, r.End() - end);
  }

  lemma PiecesPartition(r: Region, start: U64, end: U64, prot: nat, name: string)
    requires r.Good() && PageRange(start, end)
    ensures var ps := Pieces(r, start, end, prot, name);
            && ValidRegions(ps)
            && (forall p :: p in ps ==> PieceOf(p, r, start, end, prot))
            && (forall a: U64 :: r.Holds(a) ==> exists p :: p in ps && p.Holds(a))
            && |ps| == 1 + (if r.start < start < r.End() then 1 else 0) + (if r.start < end < r.End() then 1 else 0)
  {
    if Touches(r, start, end) {
      BodyIsPiece(r, start, end, prot, name);
      BeforeIsPiece(r, start, end);
      BehindIsPiece(r, start, end);
      hide Body, Region.End;
      var ps, body := Pieces(r, start, end, prot, name), Body(r, start, end, prot, name);
      assert body in ps && (forall p :: p in Before(r, start) || p in Behind(r, end) ==> p in ps);
      forall a: U64 | r.Holds(a) ensures exists p :: p in ps && p.Holds(a) {
        if a < start {
          assert Before(r, start)[0].Holds(a) && Before(r, start)[0] in ps;
        } else if a >= end {
          assert Behind(r, end)[0].Holds(a) && Behind(r, end)[0] in ps;
        } else {
          assert body.Holds(a);
        }
      }
    }
  }

  lemma SideLengths(r: Region, start: U64, end: U64)
    requires r.Good() && PageRange(start, end) && Touches(r, start, end)
    ensures TotalLength(Before(r, start)) == if r.start < start then start - r.start else 0
    ensures TotalLength(Behind(r, end)) == if end < r.End() then r.End() - end else 0
  {
    BeforeIsPiece(r, start, end);
    BehindIsPiece(r, start, end);
    hide Add;
    if r.start < start { LengthOfOne(Before(r, start)[0]); }
    if end < r.End() { LengthOfOne(Behind(r, end)[0]); }
  }

  lemma PiecesLength(r: Region, start: U64, end: U64, prot: nat, name: string)
    requires r.Good() && PageRange(start, end)
    ensures TotalLength(Pieces(r, start, end, prot, name)) == r.length
  {
    hide Add, TotalLength, Before, Behind, Body;
    LengthOfOne(r);
    if Touches(r, start, end) {
      var body := Body(r, start, end, prot, name);
      BodyIsPiece(r, start, end, prot, name);
      SideLengths(r, start, end);
      LengthOfSum(Before(r, start) + [body], Behind(r, end));
      LengthOfSum(Before(r, start), [body]);
      LengthOfOne(body);
      AddPlain(r.start, r.length);
    }
  }

  lemma LengthOfOne(r: Region)
    ensures TotalLength([r]) == r.length
  {
    assert [r][..0] == [];
  }

  lemma {:induction false} LengthOfSum(a: seq<Region>, b: seq<Region>)
    ensures TotalLength(a + b) == TotalLength(a) + TotalLength(b)
  {
    if b == [] {
      assert a + b == a;
    } else {
      LengthOfSum(a, b[..|b| - 1]);
      assert (a + b)[..|a + b| - 1] == a + b[..|b| - 1];
    }
  }

  /** Two lists whose regions are pairwise apart join to a valid one. */
  lemma ValidJoin(a: seq<Region>, b: seq<Region>)
    requires ValidRegions(a) && ValidRegions(b)
    requires forall p, q :: p in a && q in b ==> Apart(p, q)
    ensures ValidRegions(a + b)
  {
    var c := a + b;
    forall i, j | 0 <= i < j < |c| ensures Apart(c[i], c[j]) {
      if i < |a| <= j { assert c[i] in a && c[j] in b; }
    }
  }

  lemma PiecesStayApart(p: Region, r: Region, p2: Region, r2: Region)
    requires p.Good() && p2.Good() && Apart(r, r2)
    requires r.start <= p.start && p.End() <= r.End() && r2.start <= p2.start && p2.End() <= r2.End()
    ensures Apart(p, p2)
  {
  }

  /** Rebuilding cuts every region into parts and loses nothing. */
  ghost predicate CutOf(out: seq<Region>, rs: seq<Region>, start: U64, end: U64, prot: nat) {
    && ValidRegions(out)
    && (forall p :: p in out ==> exists r :: r in rs && PieceOf(p, r, start, end, prot))
    && (forall r, a: U64 :: r in rs && r.Holds(a) ==> exists p :: p in out && p.Holds(a))
  }

  lemma {:induction false} RebuildCuts(rs: seq<Region>, start: U64, end: U64, prot: nat, name: string)
    requires ValidRegions(rs) && PageRange(start, end)
    ensures CutOf(Rebuild(rs, start, end, prot, name), rs, start, end, prot)
  {
    if rs != [] {
      var init, last := rs[..|rs| - 1], rs[|rs| - 1];
      RebuildCuts(init, start, end, prot, name);
      PiecesPartition(last, start, end, prot, name);
      var a, b := Rebuild(init, start, end, prot, name), Pieces(last, start, end, prot, name);
      hide Rebuild, Pieces, PieceOf, Region.Good, Region.End, Region.Holds;
      assert forall r :: r in rs <==> r in init || r == last;
      forall p, q | p in a && q in b ensures Apart(p, q) {
        var r :| r in init && PieceOf(p, r, start, end, prot);
        PieceInside(p, r, start, end, prot);
        PieceInside(q, last, start, end, prot);
        PiecesStayApart(p, r, q, last);
      }
      ValidJoin(a, b);
    }
  }

  lemma PieceInside(p: Region, r: Region, start: U64, end: U64, prot: nat)
    requires PieceOf(p, r, start, end, prot)
    ensures p.Good() && r.start <= p.start && p.End() <= r.End()
  {
  }

  lemma {:induction false} RebuildLength(rs: seq<Region>, start: U64, end: U64, prot: nat, name: string)
    requires ValidRegions(rs) && PageRange(start, end)
    ensures TotalLength(Rebuild(rs, start, end, prot, name)) == TotalLength(rs)
  {
    if rs != [] {
      RebuildLength(rs[..|rs| - 1], start, end, prot, name);
      PiecesLength(rs[|rs| - 1], start, end, prot, name);
      LengthOfSum(Rebuild(rs[..|rs| - 1], start, end, prot, name), Pieces(rs[|rs| - 1], start, end, prot, name));
    }
  }

  /** Whether some region has the address strictly inside: at most one can. */
  predicate CutAt(rs: seq<Region>, a: U64) {
    exists i :: 0 <= i < |rs| && rs[i].start < a < rs[i].End()
  }

  lemma {:induction false} RebuildSize(rs: seq<Region>, start: U64, end: U64, prot: nat, name: string)
    requires ValidRegions(rs) && PageRange(start, end)
    ensures |Rebuild(rs, start, end, prot, name)| ==
            |rs| + (if CutAt(rs, start) then 1 else 0) + (if CutAt(rs, end) then 1 else 0)
  {
    if rs != [] {
      var init, last := rs[..|rs| - 1], rs[|rs| - 1];
      RebuildSize(init, start, end, prot, name);
      PiecesPartition(last, start, end, prot, name);
      hide Rebuild, Pieces;
      CutOnce(rs, start);
      CutOnce(rs, end);
      assert |Rebuild(rs, start, end, prot, name)| ==
             |Rebuild(init, start, end, prot, name)| + |Pieces(last, start, end, prot, name)| by { RebuildNext(rs, start, end, prot, name); }
    }
  }

  lemma RebuildNext(rs: seq<Region>, start: U64, end: U64, prot: nat, name: string)
    requires rs != []
    ensures Rebuild(rs, start, end, prot, name) ==
            Rebuild(rs[..|rs| - 1], start, end, prot, name) + Pieces(rs[|rs| - 1], start, end, prot, name)
  {
  }

  lemma CutOnce(rs: seq<Region>, a: U64)
    requires ValidRegions(rs) && rs != []
    ensures var init, last := rs[..|rs| - 1], rs[|rs| - 1];
            && (CutAt(rs, a) <==> CutAt(init, a) || last.start < a < last.End())
            && !(CutAt(init, a) && last.start < a < last.End())
  {
    var init, last := rs[..|rs| - 1], rs[|rs| - 1];
    if CutAt(init, a) {
      var i :| 0 <= i < |init| && init[i].start < a < init[i].End();
      assert rs[i] == init[i] && Apart(rs[i], rs[|rs| - 1]);
    }
  }

  // ----- sorting -----

  lemma {:induction false} InsertContents(r: Region, rs: seq<Region>)
    ensures var out := InsertByStart(r, rs);
            && |out| == |rs| + 1 && (forall p :: p in out <==> p == r || p in rs)
            && TotalLength(out) == r.length + TotalLength(rs)
  {
    LengthOfOne(r);
    if rs == [] || r.start < rs[0].start {
      LengthOfSum([r], rs);
    } else {
      var first, rest := rs[0], rs[1..];
      assert rs == [first] + rest;
      InsertContents(r, rest);
      LengthOfSum([first], InsertByStart(r, rest));
      LengthOfSum([first], rest);
    }
  }

  lemma {:induction false} InsertValid(r: Region, rs: seq<Region>)
    requires r.Good() && ValidRegions(rs) && forall q :: q in rs ==> Apart(r, q)
    ensures ValidRegions(InsertByStart(r, rs))
  {
    assert ValidRegions([r]);
    if rs == [] || r.start < rs[0].start {
      ValidJoin([r], rs);
    } else {
      var rest := rs[1..];
      TailApart(rs);
      InsertValid(r, rest);
      InsertContents(r, rest);
      hide InsertByStart, Region.Good;
      assert rs[0] in rs && Apart(r, rs[0]) && Apart(rs[0], r);
      ValidJoin([rs[0]], InsertByStart(r, rest));
      InsertNext(r, rs);
    }
  }

  lemma InsertNext(r: Region, rs: seq<Region>)
    requires rs != [] && rs[0].start <= r.start
    ensures InsertByStart(r, rs) == [rs[0]] + InsertByStart(r, rs[1..])
  {
  }

  lemma TailApart(rs: seq<Region>)
    requires ValidRegions(rs) && rs != []
    ensures ValidRegions(rs[1..]) && ValidRegions([rs[0]])
    ensures forall q :: q in rs[1..] ==> q in rs && Apart(rs[0], q)
  {
  }

  lemma {:induction false} InsertSorted(r: Region, rs: seq<Region>)
    requires SortedByStart(rs)
    ensures SortedByStart(InsertByStart(r, rs))
  {
    if rs != [] && rs[0].start <= r.start {
      InsertSorted(r, rs[1..]);
      InsertContents(r, rs[1..]);
      InsertNext(r, rs);
      hide InsertByStart, TotalLength;
      assert forall q :: q in rs[1..] ==> rs[0].start <= q.start;
      var tail := InsertByStart(r, rs[1..]);
      assert forall i :: 0 <= i < |tail| ==> tail[i] in tail;
    }
  }

  lemma {:induction false} SortKeeps(rs: seq<Region>)
    requires ValidRegions(rs)
    ensures var out := SortByStart(rs);
            && ValidRegions(out) && SortedByStart(out) && |out| == |rs|
            && (forall p :: p in out <==> p in rs)
            && TotalLength(out) == TotalLength(rs)
  {
    if rs != [] {
      var rest := rs[1..];
      assert rs == [rs[0]] + rest;
      TailApart(rs);
      SortKeeps(rest);
      var sorted := SortByStart(rest);
      InsertValid(rs[0], sorted);
      InsertSorted(rs[0], sorted);
      InsertContents(rs[0], sorted);
      LengthOfSum([rs[0]], rest);
      LengthOfOne(rs[0]);
    }
  }

  // ----- the refinement -----

  /** protect on the list is an update of the abstract map from pages to permissions: the mapped
      addresses and the total length stay, permissions change exactly inside the range, and the
      list stays valid, becomes sorted and grows by at most two. */
  lemma ProtectRefines(rs: seq<Region>, start: U64, end: U64, prot: nat, name: string)
    requires ValidRegions(rs) && PageRange(start, end)
    ensures var out := Protected(rs, start, end, prot, name);
            && ValidRegions(out) && SortedByStart(out) && |out| <= |rs| + 2
            && TotalLength(out) == TotalLength(rs)
            && forall a: U64 :: (Mapped(out, a) <==> Mapped(rs, a))
                 && ProtAt(out, a) == if Mapped(rs, a) then NewProt(a, ProtAt(rs, a), start, end, prot) else PROT_NONE
  {
    var cut := Rebuild(rs, start, end, prot, name);
    RebuildCuts(rs, start, end, prot, name);
    RebuildLength(rs, start, end, prot, name);
    RebuildSize(rs, start, end, prot, name);
    SortKeeps(cut);
    hide Rebuild, SortByStart;
    var out := Protected(rs, start, end, prot, name);
    forall a: U64 ensures (Mapped(out, a) <==> Mapped(rs, a))
                 && ProtAt(out, a) == if Mapped(rs, a) then NewProt(a, ProtAt(rs, a), start, end, prot) else PROT_NONE
    {
      CutMeans(out, rs, start, end, prot, a);
    }
  }

  lemma CutMeans(out: seq<Region>, rs: seq<Region>, start: U64, end: U64, prot: nat, a: U64)
    requires ValidRegions(rs) && CutOf(out, rs, start, end, prot)
    ensures Mapped(out, a) <==> Mapped(rs, a)
    ensures ProtAt(out, a) == if Mapped(rs, a) then NewProt(a, ProtAt(rs, a), start, end, prot) else PROT_NONE
  {
    FindRegionFinds(rs, a);
    FindRegionFinds(out, a);
    if Mapped(out, a) {
      var p := FindRegion(out, a).value;
      var r :| r in rs && PieceOf(p, r, start, end, prot);
      RegionOf(rs, a, r);
    }
  }

  // ----- which ranges are mapped -----

  /** Every page from one page address to another is mapped. */
  ghost predicate PagesMapped(rs: seq<Region>, first: U64, last: U64) {
    forall p: U64 :: p % PAGE == 0 && first <= p <= last ==> Mapped(rs, p)
  }

  /** isMapped as the source writes it: the last byte is rounded up to a page. */
  ghost predicate IsMappedAsWritten(rs: seq<Region>, a: U64, length: U64) {
    length == 0 || PagesMapped(rs, AlignDown(a), AlignUp(Add(a, length - 1)))
  }

  /** isMapped as documented: the last byte is rounded down to its page. */
  ghost predicate IsMapped(rs: seq<Region>, a: U64, length: U64) {
    length == 0 || PagesMapped(rs, AlignDown(a), AlignDown(Add(a, length - 1)))
  }

  ghost predicate BytesMapped(rs: seq<Region>, a: U64, length: U64)
    requires a + length <= TWO64
  {
    forall b :: a <= b < a + length ==> Mapped(rs, b)
  }

  /** A region holds a byte exactly when it holds the byte's page. */
  lemma PageDecides(rs: seq<Region>, b: U64)
    requires ValidRegions(rs)
    ensures Mapped(rs, b) <==> Mapped(rs, AlignDown(b))
  {
    FindRegionFinds(rs, b);
    FindRegionFinds(rs, AlignDown(b));
    forall r | r in rs ensures r.Holds(b) <==> r.Holds(AlignDown(b)) {
      HoldsWholePages(r, b);
    }
  }

  lemma SumOfPages(a: int, b: int)
    requires a % PAGE == 0 && b % PAGE == 0
    ensures (a + b) % PAGE == 0
  {
  }

  lemma PageDifference(low: int, high: int)
    requires low % PAGE == 0 && high % PAGE == 0
    ensures (high - low) % PAGE == 0
  {
  }

  lemma HoldsWholePages(r: Region, b: U64)
    requires r.Good()
    ensures r.End() == r.start + r.length && r.End() % PAGE == 0
    ensures r.Holds(b) <==> r.Holds(AlignDown(b))
  {
    hide Add, AlignDown;
    AddPlain(r.start, r.length);
    SumOfPages(r.start, r.length);
    PageOrder(r.start, b);
    PageOrder(r.End(), b);
  }

  /** A page boundary is not above an address exactly when it is not above the address's page. */
  lemma PageOrder(p: int, b: U64)
    requires p % PAGE == 0
    ensures p <= b <==> p <= AlignDown(b)
  {
  }

  /** The documented form decides whether every byte is mapped. */
  lemma IsMappedMeansBytes(rs: seq<Region>, a: U64, length: U64)
    requires ValidRegions(rs) && a + length <= TWO64
    ensures IsMapped(rs, a, length) <==> BytesMapped(rs, a, length)
  {
    if length > 0 {
      var last := a + length - 1;
      if PagesMapped(rs, AlignDown(a), AlignDown(last)) {
        forall b | a <= b < a + length ensures Mapped(rs, b) {
          PageDecides(rs, b);
          AlignMonotone(a, b);
          AlignMonotone(b, last);
        }
      }
      if BytesMapped(rs, a, length) {
        forall p: U64 | p % PAGE == 0 && AlignDown(a) <= p <= AlignDown(last) ensures Mapped(rs, p) {
          PageDecides(rs, if p < a then a else p);
          if p < a { AlignUnique(a, p); }
        }
      }
    }
  }

  lemma AlignMonotone(a: U64, b: U64)
    requires a <= b
    ensures AlignDown(a) <= AlignDown(b)
  {
  }

  lemma AlignUnique(a: U64, p: U64)
    requires p % PAGE == 0 && AlignDown(a) <= p <= a
    ensures AlignDown(a) == p
  {
  }

  lemma NoPageBetween(p: U64, last: U64)
    requires p % PAGE == 0 && p <= AlignUp(last) && last + PAGE <= TWO64
    ensures p <= AlignDown(last) || p == AlignUp(last)
  {
  }

  /** The form as written also asks for the page behind the last byte, unless the last byte is the
      first of its page; in the last page of the address space the rounding wraps and nothing is asked. */
  lemma IsMappedAsWrittenMeans(rs: seq<Region>, a: U64, length: U64)
    requires ValidRegions(rs) && length > 0 && a + length <= TWO64
    ensures var last := a + length - 1;
            IsMappedAsWritten(rs, a, length) <==>
              if last + PAGE > TWO64 then a >= PAGE || Mapped(rs, 0)
              else BytesMapped(rs, a, length) && Mapped(rs, AlignUp(last))
  {
    hide Mapped, ValidRegions, PagesMapped;
    var last := a + length - 1;
    IsMappedMeansBytes(rs, a, length);
    if last + PAGE > TWO64 {
      WalkToZero(rs, a);
    } else {
      WalkToRounded(rs, a, last);
    }
  }

  lemma WalkToZero(rs: seq<Region>, a: U64)
    ensures PagesMapped(rs, AlignDown(a), 0) <==> a >= PAGE || Mapped(rs, 0)
  {
    hide Mapped;
  }

  /** Walking on to the page the last byte is rounded up to asks for that page too, and for nothing else. */
  lemma WalkToRounded(rs: seq<Region>, a: U64, last: U64)
    requires a <= last && last + PAGE <= TWO64
    ensures PagesMapped(rs, AlignDown(a), AlignUp(last)) <==>
            PagesMapped(rs, AlignDown(a), AlignDown(last)) && Mapped(rs, AlignUp(last))
  {
    hide Mapped;
    AlignMonotone(a, last);
    forall p: U64 | p % PAGE == 0 && p <= AlignUp(last) ensures p <= AlignDown(last) || p == AlignUp(last) {
      NoPageBetween(p, last);
    }
  }

  /** A range that runs past the end of the address space ends below its start, so neither form asks
      for its bytes: each asks for nothing, or for the first page and the page its last byte wraps to
      when those lie together. */
  lemma WrappedRangeMeans(rs: seq<Region>, a: U64, length: U64)
    requires ValidRegions(rs) && a + length > TWO64
    ensures var last := a + length - 1 - TWO64;
            && (IsMapped(rs, a, length) <==> AlignDown(last) < AlignDown(a) || Mapped(rs, a))
            && (IsMappedAsWritten(rs, a, length) <==>
                  || AlignUp(last) < AlignDown(a)
                  || (Mapped(rs, a) && (AlignUp(last) > AlignDown(a) ==> Mapped(rs, AlignUp(last)))))
  {
    hide Mapped;
    var last := a + length - 1 - TWO64;
    WrapsOnce(a, length);
    PageDecides(rs, a);
    AlignMonotone(last, a);
    RoundedTogether(last, a);
    assert Mapped(rs, AlignDown(a)) && AlignDown(last) == AlignDown(a) ==> PagesMapped(rs, AlignDown(a), AlignDown(last)) by {
      OnePage(a);
    }
    assert Mapped(rs, AlignDown(a)) && Mapped(rs, AlignUp(last)) && AlignUp(last) >= AlignDown(a) ==>
             PagesMapped(rs, AlignDown(a), AlignUp(last)) by {
      NextPageOnly(a, AlignUp(last));
    }
  }

  lemma WrapsOnce(a: U64, length: U64)
    requires a + length > TWO64
    ensures Add(a, length - 1) == a + length - 1 - TWO64 < a
  {
  }

  lemma RoundedTogether(last: U64, a: U64)
    requires last <= a
    ensures AlignUp(last) % PAGE == 0 && AlignUp(last) <= AlignDown(a) + PAGE
    ensures AlignDown(a) % PAGE == 0 && AlignDown(last) % PAGE == 0
  {
  }

  lemma OnePage(a: U64)
    ensures forall p: U64 :: p % PAGE == 0 && AlignDown(a) <= p <= AlignDown(a) ==> p == AlignDown(a)
  {
  }

  lemma NextPageOnly(a: U64, up: U64)
    requires up % PAGE == 0 && up <= AlignDown(a) + PAGE
    ensures forall p: U64 :: p % PAGE == 0 && AlignDown(a) <= p <= up ==> p == AlignDown(a) || p == up
  {
  }

  /** Sixteen bytes from eight below the end of the address space pass both checks with nothing mapped. */
  lemma WrappedRangePasses()
    ensures IsMapped([], TWO64 - 8, 16) && IsMappedAsWritten([], TWO64 - 8, 16)
    ensures !Mapped([], TWO64 - 8)
  {
    assert ValidRegions([]);
    WrappedRangeMeans([], TWO64 - 8, 16);
  }

  lemma RoundUpToPage(p: U64)
    requires p % PAGE == 0 && p > 0
    ensures p - 1 + PAGE <= TWO64 && AlignUp(p - 1) == p
  {
  }

  /** A write that ends at the end of the last region fails the form as written. */
  lemma WrittenFormRejectsTop(rs: seq<Region>, r: Region, length: U64)
    requires ValidRegions(rs) && r in rs && 0 < length <= r.length
    requires !Mapped(rs, r.End())
    ensures IsMapped(rs, Add(r.End(), 0 - length), length)
    ensures !IsMappedAsWritten(rs, Add(r.End(), 0 - length), length)
  {
    hide Add, AlignDown, AlignUp;
    HoldsWholePages(r, r.start);
    var a := r.End() - length;
    AddPlain(r.End(), 0 - length);
    forall b | a <= b < a + length ensures Mapped(rs, b) {
      RegionOf(rs, b, r);
    }
    IsMappedMeansBytes(rs, a, length);
    IsMappedAsWrittenMeans(rs, a, length);
    RoundUpToPage(r.End());
  }

  /** The last word of a one-page region fails the form as written. */
  lemma LastWordRejected()
    ensures IsMapped([Region(0x1000, 0x1000, 3, "code")], 0x1ff8, 8)
    ensures !IsMappedAsWritten([Region(0x1000, 0x1000, 3, "code")], 0x1ff8, 8)
  {
    var r := Region(0x1000, 0x1000, 3, "code");
    assert r in [r] && ValidRegions([r]);
    FindRegionFinds([r], r.End());
    WrittenFormRejectsTop([r], r, 8);
  }

  // ----- map -----

  /** A new region over unmapped pages keeps the list valid and adds exactly its addresses. */
  lemma MapExtends(rs: seq<Region>, r: Region)
    requires ValidRegions(rs) && r.Good()
    requires forall b: U64 :: r.Holds(b) ==> !Mapped(rs, b)
    ensures ValidRegions(rs + [r])
    ensures forall b: U64 :: (Mapped(rs + [r], b) <==> Mapped(rs, b) || r.Holds(b))
              && ProtAt(rs + [r], b) == if r.Holds(b) then r.prot else ProtAt(rs, b)
  {
    var out := rs + [r];
    forall q | q in rs ensures Apart(q, r) {
      if !Apart(q, r) {
        var b := if q.start < r.start then r.start else q.start;
        assert q.Holds(b) && r.Holds(b);
        FindRegionFinds(rs, b);
      }
    }
    assert ValidRegions([r]);
    ValidJoin(rs, [r]);
    forall b: U64 ensures (Mapped(out, b) <==> Mapped(rs, b) || r.Holds(b))
              && ProtAt(out, b) == if r.Holds(b) then r.prot else ProtAt(rs, b)
    {
      FindRegionFinds(rs, b);
      FindRegionFinds(out, b);
      if r.Holds(b) {
        assert r in out;
        RegionOf(out, b, r);
      } else if Mapped(rs, b) {
        RegionOf(out, b, FindRegion(rs, b).value);
      }
    }
  }
}
