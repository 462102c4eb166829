/** A run of protect calls: the last one whose pages hold an address decides its permission. */
module Permissions {
  import opened Wrappers
  import opened Bits
  import opened Regions
  import opened Memory

  /** One call of protect. */
  datatype Request = Request(addr: U64, length: U64, prot: nat, name: string) {
    function Start(): U64 { AlignDown(addr) }
    function End(): U64 { AlignUp(Add(addr, length)) }

    /** The pages whose permission the call changes. */
    predicate Pages(a: U64) { length > 0 && Start() <= a < End() }
  }

  ghost function ProtectOne(rs: seq<Region>, q: Request): Result<seq<Region>> {
    if q.length == 0 then Success(rs)
    else if AnyTouched(rs, q.Start(), q.End()) then Success(Protected(rs, q.Start(), q.End(), q.prot, q.name))
    else Failure(NotMapped)
  }

  ghost function ProtectAll(rs: seq<Region>, qs: seq<Request>): Result<seq<Region>> {
    if qs == [] then Success(rs)
    else
      match ProtectAll(rs, qs[..|qs| - 1])
      case Failure(e) => Failure(e)
      case Success(rs1) => ProtectOne(rs1, qs[|qs| - 1])
  }

  /** The permission of the last request that holds the address, or else the old one. */
  function LastProt(qs: seq<Request>, a: U64, p: nat): nat {
    if qs == [] then p
    else if qs[|qs| - 1].Pages(a) then qs[|qs| - 1].prot
    else LastProt(qs[..|qs| - 1], a, p)
  }

  lemma ProtectAllNext(rs: seq<Region>, qs: seq<Request>, q: Request)
    ensures ProtectAll(rs, qs + [q]) ==
            match ProtectAll(rs, qs) { case Failure(e) => Failure(e) case Success(rs1) => ProtectOne(rs1, q) }
  {
    assert (qs + [q])[..|qs|] == qs;
  }

  /** A range that does not wrap and touches a region has whole pages to change. */
  lemma TouchedRange(rs: seq<Region>, q: Request)
    requires q.length > 0 && q.addr + q.length <= TWO64 && AnyTouched(rs, q.Start(), q.End())
    ensures PageRange(q.Start(), q.End())
  {
    hide AlignUp, AlignDown, Add;
    var end := Add(q.addr, q.length);
    EndOf(q.addr, q.length);
    var r :| r in rs && Touches(r, q.Start(), q.End());
    assert r.start >= 0 && q.End() > 0;
    assert end + PAGE <= TWO64;
  }

  lemma EndOf(a: U64, n: U64)
    requires n > 0 && a + n <= TWO64
    ensures Add(a, n) == if a + n == TWO64 then 0 else a + n
    ensures AlignUp(0) == 0
  {
  }

  lemma ProtectOneMeans(rs: seq<Region>, q: Request)
    requires ValidRegions(rs) && q.addr + q.length <= TWO64 && ProtectOne(rs, q).Success?
    ensures var out := ProtectOne(rs, q).value;
            && ValidRegions(out)
            && forall a: U64 :: (Mapped(out, a) <==> Mapped(rs, a))
                 && ProtAt(out, a) == if Mapped(rs, a) && q.Pages(a) then q.prot else ProtAt(rs, a)
  {
    hide Mapped, ProtAt, Protected, AnyTouched;
    if q.length > 0 {
      TouchedRange(rs, q);
      ProtectRefines(rs, q.Start(), q.End(), q.prot, q.name);
      forall a: U64 | !Mapped(rs, a) ensures ProtAt(rs, a) == PROT_NONE { UnmappedHasNone(rs, a); }
    }
  }

  lemma UnmappedHasNone(rs: seq<Region>, a: U64)
    requires !Mapped(rs, a)
    ensures ProtAt(rs, a) == PROT_NONE
  {
  }

  /** Over any run of protect calls the mapped addresses stay, the list stays valid, and the permission
      of a mapped address is the last writer's. */
  lemma {:induction false} LastWriterWins(rs: seq<Region>, qs: seq<Request>)
    requires ValidRegions(rs) && (forall q :: q in qs ==> q.addr + q.length <= TWO64)
    requires ProtectAll(rs, qs).Success?
    ensures var out := ProtectAll(rs, qs).value;
            && ValidRegions(out)
            && forall a: U64 :: (Mapped(out, a) <==> Mapped(rs, a))
                 && ProtAt(out, a) == if Mapped(rs, a) then LastProt(qs, a, ProtAt(rs, a)) else PROT_NONE
  {
    if qs == [] {
      forall a: U64 | !Mapped(rs, a) ensures ProtAt(rs, a) == PROT_NONE { UnmappedHasNone(rs, a); }
    } else {
      var init, last := qs[..|qs| - 1], qs[|qs| - 1];
      hide Mapped, ProtAt, ProtectOne, Request.Pages;
      LastWriterWins(rs, init);
      ProtectOneMeans(ProtectAll(rs, init).value, last);
    }
  }

  lemma {:induction false} LastProtNone(qs: seq<Request>, a: U64, p: nat)
    requires forall q :: q in qs ==> !q.Pages(a)
    ensures LastProt(qs, a, p) == p
  {
    if qs != [] {
      assert qs[|qs| - 1] in qs;
      LastProtNone(qs[..|qs| - 1], a, p);
    }
  }

  /** When all requests ask for the same permission, any one that holds the address decides. */
  lemma {:induction false} LastProtUniform(qs: seq<Request>, a: U64, p: nat, prot: nat)
    requires forall q :: q in qs ==> q.prot == prot
    ensures LastProt(qs, a, p) == if exists q :: q in qs && q.Pages(a) then prot else p
  {
    if qs != [] {
      LastProtUniform(qs[..|qs| - 1], a, p, prot);
      assert forall q :: q in qs <==> q in qs[..|qs| - 1] || q == qs[|qs| - 1];
    }
  }

  /** Some page of the request is mapped. */
  ghost predicate Reaches(rs: seq<Region>, q: Request) {
    exists a: U64 :: q.Pages(a) && Mapped(rs, a)
  }

  /** A run of protect calls passes exactly when each of them reaches some mapped address. */
  lemma {:induction false} ProtectAllPasses(rs: seq<Region>, qs: seq<Request>)
    requires ValidRegions(rs) && forall q :: q in qs ==> q.length > 0 && q.addr + q.length <= TWO64
    ensures ProtectAll(rs, qs).Success? <==> forall q :: q in qs ==> Reaches(rs, q)
  {
    if qs != [] {
      var init, last := qs[..|qs| - 1], qs[|qs| - 1];
      assert forall q :: q in qs <==> q in init || q == last;
      ProtectAllPasses(rs, init);
      hide Mapped, ValidRegions, ProtAt, AnyTouched, Protected, Reaches, Request.Pages;
      if ProtectAll(rs, init).Success? {
        LastWriterWins(rs, init);
        TouchedMeansMapped(ProtectAll(rs, init).value, last);
        ReachesSame(rs, ProtectAll(rs, init).value, last);
      }
    }
  }

  lemma ReachesSame(rs: seq<Region>, rs2: seq<Region>, q: Request)
    requires forall a: U64 :: Mapped(rs, a) <==> Mapped(rs2, a)
    ensures Reaches(rs, q) <==> Reaches(rs2, q)
  {
    hide Mapped, Request.Pages;
  }

  lemma TouchedMeansMapped(rs: seq<Region>, q: Request)
    requires ValidRegions(rs) && q.length > 0 && q.addr + q.length <= TWO64
    ensures AnyTouched(rs, q.Start(), q.End()) <==> Reaches(rs, q)
  {
    if AnyTouched(rs, q.Start(), q.End()) {
      TouchedRange(rs, q);
      var r :| r in rs && Touches(r, q.Start(), q.End());
      HoldsWholePages(r, r.start);
      var a := if r.start < q.Start() then q.Start() else r.start;
      RegionOf(rs, a, r);
      assert q.Pages(a) && Mapped(rs, a);
    } else {
      forall a: U64 | q.Pages(a) ensures !Mapped(rs, a) { FindRegionFinds(rs, a); }
    }
  }
}
