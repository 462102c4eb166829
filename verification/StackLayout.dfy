/** The initial process stack as the System V ABI lays it out (AMD64 psABI, section 3.4.1):
    what lies where, and what walking it from the stack pointer recovers. */
module StackLayout {
  import opened Bits
  import opened Regions
  import opened ByteStore
  import opened Elf

  type Str = seq<Byte>

  // ----- frames -----

  /** Nothing outside [lo, hi) differs. */
  ghost predicate SameOutside(m1: Mem, m2: Mem, lo: int, hi: int) {
    forall b :: !(lo <= b < hi) ==> GetByte(m1, b) == GetByte(m2, b)
  }

  /** The bytes of src lie at a. */
  ghost predicate Lies(m: Mem, a: int, src: seq<Byte>) {
    forall b :: a <= b < a + |src| ==> GetByte(m, b) == src[b - a]
  }

  lemma LiesFrame(m1: Mem, m2: Mem, lo: int, hi: int, a: int, src: seq<Byte>)
    requires SameOutside(m1, m2, lo, hi) && Lies(m1, a, src) && (a + |src| <= lo || hi <= a)
    ensures Lies(m2, a, src)
  {
  }

  lemma WrittenLies(m: Mem, a: int, src: seq<Byte>)
    ensures Lies(WriteBytes(m, a, src), a, src)
    ensures SameOutside(m, WriteBytes(m, a, src), a, a + |src|)
  {
  }

  lemma LiesTail(m: Mem, a: int, src: seq<Byte>)
    requires Lies(m, a, src) && src != []
    ensures GetByte(m, a) == src[0] && Lies(m, a + 1, src[1..])
  {
  }

  lemma SameOutsideCompose(m1: Mem, m2: Mem, m3: Mem, lo: int, mid: int, hi: int)
    requires SameOutside(m1, m2, mid, hi) && SameOutside(m2, m3, lo, mid) && lo <= mid <= hi
    ensures SameOutside(m1, m3, lo, hi)
  {
  }

  // ----- strings -----

  function CString(s: Str): seq<Byte> { s + [0] }

  /** Bytes that a list of strings takes, terminators included. */
  function StringBytes(ss: seq<Str>): nat {
    if ss == [] then 0 else |ss[0]| + 1 + StringBytes(ss[1..])
  }

  /** Every string lies, terminated, at its address. */
  ghost predicate StringsAt(m: Mem, addrs: seq<U64>, ss: seq<Str>) {
    |addrs| == |ss| && forall i :: 0 <= i < |ss| ==> Lies(m, addrs[i], CString(ss[i]))
  }

  ghost predicate StringsWithin(addrs: seq<U64>, ss: seq<Str>, lo: int, hi: int) {
    |addrs| == |ss| && forall i :: 0 <= i < |ss| ==> lo <= addrs[i] && addrs[i] + |ss[i]| + 1 <= hi
  }

  lemma StringsFrame(m1: Mem, m2: Mem, lo: int, mid: int, hi: int, addrs: seq<U64>, ss: seq<Str>)
    requires SameOutside(m1, m2, lo, mid) && StringsAt(m1, addrs, ss) && StringsWithin(addrs, ss, mid, hi)
    ensures StringsAt(m2, addrs, ss)
  {
    forall i | 0 <= i < |ss| ensures Lies(m2, addrs[i], CString(ss[i])) {
      LiesFrame(m1, m2, lo, mid, addrs[i], CString(ss[i]));
    }
  }

  // ----- words -----

  /** Consecutive 64-bit words. */
  ghost predicate WordsAt(m: Mem, a: int, ws: seq<U64>) {
    && 0 <= a && a + 8 * |ws| <= TWO64
    && forall i :: 0 <= i < |ws| ==> Word(m, a + 8 * i) == ws[i]
  }

  lemma WordsFrame(m1: Mem, m2: Mem, lo: int, hi: int, a: int, ws: seq<U64>)
    requires SameOutside(m1, m2, lo, hi) && WordsAt(m1, a, ws) && (a + 8 * |ws| <= lo || hi <= a)
    ensures WordsAt(m2, a, ws)
  {
    hide Word;
    forall i | 0 <= i < |ws| ensures Word(m2, a + 8 * i) == ws[i] {
      WordFrame(m1, m2, a + 8 * i);
    }
  }

  lemma WordsJoin(m: Mem, a: int, ws1: seq<U64>, ws2: seq<U64>)
    requires WordsAt(m, a, ws1) && WordsAt(m, a + 8 * |ws1|, ws2)
    ensures WordsAt(m, a, ws1 + ws2)
  {
    hide Word;
    forall i | 0 <= i < |ws1 + ws2| ensures Word(m, a + 8 * i) == (ws1 + ws2)[i] {
      if i >= |ws1| { assert Word(m, a + 8 * |ws1| + 8 * (i - |ws1|)) == ws2[i - |ws1|]; }
    }
  }

  lemma WordsHead(m: Mem, a: int, ws: seq<U64>)
    requires WordsAt(m, a, ws) && ws != []
    ensures a < TWO64 && Word(m, a) == ws[0] && WordsAt(m, a + 8, ws[1..])
  {
    hide Word;
    assert Word(m, a + 8 * 0) == ws[0];
    assert [ws[0]] + ws[1..] == ws;
    WordsPart(m, a, [ws[0]], ws[1..]);
  }

  lemma WordsPart(m: Mem, a: int, ws1: seq<U64>, ws2: seq<U64>)
    requires WordsAt(m, a, ws1 + ws2)
    ensures WordsAt(m, a, ws1) && WordsAt(m, a + 8 * |ws1|, ws2)
  {
    hide Word;
    forall i | 0 <= i < |ws1| ensures Word(m, a + 8 * i) == ws1[i] {
      assert (ws1 + ws2)[i] == ws1[i];
    }
    forall i | 0 <= i < |ws2| ensures Word(m, a + 8 * |ws1| + 8 * i) == ws2[i] {
      assert (ws1 + ws2)[|ws1| + i] == ws2[i];
      assert a + 8 * |ws1| + 8 * i == a + 8 * (|ws1| + i);
    }
  }

  // ----- the auxiliary vector -----

  type Auxv = seq<(U64, U64)>

  function AuxvWords(aux: Auxv): (ws: seq<U64>)
    ensures |ws| == 2 * |aux|
  {
    if aux == [] then [] else [aux[0].0, aux[0].1] + AuxvWords(aux[1..])
  }

  /** Keys are never AT_NULL before the last entry, which is (AT_NULL, 0). */
  predicate TerminatedAuxv(aux: Auxv) {
    |aux| > 0 && aux[|aux| - 1] == (AT_NULL, 0) && forall i :: 0 <= i < |aux| - 1 ==> aux[i].0 != AT_NULL
  }

  function AuxvOf(image: GuestElfImage, randomAddr: U64, platformAddr: U64, execfnAddr: U64): (aux: Auxv)
    ensures |aux| == 19 && TerminatedAuxv(aux)
  {
    [(AT_PHDR, image.phdrAddr), (AT_PHENT, image.phEntSize), (AT_PHNUM, image.phNum),
     (AT_PAGESZ, GUEST_PAGE_SIZE), (AT_BASE, 0), (AT_FLAGS, 0), (AT_ENTRY, image.entry),
     (AT_UID, 1000), (AT_EUID, 1000), (AT_GID, 1000), (AT_EGID, 1000), (AT_SECURE, 0),
     (AT_CLKTCK, 100), (AT_HWCAP, 0), (AT_HWCAP2, 0),
     (AT_RANDOM, randomAddr), (AT_PLATFORM, platformAddr), (AT_EXECFN, execfnAddr), (AT_NULL, 0)]
  }

  /** The value of the first entry with the key; 0 when there is none. */
  function AuxValue(aux: Auxv, key: U64): U64 {
    if aux == [] then 0 else if aux[0].0 == key then aux[0].1 else AuxValue(aux[1..], key)
  }

  /** The vector by the numbers of its keys: the image's headers and entry point, page size 4096, no
      interpreter base, no flags, user and group 1000, not secure, 100 clock ticks a second, no hardware
      capabilities, the three pointers; AT_NULL comes last. */
  ghost predicate VectorSays(aux: Auxv, image: GuestElfImage, random: U64, platform: U64, execfn: U64) {
    && |aux| == 19 && TerminatedAuxv(aux)
    && AuxValue(aux, 3) == image.phdrAddr && AuxValue(aux, 4) == image.phEntSize && AuxValue(aux, 5) == image.phNum
    && AuxValue(aux, 6) == 4096 && AuxValue(aux, 7) == 0 && AuxValue(aux, 8) == 0 && AuxValue(aux, 9) == image.entry
    && AuxValue(aux, 11) == 1000 && AuxValue(aux, 12) == 1000 && AuxValue(aux, 13) == 1000 && AuxValue(aux, 14) == 1000
    && AuxValue(aux, 15) == platform && AuxValue(aux, 16) == 0 && AuxValue(aux, 17) == 100 && AuxValue(aux, 23) == 0
    && AuxValue(aux, 25) == random && AuxValue(aux, 26) == 0 && AuxValue(aux, 31) == execfn
  }

  lemma KeyFinds(aux: Auxv, k: nat)
    requires k < |aux| && forall i :: 0 <= i < k ==> aux[i].0 != aux[k].0
    ensures AuxValue(aux, aux[k].0) == aux[k].1
  {
    AuxTail(aux, k, aux[k].0);
  }

  lemma KeysDistinct(image: GuestElfImage, random: U64, platform: U64, execfn: U64)
    ensures var aux := AuxvOf(image, random, platform, execfn); forall i, k :: 0 <= i < k < |aux| ==> aux[i].0 != aux[k].0
  {
  }

  lemma AuxValues(image: GuestElfImage, random: U64, platform: U64, execfn: U64)
    ensures VectorSays(AuxvOf(image, random, platform, execfn), image, random, platform, execfn)
  {
    var aux := AuxvOf(image, random, platform, execfn);
    KeysDistinct(image, random, platform, execfn);
    hide AuxValue;
    forall k | 0 <= k < |aux| ensures AuxValue(aux, aux[k].0) == aux[k].1 { KeyFinds(aux, k); }
    assert aux[0].0 == 3 && aux[1].0 == 4 && aux[2].0 == 5 && aux[3].0 == 6 && aux[4].0 == 7 && aux[5].0 == 8;
    assert aux[6].0 == 9 && aux[7].0 == 11 && aux[8].0 == 12 && aux[9].0 == 13 && aux[10].0 == 14 && aux[11].0 == 23;
    assert aux[12].0 == 17 && aux[13].0 == 16 && aux[14].0 == 26 && aux[15].0 == 25 && aux[16].0 == 15 && aux[17].0 == 31;
  }

  lemma {:induction false} AuxTail(aux: Auxv, k: nat, key: U64)
    requires k < |aux| && aux[k].0 == key && forall i :: 0 <= i < k ==> aux[i].0 != key
    ensures AuxValue(aux, key) == aux[k].1
    decreases k
  {
    if k > 0 { AuxTail(aux[1..], k - 1, key); }
  }

  // ----- reading the stack back -----

  /** The bytes up to the first NUL, at most limit of them. */
  function Visible(s: Str, limit: nat): Str
    decreases limit
  {
    if limit == 0 || s == [] || s[0] == 0 then [] else [s[0]] + Visible(s[1..], limit - 1)
  }

  function VisibleAll(ss: seq<Str>, limit: nat): (vs: seq<Str>)
    ensures |vs| == |ss| && forall i :: 0 <= i < |ss| ==> vs[i] == Visible(ss[i], limit)
  {
    if ss == [] then [] else [Visible(ss[0], limit)] + VisibleAll(ss[1..], limit)
  }

  lemma {:induction false} VisibleIsAll(s: Str, limit: nat)
    requires 0 !in s && |s| <= limit
    ensures Visible(s, limit) == s
    decreases limit
  {
    if s != [] {
      assert s[0] in s && forall b :: b in s[1..] ==> b in s;
      VisibleIsAll(s[1..], limit - 1);
    }
  }

  /** Reading a string byte by byte, stopping at a NUL, an unmapped byte, or the limit. */
  ghost function ReadCString(rs: seq<Region>, m: Mem, a: U64, limit: nat): Str
    decreases limit
  {
    if limit == 0 || !IsMapped(rs, a, 1) || GetByte(m, a) == 0 then []
    else [GetByte(m, a)] + ReadCString(rs, m, Add(a, 1), limit - 1)
  }

  /** The number of words before the first zero, at most limit. */
  function CountToNull(m: Mem, p: U64, limit: nat): nat
    decreases limit
  {
    if limit == 0 || Word(m, p) == 0 then 0 else 1 + CountToNull(m, Add(p, 8), limit - 1)
  }

  /** The strings that n consecutive pointers point at. */
  ghost function ReadStrings(rs: seq<Region>, m: Mem, p: U64, n: nat, limit: nat): seq<Str>
    decreases n
  {
    if n == 0 then [] else [ReadCString(rs, m, Word(m, p), limit)] + ReadStrings(rs, m, Add(p, 8), n - 1, limit)
  }

  /** Auxiliary entries up to and including AT_NULL, at most limit. */
  function ReadAuxv(m: Mem, p: U64, limit: nat): Auxv
    decreases limit
  {
    if limit == 0 then []
    else
      var entry := (Word(m, p), Word(m, Add(p, 8)));
      if entry.0 == AT_NULL then [entry] else [entry] + ReadAuxv(m, Add(p, 16), limit - 1)
  }

  /** Part of a mapped stretch is mapped. */
  lemma MappedWithin(rs: seq<Region>, lo: U64, n: U64, a: U64, k: U64)
    requires ValidRegions(rs) && lo + n <= TWO64 && BytesMapped(rs, lo, n)
    requires lo <= a && a + k <= lo + n
    ensures BytesMapped(rs, a, k) && IsMapped(rs, a, k)
  {
    IsMappedMeansBytes(rs, a, k);
  }

  lemma {:induction false} CStringReadsBack(rs: seq<Region>, m: Mem, a: U64, s: Str, limit: nat)
    requires ValidRegions(rs) && a + |s| + 1 < TWO64
    requires Lies(m, a, CString(s)) && BytesMapped(rs, a, |s| + 1)
    ensures ReadCString(rs, m, a, limit) == Visible(s, limit)
    decreases limit
  {
    hide IsMapped, Mapped, Add;
    LiesTail(m, a, CString(s));
    MappedWithin(rs, a, |s| + 1, a, 1);
    AddPlain(a, 1);
    if limit > 0 && s != [] && s[0] != 0 {
      MappedWithin(rs, a, |s| + 1, a + 1, |s|);
      assert CString(s)[1..] == CString(s[1..]);
      CStringReadsBack(rs, m, a + 1, s[1..], limit - 1);
    }
  }

  lemma {:induction false} PointersCount(m: Mem, p: U64, ws: seq<U64>, limit: nat)
    requires WordsAt(m, p, ws + [0]) && (forall w :: w in ws ==> w != 0) && limit >= |ws|
    ensures CountToNull(m, p, limit) == |ws|
    decreases |ws|
  {
    hide Word, Add;
    WordsHead(m, p, ws + [0]);
    AddPlain(p, 8);
    if ws != [] {
      assert (ws + [0])[1..] == ws[1..] + [0] && (forall w :: w in ws[1..] ==> w in ws) && ws[0] in ws;
      PointersCount(m, p + 8, ws[1..], limit - 1);
    }
  }

  lemma StringsHead(m: Mem, addrs: seq<U64>, ss: seq<Str>, lo: int, hi: int)
    requires StringsAt(m, addrs, ss) && StringsWithin(addrs, ss, lo, hi) && ss != []
    ensures addrs != [] && Lies(m, addrs[0], CString(ss[0])) && lo <= addrs[0] && addrs[0] + |ss[0]| + 1 <= hi
    ensures StringsAt(m, addrs[1..], ss[1..]) && StringsWithin(addrs[1..], ss[1..], lo, hi)
  {
    hide Lies;
  }

  lemma {:induction false} StringsReadBack(rs: seq<Region>, m: Mem, p: U64, addrs: seq<U64>, ss: seq<Str>, lo: U64, hi: U64, limit: nat)
    requires ValidRegions(rs) && WordsAt(m, p, addrs) && p + 8 * |addrs| < TWO64
    requires StringsAt(m, addrs, ss) && StringsWithin(addrs, ss, lo, hi)
    requires lo <= hi && BytesMapped(rs, lo, hi - lo)
    ensures ReadStrings(rs, m, p, |ss|, limit) == VisibleAll(ss, limit)
    decreases |ss|
  {
    hide Word, Add, ReadCString, Lies, BytesMapped, ValidRegions, StringsAt, WordsAt, Visible;
    if ss != [] {
      StringsHead(m, addrs, ss, lo, hi);
      MappedWithin(rs, lo, hi - lo, addrs[0], |ss[0]| + 1);
      CStringReadsBack(rs, m, addrs[0], ss[0], limit);
      WordsHead(m, p, addrs);
      AddPlain(p, 8);
      StringsReadBack(rs, m, p + 8, addrs[1..], ss[1..], lo, hi, limit);
    }
  }

  lemma {:induction false} AuxvReadsBack(m: Mem, p: U64, aux: Auxv, limit: nat)
    requires TerminatedAuxv(aux) && WordsAt(m, p, AuxvWords(aux)) && p + 16 * |aux| < TWO64 && limit >= |aux|
    ensures ReadAuxv(m, p, limit) == aux
    decreases |aux|
  {
    hide Word, Add;
    var w := AuxvWords(aux);
    WordsHead(m, p, w);
    WordsHead(m, p + 8, w[1..]);
    AddPlain(p, 8);
    AddPlain(p, 16);
    assert w[1..][1..] == AuxvWords(aux[1..]);
    if |aux| > 1 {
      AuxvReadsBack(m, p + 16, aux[1..], limit - 1);
    }
  }
}
