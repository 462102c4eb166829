/** Walking the initial stack, as a started program or the loader's own report does, and what the walk finds. */
module StackReader {
  import opened Wrappers
  import opened Bits
  import opened Regions
  import opened ByteStore
  import opened Elf
  import opened StackLayout
  import opened Memory
  import opened GuestStack

  /** All a program can learn by walking up from its stack pointer. */
  datatype Recovered = Recovered(argc: U64, argNull: U64, args: seq<Str>, envs: seq<Str>, envNull: U64, aux: Auxv,
                                 execfn: Str, platform: Str, random: seq<Byte>)

  /** The walk: strings are cut after `limit` bytes, pointer lists and the auxiliary vector after `slots` entries. */
  ghost function Recover(rs: seq<Region>, m: Mem, rsp: U64, limit: nat, slots: nat): Recovered {
    var argc := Word(m, rsp);
    var argvAddr, envpAddr := Add(rsp, 8), Add(rsp, 8 * (argc + 2));
    var envc := CountToNull(m, envpAddr, slots);
    var aux := ReadAuxv(m, Add(rsp, 8 * (argc + envc + 3)), slots);
    Recovered(argc, Word(m, Add(rsp, 8 * (argc + 1))), ReadStrings(rs, m, argvAddr, argc, limit),
              ReadStrings(rs, m, envpAddr, envc, limit), Word(m, Add(rsp, 8 * (argc + envc + 2))), aux,
              ReadCString(rs, m, AuxValue(aux, AT_EXECFN), limit),
              ReadCString(rs, m, AuxValue(aux, AT_PLATFORM), limit),
              ReadBytes(m, AuxValue(aux, AT_RANDOM), RANDOM_BYTES))
  }

  lemma BlockShape(args: seq<U64>, envs: seq<U64>, aux: Auxv)
    requires |args| < TWO64
    ensures Block(args, envs, aux) == [|args|] + ((args + [0]) + ((envs + [0]) + AuxvWords(aux)))
  {
  }

  lemma FourParts(m: Mem, p: U64, a: seq<U64>, b: seq<U64>, c: seq<U64>, d: seq<U64>)
    requires WordsAt(m, p, a + (b + (c + d)))
    ensures p + 8 * (|a| + |b| + |c| + |d|) <= TWO64
    ensures WordsAt(m, p, a) && WordsAt(m, p + 8 * |a|, b)
    ensures WordsAt(m, p + 8 * (|a| + |b|), c) && WordsAt(m, p + 8 * (|a| + |b| + |c|), d)
  {
    WordsFit(m, p, a + (b + (c + d)));
    hide WordsAt;
    WordsPart(m, p, a, b + (c + d));
    WordsPart(m, p + 8 * |a|, b, c + d);
    WordsPart(m, p + 8 * (|a| + |b|), c, d);
  }

  /** The parts of the word block, each at its address. */
  lemma BlockParts(m: Mem, rsp: U64, args: seq<U64>, envs: seq<U64>, aux: Auxv)
    requires |args| < TWO64 && WordsAt(m, rsp, Block(args, envs, aux))
    ensures rsp + 8 * (|args| + |envs| + 3) + 16 * |aux| <= TWO64
    ensures WordsAt(m, rsp, [|args|])
    ensures WordsAt(m, rsp + 8, args + [0])
    ensures WordsAt(m, rsp + 8 * (|args| + 2), envs + [0])
    ensures WordsAt(m, rsp + 8 * (|args| + |envs| + 3), AuxvWords(aux))
  {
    hide WordsAt, AuxvWords, Block;
    BlockShape(args, envs, aux);
    FourParts(m, rsp, [|args|], args + [0], envs + [0], AuxvWords(aux));
  }

  lemma WordsFit(m: Mem, p: int, ws: seq<U64>)
    requires WordsAt(m, p, ws)
    ensures 0 <= p && p + 8 * |ws| <= TWO64
  {
  }

  lemma WordOf(m: Mem, p: U64, ws: seq<U64>, v: U64)
    requires WordsAt(m, p, ws + [v])
    ensures WordsAt(m, p, ws) && p + 8 * |ws| < TWO64 && Word(m, p + 8 * |ws|) == v
  {
    hide Word;
    WordsPart(m, p, ws, [v]);
    assert Word(m, p + 8 * |ws| + 8 * 0) == [v][0];
  }

  /** A null-terminated pointer list reads back: the terminator ends the count, and each string is found. */
  lemma ListReadsBack(rs: seq<Region>, m: Mem, p: U64, addrs: seq<U64>, ss: seq<Str>, lo: U64, hi: U64, limit: nat, slots: nat)
    requires ValidRegions(rs) && WordsAt(m, p, addrs + [0]) && p + 8 * |addrs| + 8 < TWO64
    requires StringsAt(m, addrs, ss) && StringsWithin(addrs, ss, lo, hi)
    requires 0 < lo <= hi && BytesMapped(rs, lo, hi - lo)
    ensures Word(m, p + 8 * |addrs|) == 0
    ensures slots >= |ss| ==> CountToNull(m, p, slots) == |ss|
    ensures ReadStrings(rs, m, p, |ss|, limit) == VisibleAll(ss, limit)
  {
    WordOf(m, p, addrs, 0);
    StringsReadBack(rs, m, p, addrs, ss, lo, hi, limit);
    hide WordsAt, Word, StringsAt, ReadStrings, CountToNull;
    if slots >= |ss| { PointersCount(m, p, addrs, slots); }
  }

  lemma OneReadsBack(rs: seq<Region>, m: Mem, a: U64, s: Str, lo: U64, hi: U64, limit: nat)
    requires ValidRegions(rs) && StringsAt(m, [a], [s]) && StringsWithin([a], [s], lo, hi)
    requires lo <= hi && BytesMapped(rs, lo, hi - lo)
    ensures ReadCString(rs, m, a, limit) == Visible(s, limit)
  {
    StringsHead(m, [a], [s], lo, hi);
    hide Lies, BytesMapped, StringsAt, ReadCString, Visible;
    MappedWithin(rs, lo, hi - lo, a, |s| + 1);
    CStringReadsBack(rs, m, a, s, limit);
  }

  lemma PlacedParts(m: Mem, pl: Placement, path: Str, argv: seq<Str>, envp: seq<Str>, lo: int, hi: int)
    requires StringsPlaced(m, pl, path, argv, envp, lo, hi)
    ensures StringsAt(m, [pl.execfn], [path]) && StringsWithin([pl.execfn], [path], lo, hi)
    ensures StringsAt(m, [pl.platform], [PLATFORM]) && StringsWithin([pl.platform], [PLATFORM], lo, hi)
    ensures StringsAt(m, pl.envAddrs, envp) && StringsWithin(pl.envAddrs, envp, lo, hi)
    ensures StringsAt(m, pl.argAddrs, argv) && StringsWithin(pl.argAddrs, argv, lo, hi)
  {
    hide StringsAt, StringsWithin;
  }

  /** What each part of the word block yields, at the addresses the walk computes. */
  ghost predicate BlockYields(rs: seq<Region>, m: Mem, rsp: U64, argv: seq<Str>, envp: seq<Str>, aux: Auxv, limit: nat, slots: nat) {
    var argc, envc := |argv|, |envp|;
    && Word(m, rsp) == argc
    && ReadStrings(rs, m, Add(rsp, 8), argc, limit) == VisibleAll(argv, limit)
    && Word(m, Add(rsp, 8 * (argc + 1))) == 0
    && CountToNull(m, Add(rsp, 8 * (argc + 2)), slots) == envc
    && ReadStrings(rs, m, Add(rsp, 8 * (argc + 2)), envc, limit) == VisibleAll(envp, limit)
    && Word(m, Add(rsp, 8 * (argc + envc + 2))) == 0
    && ReadAuxv(m, Add(rsp, 8 * (argc + envc + 3)), slots) == aux
  }

  lemma BlockReadsBack(rs: seq<Region>, m: Mem, rsp: U64, args: seq<U64>, envs: seq<U64>, aux: Auxv,
                       argv: seq<Str>, envp: seq<Str>, lo: U64, hi: U64, limit: nat, slots: nat)
    requires |args| < TWO64 && WordsAt(m, rsp, Block(args, envs, aux))
    requires rsp + 8 * (|args| + |envs| + 3) + 16 * |aux| < TWO64
    requires ValidRegions(rs) && 0 < lo <= hi && BytesMapped(rs, lo, hi - lo)
    requires StringsAt(m, args, argv) && StringsWithin(args, argv, lo, hi) && |args| == |argv|
    requires StringsAt(m, envs, envp) && StringsWithin(envs, envp, lo, hi) && |envs| == |envp|
    requires TerminatedAuxv(aux) && slots >= |aux| && slots >= |envp|
    ensures BlockYields(rs, m, rsp, argv, envp, aux, limit, slots)
  {
    hide StringsAt, StringsWithin, WordsAt, Word, ReadStrings, CountToNull, ReadAuxv, VisibleAll, ValidRegions,
      AuxvWords, Add, Block, BytesMapped, TerminatedAuxv;
    BlockParts(m, rsp, args, envs, aux);
    WordsHead(m, rsp, [|args|]);
    ListReadsBack(rs, m, rsp + 8, args, argv, lo, hi, limit, slots);
    ListReadsBack(rs, m, rsp + 8 * (|args| + 2), envs, envp, lo, hi, limit, slots);
    AuxvReadsBack(m, rsp + 8 * (|args| + |envs| + 3), aux, slots);
    AddPlain(rsp, 8);
    AddPlain(rsp, 8 * (|argv| + 1));
    AddPlain(rsp, 8 * (|argv| + 2));
    AddPlain(rsp, 8 * (|argv| + |envp| + 2));
    AddPlain(rsp, 8 * (|argv| + |envp| + 3));
  }

  /** What the auxiliary vector points at. */
  ghost predicate AuxYields(rs: seq<Region>, m: Mem, aux: Auxv, pl: Placement, path: Str, limit: nat) {
    && ReadCString(rs, m, AuxValue(aux, AT_EXECFN), limit) == Visible(path, limit)
    && ReadCString(rs, m, AuxValue(aux, AT_PLATFORM), limit) == Visible(PLATFORM, limit)
    && AuxValue(aux, AT_RANDOM) == pl.random
  }

  lemma AuxReadsBack(rs: seq<Region>, m: Mem, pl: Placement, image: GuestElfImage, lo: U64, hi: U64, limit: nat)
    requires ValidRegions(rs) && lo <= hi && BytesMapped(rs, lo, hi - lo)
    requires VectorSays(pl.aux, image, pl.random, pl.platform, pl.execfn)
    requires StringsAt(m, [pl.execfn], [image.path]) && StringsWithin([pl.execfn], [image.path], lo, hi)
    requires StringsAt(m, [pl.platform], [PLATFORM]) && StringsWithin([pl.platform], [PLATFORM], lo, hi)
    ensures AuxYields(rs, m, pl.aux, pl, image.path, limit)
  {
    hide StringsAt, StringsWithin, ReadCString, Visible, ValidRegions, BytesMapped, AuxValue;
    assert AT_EXECFN == 31 && AT_PLATFORM == 15 && AT_RANDOM == 25;
    OneReadsBack(rs, m, pl.execfn, image.path, lo, hi, limit);
    OneReadsBack(rs, m, pl.platform, PLATFORM, lo, hi, limit);
  }

  lemma RecoverOf(rs: seq<Region>, m: Mem, rsp: U64, argv: seq<Str>, envp: seq<Str>, aux: Auxv, pl: Placement, path: Str, limit: nat, slots: nat)
    requires |argv| < TWO64 && BlockYields(rs, m, rsp, argv, envp, aux, limit, slots) && AuxYields(rs, m, aux, pl, path, limit)
    ensures Recover(rs, m, rsp, limit, slots) ==
            Recovered(|argv|, 0, VisibleAll(argv, limit), VisibleAll(envp, limit), 0, aux,
                      Visible(path, limit), Visible(PLATFORM, limit), ReadBytes(m, pl.random, 16))
  {
    hide Word, ReadStrings, ReadCString, CountToNull, ReadAuxv, Visible, VisibleAll, ReadBytes, Add, AuxValue;
  }

  /** The laid-out stack round-trips: walking up from rsp alone gives back every argument and environment
      string as far as a C string shows it, both terminators, the auxiliary vector with the value of every
      key, the path, the platform's name "x86_64" and the sixteen bytes the vector points at. */
  lemma StackRoundTrips(rs: seq<Region>, m: Mem, stack: GuestStackImage, pl: Placement, image: GuestElfImage,
                        argv: seq<Str>, envp: seq<Str>, limit: nat, slots: nat)
    requires ValidRegions(rs) && stack.low <= stack.top && BytesMapped(rs, stack.low, stack.top - stack.low)
    requires Laid(m, stack, pl, image, argv, envp) && slots >= |envp| && slots >= 19
    ensures var found := Recover(rs, m, stack.rsp, limit, slots);
            && found.argc == |argv| && found.args == VisibleAll(argv, limit) && found.argNull == 0
            && found.envs == VisibleAll(envp, limit) && found.envNull == 0
            && VectorSays(found.aux, image, pl.random, pl.platform, pl.execfn)
            && found.execfn == Visible(image.path, limit) && found.platform == Visible(PLATFORM, limit)
            && FixedRandom(found.random)
  {
    var lo, hi := pl.random + RANDOM_BYTES, stack.top;
    hide StringsPlaced, StringsAt, StringsWithin, WordsAt, BlockYields, AuxYields, Recover, VisibleAll, Visible,
      ValidRegions, FixedRandom, AuxValue, AuxvWords, Block, TerminatedAuxv, ReadBytes;
    MappedWithin(rs, stack.low, stack.top - stack.low, lo, hi - lo);
    hide BytesMapped, IsMapped;
    PlacedParts(m, pl, image.path, argv, envp, lo, hi);
    BlockReadsBack(rs, m, stack.rsp, pl.argAddrs, pl.envAddrs, pl.aux, argv, envp, lo, hi, limit, slots);
    AuxReadsBack(rs, m, pl, image, lo, hi, limit);
    RecoverOf(rs, m, stack.rsp, argv, envp, pl.aux, pl, image.path, limit, slots);
  }

  /** Strings without NULs that fit the limit come back whole. */
  lemma {:induction false} VerbatimStrings(ss: seq<Str>, limit: nat)
    requires forall s :: s in ss ==> 0 !in s && |s| <= limit
    ensures VisibleAll(ss, limit) == ss
  {
    if ss != [] {
      VisibleIsAll(ss[0], limit);
      VerbatimStrings(ss[1..], limit);
    }
  }

  // ----- the loader's own report -----

  const STRING_LIMIT := 128
  const ARGS_SHOWN := 8
  const ENVS_SHOWN := 3

  method ReadGuestString(mem: GuestMemory, addr: U64, limit: nat) returns (s: Str)
    ensures s == ReadCString(mem.regions, mem.bytes, addr, limit)
  {
    s := [];
    var at := addr;
    for i := 0 to limit
      invariant s + ReadCString(mem.regions, mem.bytes, at, limit - i) == ReadCString(mem.regions, mem.bytes, addr, limit)
    {
      hide IsMapped, Add;
      var mapped := mem.CheckMapped(at, 1);
      if !mapped || GetByte(mem.bytes, at) == 0 {
        return;
      }
      assert s + ([GetByte(mem.bytes, at)] + ReadCString(mem.regions, mem.bytes, Add(at, 1), limit - i - 1)) ==
             (s + [GetByte(mem.bytes, at)]) + ReadCString(mem.regions, mem.bytes, Add(at, 1), limit - i - 1);
      s, at := s + [GetByte(mem.bytes, at)], Add(at, 1);
    }
  }

  /** A word of a mapped list is read. */
  lemma ReadsWord(rs: seq<Region>, m: Mem, p: U64, ws: seq<U64>, k: nat)
    requires ValidRegions(rs) && k < |ws| && WordsAt(m, p, ws)
    requires p + 8 * |ws| < TWO64 && BytesMapped(rs, p, 8 * |ws|)
    ensures IsMapped(rs, p + 8 * k, 8) && Word(m, p + 8 * k) == ws[k]
  {
    hide Word, IsMapped;
    MappedWithin(rs, p, 8 * |ws|, p + 8 * k, 8);
  }

  lemma StringAtIndex(rs: seq<Region>, m: Mem, addrs: seq<U64>, ss: seq<Str>, i: nat, lo: U64, hi: U64, limit: nat)
    requires ValidRegions(rs) && i < |ss| && StringsAt(m, addrs, ss) && StringsWithin(addrs, ss, lo, hi)
    requires lo <= hi && BytesMapped(rs, lo, hi - lo)
    ensures |addrs| == |ss| && ReadCString(rs, m, addrs[i], limit) == Visible(ss[i], limit)
  {
    hide Lies, Visible, ReadCString, BytesMapped;
    OneReadsBack(rs, m, addrs[i], ss[i], lo, hi, limit);
  }

  lemma VisibleNext(ss: seq<Str>, i: nat, limit: nat)
    requires i < |ss|
    ensures VisibleAll(ss[..i + 1], limit) == VisibleAll(ss[..i], limit) + [Visible(ss[i], limit)]
  {
    hide Visible;
  }

  /** Reads the first strings of a pointer list. */
  method ReadFirst(mem: GuestMemory, p: U64, n: nat, ghost addrs: seq<U64>, ghost ss: seq<Str>, ghost lo: U64, ghost hi: U64)
    returns (r: Result<seq<Str>>)
    requires mem.Valid() && n <= |ss| && WordsAt(mem.bytes, p, addrs + [0]) && lo <= hi
    requires StringsAt(mem.bytes, addrs, ss) && StringsWithin(addrs, ss, lo, hi)
    requires p + 8 * |addrs| + 8 < TWO64 && BytesMapped(mem.regions, p, 8 * |addrs| + 8)
    requires BytesMapped(mem.regions, lo, hi - lo)
    ensures r == Success(VisibleAll(ss[..n], STRING_LIMIT))
  {
    hide Word, IsMapped, ReadCString, Visible, VisibleAll, WordsAt, StringsAt, StringsWithin, ValidRegions, BytesMapped;
    var shown := [];
    assert VisibleAll(ss[..0], STRING_LIMIT) == [];
    for i := 0 to n
      invariant shown == VisibleAll(ss[..i], STRING_LIMIT)
    {
      StringAtIndex(mem.regions, mem.bytes, addrs, ss, i, lo, hi, STRING_LIMIT);
      ReadsWord(mem.regions, mem.bytes, p, addrs + [0], i);
      assert (addrs + [0])[i] == addrs[i];
      var ptr :- mem.Read64(p + 8 * i);
      var s := ReadGuestString(mem, ptr, STRING_LIMIT);
      VisibleNext(ss, i, STRING_LIMIT);
      shown := shown + [s];
    }
    return Success(shown);
  }

  lemma NullEnds(addrs: seq<U64>, n: nat)
    requires n <= |addrs| && forall a :: a in addrs ==> a != 0
    ensures (addrs + [0])[n] == 0 <==> n == |addrs|
  {
    if n < |addrs| { assert addrs[n] in addrs; }
  }

  /** Counts the pointers before the null. */
  method CountPointers(mem: GuestMemory, p: U64, ghost addrs: seq<U64>) returns (r: Result<nat>)
    requires mem.Valid() && WordsAt(mem.bytes, p, addrs + [0]) && (forall a :: a in addrs ==> a != 0)
    requires p + 8 * |addrs| + 8 < TWO64 && BytesMapped(mem.regions, p, 8 * |addrs| + 8)
    ensures r == Success(|addrs|)
  {
    hide Word, IsMapped, WordsAt, ValidRegions, BytesMapped;
    var n := 0;
    while true
      invariant n <= |addrs|
      decreases |addrs| - n
    {
      ReadsWord(mem.regions, mem.bytes, p, addrs + [0], n);
      NullEnds(addrs, n);
      var w :- mem.Read64(p + 8 * n);
      if w == 0 {
        break;
      }
      n := n + 1;
    }
    return Success(n);
  }

  /** Reads the auxiliary vector up to and including AT_NULL. */
  method WalkAuxv(mem: GuestMemory, p: U64, ghost aux: Auxv) returns (r: Result<Auxv>)
    requires mem.Valid() && TerminatedAuxv(aux) && WordsAt(mem.bytes, p, AuxvWords(aux))
    requires p + 16 * |aux| < TWO64 && BytesMapped(mem.regions, p, 16 * |aux|)
    ensures r == Success(aux)
  {
    hide Word, IsMapped, AuxvWords, WordsAt, ValidRegions, BytesMapped;
    var found: Auxv := [];
    while true
      invariant |found| < |aux| && found == aux[..|found|]
      decreases |aux| - |found|
    {
      var k := |found|;
      AuxvWordAt(aux, k);
      ReadsWord(mem.regions, mem.bytes, p, AuxvWords(aux), 2 * k);
      ReadsWord(mem.regions, mem.bytes, p, AuxvWords(aux), 2 * k + 1);
      var key :- mem.Read64(p + 16 * k);
      var value :- mem.Read64(p + 16 * k + 8);
      found := found + [(key, value)];
      assert aux[..k + 1] == aux[..k] + [aux[k]];
      if key == AT_NULL {
        break;
      }
    }
    assert aux[..|aux|] == aux;
    return Success(found);
  }

  lemma {:induction false} AuxvWordAt(aux: Auxv, k: nat)
    requires k < |aux|
    ensures AuxvWords(aux)[2 * k] == aux[k].0 && AuxvWords(aux)[2 * k + 1] == aux[k].1
  {
    if k > 0 { AuxvWordAt(aux[1..], k - 1); }
  }

  datatype Report = Report(argc: U64, args: seq<Str>, envCount: nat, envs: seq<Str>, aux: Auxv)

  function First<T>(s: seq<T>, n: nat): seq<T> {
    if |s| < n then s else s[..n]
  }

  /** The report on a stack that was laid out shows its arguments, its environment and its vector. */
  method DescribeStack(mem: GuestMemory, stack: GuestStackImage, ghost pl: Placement, ghost image: GuestElfImage,
                       ghost argv: seq<Str>, ghost envp: seq<Str>)
    returns (r: Result<Report>)
    requires mem.Valid() && stack.low <= stack.top && BytesMapped(mem.regions, stack.low, stack.top - stack.low)
    requires Laid(mem.bytes, stack, pl, image, argv, envp)
    ensures r.Success? && VectorSays(r.value.aux, image, pl.random, pl.platform, pl.execfn)
    ensures r.value == Report(|argv|, VisibleAll(First(argv, 8), 128), |envp|, VisibleAll(First(envp, 3), 128), r.value.aux)
  {
    ghost var rsp, size := stack.rsp, stack.top - stack.low;
    ghost var aux := pl.aux;
    ghost var lo, hi: U64 := pl.random + RANDOM_BYTES, stack.top;
    hide StringsPlaced, StringsAt, StringsWithin, WordsAt, Lies, Word, IsMapped, VisibleAll, Visible, ReadCString,
      FixedRandom, AuxValue, AuxvWords, Block, TerminatedAuxv;
    PlacedParts(mem.bytes, pl, image.path, argv, envp, lo, hi);
    BlockParts(mem.bytes, rsp, pl.argAddrs, pl.envAddrs, aux);
    WordsHead(mem.bytes, rsp, [|argv|]);
    MappedWithin(mem.regions, stack.low, size, rsp, 8);
    var argc :- mem.Read64(stack.rsp);
    var args :- ReadFirst(mem, stack.argvAddr, if argc < ARGS_SHOWN then argc else ARGS_SHOWN, pl.argAddrs, argv, lo, hi);
    PointersNotNull(pl.envAddrs, envp, lo, hi);
    var envCount :- CountPointers(mem, stack.envpAddr, pl.envAddrs);
    var envs :- ReadFirst(mem, stack.envpAddr, if envCount < ENVS_SHOWN then envCount else ENVS_SHOWN, pl.envAddrs, envp, lo, hi);
    var found :- WalkAuxv(mem, stack.auxvAddr, aux);
    assert argv[..|argv|] == argv && envp[..|envp|] == envp;
    return Success(Report(argc, args, envCount, envs, found));
  }

  lemma PointersNotNull(addrs: seq<U64>, ss: seq<Str>, lo: U64, hi: U64)
    requires StringsWithin(addrs, ss, lo, hi) && lo > 0
    ensures forall a :: a in addrs ==> a != 0
  {
  }
}
