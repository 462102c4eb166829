/** Building the initial stack: strings first, downwards from the top, then the word block. */
module GuestStack {
  import opened Wrappers
  import opened Bits
  import opened Regions
  import opened ByteStore
  import opened Elf
  import opened StackLayout
  import opened Memory

  const STACK_ALIGN := 16
  const RANDOM_BYTES := 16
  const PLATFORM: Str := [120, 56, 54, 95, 54, 52]  // "x86_64"

  datatype GuestStackImage = GuestStackImage(low: U64, top: U64, size: U64, rsp: U64,
                                             argvAddr: U64, envpAddr: U64, auxvAddr: U64, argc: nat)

  function AlignDown16(v: int): (r: int)
    ensures r % 16 == 0 && r <= v < r + 16
    ensures v >= 0 ==> r >= 0
  {
    v - v % STACK_ALIGN
  }

  /** The fixed bytes behind AT_RANDOM. */
  function RandomBytes(): (s: seq<Byte>)
    ensures |s| == RANDOM_BYTES
  {
    seq<Byte>(RANDOM_BYTES, i requires 0 <= i < RANDOM_BYTES => BitXor(0xA5, i * 31) % 256)
  }

  /** Sixteen bytes: bit for bit, 0xA5 exclusive-or 31 times the position. */
  ghost predicate FixedRandom(s: seq<Byte>) {
    |s| == 16 && forall i, k :: 0 <= i < 16 && 0 <= k < 8 ==> (Bit(s[i], k) <==> (Bit(0xA5, k) != Bit(31 * i, k)))
  }

  lemma RandomBits()
    ensures FixedRandom(RandomBytes())
  {
    hide Bit, BitXor;
    forall i, k | 0 <= i < 16 && 0 <= k < 8 ensures Bit(RandomBytes()[i], k) <==> (Bit(0xA5, k) != Bit(31 * i, k)) {
      BitwiseMeaning(0xA5, i * 31, k);
      LowBits(BitXor(0xA5, i * 31), k);
    }
  }

  /** A truncated byte keeps its low bits. */
  lemma LowBits(v: nat, k: nat)
    requires k < 8
    ensures Bit(v % 256, k) <==> Bit(v, k)
  {
    BitOfModulus(v, k, 8);
  }

  function Reversed<T>(s: seq<T>): (r: seq<T>)
    ensures |r| == |s| && forall i :: 0 <= i < |s| ==> r[i] == s[|s| - 1 - i]
  {
    seq(|s|, i requires 0 <= i < |s| => s[|s| - 1 - i])
  }

  /** The words from argc to the last auxiliary entry. */
  function SlotCount(argc: nat, envc: nat): nat {
    1 + argc + 1 + envc + 1 + 2 * 19
  }

  /** Where the cursor stands after all strings, and after the random bytes. */
  function StringsEnd(top: int, path: Str, argv: seq<Str>, envp: seq<Str>): int {
    top - (|path| + 1) - (|PLATFORM| + 1) - StringBytes(envp) - StringBytes(argv)
  }

  function RandomAddr(top: int, path: Str, argv: seq<Str>, envp: seq<Str>): int {
    AlignDown16(StringsEnd(top, path, argv, envp)) - RANDOM_BYTES
  }

  function StackPointer(top: int, path: Str, argv: seq<Str>, envp: seq<Str>): int {
    AlignDown16(RandomAddr(top, path, argv, envp) - 8 * SlotCount(|argv|, |envp|))
  }

  // ----- the pieces of the builder -----

  method PushString(mem: GuestMemory, cursor: U64, s: Str) returns (r: Result<U64>)
    requires mem.Valid() && |s| + 1 <= cursor
    modifies mem`bytes
    ensures var a := cursor - |s| - 1;
            && (BytesMapped(mem.regions, a, |s| + 1) ==> r.Success?)
            && (r.Success? ==> r.value == a && Lies(mem.bytes, a, CString(s))
                               && SameOutside(old(mem.bytes), mem.bytes, a, cursor))
  {
    var a := cursor - |s| - 1;
    IsMappedMeansBytes(mem.regions, a, |s| + 1);
    :- mem.Write(a, CString(s));
    return Success(a);
  }

  lemma StringsCons(m1: Mem, m2: Mem, a: U64, s: Str, addrs: seq<U64>, ss: seq<Str>, mid: U64, hi: int)
    requires StringsAt(m1, addrs, ss) && StringsWithin(addrs, ss, mid, hi)
    requires SameOutside(m1, m2, a, mid) && a + |s| + 1 == mid <= hi && Lies(m2, a, CString(s))
    ensures StringsAt(m2, [a] + addrs, [s] + ss) && StringsWithin([a] + addrs, [s] + ss, a, hi)
  {
    StringsFrame(m1, m2, a, mid, hi, addrs, ss);
  }

  /** Pushes the strings last to first and returns their addresses in order. */
  method PushStrings(mem: GuestMemory, top: U64, ss: seq<Str>) returns (r: Result<(seq<U64>, U64)>)
    requires mem.Valid() && StringBytes(ss) <= top
    modifies mem`bytes
    ensures BytesMapped(mem.regions, top - StringBytes(ss), StringBytes(ss)) ==> r.Success?
    ensures r.Success? ==>
              var (addrs, cursor) := r.value;
              && cursor == top - StringBytes(ss)
              && StringsAt(mem.bytes, addrs, ss) && StringsWithin(addrs, ss, cursor, top)
              && SameOutside(old(mem.bytes), mem.bytes, cursor, top)
  {
    var cursor, pushed := top, [];
    var k := |ss|;
    while k > 0
      invariant 0 <= k <= |ss| && |pushed| == |ss| - k
      invariant cursor == top - StringBytes(ss[k..])
      invariant StringsAt(mem.bytes, Reversed(pushed), ss[k..]) && StringsWithin(Reversed(pushed), ss[k..], cursor, top)
      invariant SameOutside(old(mem.bytes), mem.bytes, cursor, top)
    {
      k := k - 1;
      assert ss[k..] == [ss[k]] + ss[k + 1..];
      BytesOfTail(ss, k);
      ghost var before := mem.bytes;
      var a :- PushString(mem, cursor, ss[k]);
      StringsCons(before, mem.bytes, a, ss[k], Reversed(pushed), ss[k + 1..], cursor, top);
      SameOutsideCompose(old(mem.bytes), before, mem.bytes, a, cursor, top);
      assert Reversed(pushed + [a]) == [a] + Reversed(pushed);
      cursor, pushed := a, pushed + [a];
    }
    assert ss[0..] == ss;
    return Success((Reversed(pushed), cursor));
  }

  lemma {:induction false} BytesOfTail(ss: seq<Str>, k: nat)
    requires k < |ss|
    ensures StringBytes(ss[k..]) == |ss[k]| + 1 + StringBytes(ss[k + 1..])
    ensures StringBytes(ss[k..]) <= StringBytes(ss)
  {
    assert ss[k..][1..] == ss[k + 1..];
    if k > 0 {
      BytesOfTail(ss[1..], k - 1);
      assert ss[1..][k - 1..] == ss[k..];
    } else {
      assert ss[0..] == ss;
    }
  }

  // ----- the word block -----

  lemma EmptyWords(m: Mem, p: U64)
    ensures WordsAt(m, p, [])
  {
  }

  /** Words written behind words that lie already. */
  lemma WordsGrow(m1: Mem, m2: Mem, p: int, ws1: seq<U64>, ws2: seq<U64>)
    requires WordsAt(m1, p, ws1) && WordsAt(m2, p + 8 * |ws1|, ws2)
    requires SameOutside(m1, m2, p + 8 * |ws1|, p + 8 * |ws1| + 8 * |ws2|)
    ensures WordsAt(m2, p, ws1 + ws2)
  {
    hide Word;
    WordsFrame(m1, m2, p + 8 * |ws1|, p + 8 * |ws1| + 8 * |ws2|, p, ws1);
    WordsJoin(m2, p, ws1, ws2);
  }

  method WriteWord(mem: GuestMemory, p: U64, v: U64) returns (r: Result<U64>)
    requires mem.Valid() && p + 8 < TWO64
    modifies mem`bytes
    ensures BytesMapped(mem.regions, p, 8) ==> r.Success?
    ensures r.Success? ==> r.value == p + 8 && WordsAt(mem.bytes, p, [v]) && SameOutside(old(mem.bytes), mem.bytes, p, p + 8)
  {
    hide Word, LeBytes, IsMapped;
    IsMappedMeansBytes(mem.regions, p, 8);
    WordWritten(mem.bytes, p, v);
    :- mem.Write64(p, v);
    return Success(p + 8);
  }

  /** Writes words upwards from p. */
  method WriteWords(mem: GuestMemory, p: U64, ws: seq<U64>) returns (r: Result<U64>)
    requires mem.Valid() && p + 8 * |ws| < TWO64
    modifies mem`bytes
    ensures BytesMapped(mem.regions, p, 8 * |ws|) ==> r.Success?
    ensures r.Success? ==> r.value == p + 8 * |ws| && WordsAt(mem.bytes, p, ws)
                           && SameOutside(old(mem.bytes), mem.bytes, p, p + 8 * |ws|)
  {
    hide WordsAt;
    EmptyWords(mem.bytes, p);
    for k := 0 to |ws|
      invariant WordsAt(mem.bytes, p, ws[..k])
      invariant SameOutside(old(mem.bytes), mem.bytes, p, p + 8 * k)
    {
      ghost var before := mem.bytes;
      var _ :- WriteWord(mem, p + 8 * k, ws[k]);
      WordsGrow(before, mem.bytes, p, ws[..k], [ws[k]]);
      assert ws[..k + 1] == ws[..k] + [ws[k]];
    }
    assert ws[..|ws|] == ws;
    return Success(p + 8 * |ws|);
  }

  lemma {:induction false} AuxvSnoc(aux: Auxv, e: (U64, U64))
    ensures AuxvWords(aux + [e]) == AuxvWords(aux) + [e.0, e.1]
  {
    if aux == [] {
      assert aux + [e] == [e] && AuxvWords([e][1..]) == [];
    } else {
      AuxvSnoc(aux[1..], e);
      assert (aux + [e])[1..] == aux[1..] + [e];
    }
  }

  /** Writes the auxiliary vector, two words an entry. */
  method WriteAuxv(mem: GuestMemory, p: U64, aux: Auxv) returns (r: Result<()>)
    requires mem.Valid() && p + 16 * |aux| < TWO64
    modifies mem`bytes
    ensures BytesMapped(mem.regions, p, 16 * |aux|) ==> r.Success?
    ensures r.Success? ==> WordsAt(mem.bytes, p, AuxvWords(aux))
                           && SameOutside(old(mem.bytes), mem.bytes, p, p + 16 * |aux|)
  {
    hide WordsAt;
    EmptyWords(mem.bytes, p);
    for k := 0 to |aux|
      invariant WordsAt(mem.bytes, p, AuxvWords(aux[..k]))
      invariant SameOutside(old(mem.bytes), mem.bytes, p, p + 16 * k)
    {
      hide AuxvWords;
      ghost var before := mem.bytes;
      var q :- WriteWord(mem, p + 16 * k, aux[k].0);
      WordsGrow(before, mem.bytes, p, AuxvWords(aux[..k]), [aux[k].0]);
      before := mem.bytes;
      var _ :- WriteWord(mem, q, aux[k].1);
      WordsGrow(before, mem.bytes, p, AuxvWords(aux[..k]) + [aux[k].0], [aux[k].1]);
      AuxvSnoc(aux[..k], aux[k]);
      assert aux[..k + 1] == aux[..k] + [aux[k]];
      assert AuxvWords(aux[..k]) + [aux[k].0] + [aux[k].1] == AuxvWords(aux[..k]) + [aux[k].0, aux[k].1];
    }
    assert aux[..|aux|] == aux;
    return Success(());
  }

  /** argc, the argument pointers and a null, the environment pointers and a null, the auxiliary vector. */
  function Block(args: seq<U64>, envs: seq<U64>, aux: Auxv): (ws: seq<U64>)
    requires |args| < TWO64
    ensures |ws| == 3 + |args| + |envs| + 2 * |aux|
  {
    [|args|] + args + [0] + envs + [0] + AuxvWords(aux)
  }

  method WriteBlock(mem: GuestMemory, rsp: U64, args: seq<U64>, envs: seq<U64>, aux: Auxv)
    returns (r: Result<(U64, U64, U64)>)
    requires mem.Valid() && rsp + 8 * (3 + |args| + |envs| + 2 * |aux|) < TWO64
    modifies mem`bytes
    ensures var n := 8 * (3 + |args| + |envs| + 2 * |aux|);
            && (BytesMapped(mem.regions, rsp, n) ==> r.Success?)
            && (r.Success? ==> WordsAt(mem.bytes, rsp, Block(args, envs, aux))
                               && SameOutside(old(mem.bytes), mem.bytes, rsp, rsp + n)
                               && r.value == (rsp + 8, rsp + 8 * (|args| + 2), rsp + 8 * (|args| + |envs| + 3)))
  {
    hide WordsAt, AuxvWords;
    var argv :- WriteWord(mem, rsp, |args|);
    ghost var done, m := [|args|], mem.bytes;
    var p :- WriteWords(mem, argv, args);
    WordsGrow(m, mem.bytes, rsp, done, args);
    done, m := done + args, mem.bytes;
    var envp :- WriteWord(mem, p, 0);
    WordsGrow(m, mem.bytes, rsp, done, [0]);
    done, m := done + [0], mem.bytes;
    p :- WriteWords(mem, envp, envs);
    WordsGrow(m, mem.bytes, rsp, done, envs);
    done, m := done + envs, mem.bytes;
    p :- WriteWord(mem, p, 0);
    WordsGrow(m, mem.bytes, rsp, done, [0]);
    done, m := done + [0], mem.bytes;
    var _ :- WriteAuxv(mem, p, aux);
    WordsGrow(m, mem.bytes, rsp, done, AuxvWords(aux));
    return Success((argv, envp, p));
  }

  // ----- the strings -----

  /** Where the strings and the random bytes lie, and the auxiliary vector. */
  datatype Placement = Placement(execfn: U64, platform: U64, envAddrs: seq<U64>, argAddrs: seq<U64>, random: U64, aux: Auxv)

  /** All strings lie in [lo, hi). */
  ghost predicate StringsPlaced(m: Mem, pl: Placement, path: Str, argv: seq<Str>, envp: seq<Str>, lo: int, hi: int) {
    && StringsAt(m, [pl.execfn], [path]) && StringsWithin([pl.execfn], [path], lo, hi)
    && StringsAt(m, [pl.platform], [PLATFORM]) && StringsWithin([pl.platform], [PLATFORM], lo, hi)
    && StringsAt(m, pl.envAddrs, envp) && StringsWithin(pl.envAddrs, envp, lo, hi)
    && StringsAt(m, pl.argAddrs, argv) && StringsWithin(pl.argAddrs, argv, lo, hi)
  }

  lemma PlacedWiden(m: Mem, lo: int, lo2: int, hi: int, pl: Placement, path: Str, argv: seq<Str>, envp: seq<Str>)
    requires StringsPlaced(m, pl, path, argv, envp, lo2, hi) && lo <= lo2
    ensures StringsPlaced(m, pl, path, argv, envp, lo, hi)
    ensures |pl.argAddrs| == |argv| && |pl.envAddrs| == |envp|
  {
  }

  lemma PlacedAt(m: Mem, lo: int, hi: int, pl: Placement, random: U64, aux: Auxv, path: Str, argv: seq<Str>, envp: seq<Str>)
    requires StringsPlaced(m, pl, path, argv, envp, lo, hi)
    ensures StringsPlaced(m, pl.(random := random, aux := aux), path, argv, envp, lo, hi)
  {
    hide StringsAt, StringsWithin;
  }

  /** Writes below the strings leave them. */
  lemma PlacedFrame(m1: Mem, m2: Mem, low: int, lo: int, hi: int, pl: Placement, path: Str, argv: seq<Str>, envp: seq<Str>)
    requires StringsPlaced(m1, pl, path, argv, envp, lo, hi) && SameOutside(m1, m2, low, lo)
    ensures StringsPlaced(m2, pl, path, argv, envp, lo, hi)
  {
    hide Lies, StringsAt, SameOutside;
    StringsFrame(m1, m2, low, lo, hi, [pl.execfn], [path]);
    StringsFrame(m1, m2, low, lo, hi, [pl.platform], [PLATFORM]);
    StringsFrame(m1, m2, low, lo, hi, pl.envAddrs, envp);
    StringsFrame(m1, m2, low, lo, hi, pl.argAddrs, argv);
  }

  lemma OneString(m: Mem, a: U64, s: Str)
    ensures Lies(m, a, CString(s)) ==> StringsAt(m, [a], [s])
  {
  }

  /** Pushes the path, the platform name, the environment and the arguments. */
  method PushAll(mem: GuestMemory, top: U64, path: Str, argv: seq<Str>, envp: seq<Str>)
    returns (r: Result<(Placement, U64)>)
    requires mem.Valid() && StringsEnd(top, path, argv, envp) >= 0
    modifies mem`bytes
    ensures var end := StringsEnd(top, path, argv, envp);
            && (BytesMapped(mem.regions, end, top - end) ==> r.Success?)
            && (r.Success? ==> r.value.1 == end
                               && StringsPlaced(mem.bytes, r.value.0, path, argv, envp, end, top)
                               && SameOutside(old(mem.bytes), mem.bytes, end, top))
  {
    hide StringsAt, Lies;
    var execfn :- PushString(mem, top, path);
    OneString(mem.bytes, execfn, path);
    ghost var m1 := mem.bytes;
    var platform :- PushString(mem, execfn, [120, 56, 54, 95, 54, 52]);
    OneString(mem.bytes, platform, PLATFORM);
    ghost var m2 := mem.bytes;
    var envs :- PushStrings(mem, platform, envp);
    ghost var m3 := mem.bytes;
    var args :- PushStrings(mem, envs.1, argv);
    StringsFrame(m1, mem.bytes, args.1, execfn, top, [execfn], [path]);
    StringsFrame(m2, mem.bytes, args.1, platform, execfn, [platform], [PLATFORM]);
    StringsFrame(m3, mem.bytes, args.1, envs.1, platform, envs.0, envp);
    return Success((Placement(execfn, platform, envs.0, args.0, 0, []), args.1));
  }

  // ----- the builder -----

  /** The whole stack image in memory, as the builder leaves it. */
  ghost predicate Laid(m: Mem, stack: GuestStackImage, pl: Placement, image: GuestElfImage, argv: seq<Str>, envp: seq<Str>) {
    && stack.low <= stack.rsp && stack.rsp % 16 == 0
    && stack.rsp + 8 * SlotCount(|argv|, |envp|) <= pl.random
    && pl.random + RANDOM_BYTES <= stack.top
    && stack.argc == |argv| && |argv| < TWO64
    && stack.argvAddr == stack.rsp + 8
    && stack.envpAddr == stack.argvAddr + 8 * (|argv| + 1)
    && stack.auxvAddr == stack.envpAddr + 8 * (|envp| + 1)
    && StringsPlaced(m, pl, image.path, argv, envp, pl.random + RANDOM_BYTES, stack.top)
    && FixedRandom(ReadBytes(m, pl.random, 16))
    && |pl.argAddrs| == |argv| && |pl.envAddrs| == |envp|
    && WordsAt(m, stack.rsp, Block(pl.argAddrs, pl.envAddrs, pl.aux))
    && VectorSays(pl.aux, image, pl.random, pl.platform, pl.execfn)
  }

  function StackRegion(low: U64, size: U64): Region {
    Region(low, size, PROT_READ + PROT_WRITE, "stack")
  }

  lemma LiesReads(m: Mem, a: U64, src: seq<Byte>)
    requires Lies(m, a, src)
    ensures ReadBytes(m, a, |src|) == src
  {
  }

  /** Everything after the mapping: it succeeds when the layout fits. */
  method LayOut(mem: GuestMemory, image: GuestElfImage, argv: seq<Str>, envp: seq<Str>, low: U64, top: U64)
    returns (r: Result<GuestStackImage>, ghost pl: Placement)
    requires mem.Valid() && low <= top && StackPointer(top, image.path, argv, envp) >= 0
    modifies mem`bytes
    ensures var rsp := StackPointer(top, image.path, argv, envp);
            && (BytesMapped(mem.regions, low, top - low) && low <= rsp ==> r.Success?)
            && (r.Success? ==>
                  var stack := r.value;
                  && low <= rsp < top
                  && stack.low == low && stack.top == top && stack.size == top - low && stack.rsp == rsp
                  && Laid(mem.bytes, stack, pl, image, argv, envp)
                  && SameOutside(old(mem.bytes), mem.bytes, low, top))
  {
    hide StringsPlaced, Lies, WordsAt, IsMapped, RandomBytes, FixedRandom, VectorSays, ReadBytes;
    pl := Placement(0, 0, [], [], 0, []);
    var pushed :- PushAll(mem, top, image.path, argv, envp);
    ghost var m1 := mem.bytes;
    var cursor := pushed.1;
    var randomAddr := RandomAddr(top, image.path, argv, envp);
    assert randomAddr == AlignDown16(cursor) - RANDOM_BYTES;
    IsMappedMeansBytes(mem.regions, randomAddr, RANDOM_BYTES);
    :- mem.Write(randomAddr, RandomBytes());
    ghost var m2 := mem.bytes;
    WrittenLies(m1, randomAddr, RandomBytes());
    PlacedFrame(m1, m2, randomAddr, cursor, top, pushed.0, image.path, argv, envp);
    PlacedWiden(m2, randomAddr + RANDOM_BYTES, cursor, top, pushed.0, image.path, argv, envp);
    var aux := AuxvOf(image, randomAddr, pushed.0.platform, pushed.0.execfn);
    var rsp := AlignDown16(randomAddr - 8 * (1 + |argv| + 1 + |envp| + 1 + 2 * |aux|));
    if rsp < low {
      return Failure(StackTooSmall), pl;
    }
    var slots :- WriteBlock(mem, rsp, pushed.0.argAddrs, pushed.0.envAddrs, aux);
    ghost var m3 := mem.bytes;
    LiesFrame(m2, m3, rsp, randomAddr, randomAddr, RandomBytes());
    PlacedFrame(m2, m3, rsp, randomAddr + RANDOM_BYTES, top, pushed.0, image.path, argv, envp);
    pl := pushed.0.(random := randomAddr, aux := aux);
    PlacedAt(m3, randomAddr + RANDOM_BYTES, top, pushed.0, randomAddr, aux, image.path, argv, envp);
    LiesReads(m3, randomAddr, RandomBytes());
    RandomBits();
    AuxValues(image, randomAddr, pl.platform, pl.execfn);
    return Success(GuestStackImage(low, top, top - low, rsp, slots.0, slots.1, slots.2, |argv|)), pl;
  }

  /** Commits the stack and lays it out. It succeeds exactly when the pages were granted and the
      layout fits above the low end; then only stack memory has changed. */
  method BuildInitialStack(mem: GuestMemory, image: GuestElfImage, argv: seq<Str>, envp: seq<Str>,
                           stackTop: U64, stackSize: U64, granted: bool)
    returns (r: Result<GuestStackImage>, ghost pl: Placement)
    requires mem.Valid() && stackTop + PAGE <= TWO64 && stackSize + PAGE <= TWO64
    requires AlignUp(stackSize) <= AlignUp(stackTop)
    requires StackPointer(AlignUp(stackTop), image.path, argv, envp) >= 0
    requires forall b :: AlignUp(stackTop) - AlignUp(stackSize) <= b < AlignUp(stackTop) ==> !Mapped(mem.regions, b)
    modifies mem
    ensures mem.Valid()
    ensures var top, size := AlignUp(stackTop), AlignUp(stackSize);
            var low, rsp := top - size, StackPointer(top, image.path, argv, envp);
            var committed := size > 0 && mem.IsAddressable(low, size) && granted;
            && mem.regions == old(mem.regions) + (if committed then [StackRegion(low, size)] else [])
            && (r.Success? <==> committed && low <= rsp)
            && (r.Success? ==>
                  var stack := r.value;
                  && stack.low == low && stack.top == top && stack.size == size && stack.rsp == rsp
                  && Laid(mem.bytes, stack, pl, image, argv, envp)
                  && SameOutside(old(mem.bytes), mem.bytes, low, top)
                  && BytesMapped(mem.regions, low, size))
  {
    var top: int, size := AlignUp(stackTop), AlignUp(stackSize);
    var low := top - size;
    pl := Placement(0, 0, [], [], 0, []);
    if size > 0 { MapCommits(mem.regions, StackRegion(low, size)); }
    :- mem.Map(low, size, PROT_READ + PROT_WRITE, "stack", granted);
    r, pl := LayOut(mem, image, argv, envp, low, top);
  }
}
