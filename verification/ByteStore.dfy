/** Writing and reading stretches of byte memory. */
module ByteStore {
  import opened Bits

  /** The addresses a .. a + n - 1. */
  function Stretch(a: int, n: nat): (s: set<int>)
    ensures forall b :: b in s <==> a <= b < a + n
  {
    if n == 0 then {} else Stretch(a, n - 1) + {a + n - 1}
  }

  function WriteBytes(m: Mem, a: int, src: seq<Byte>): (m2: Mem)
    ensures forall b {:trigger GetByte(m2, b)} ::
              GetByte(m2, b) == if a <= b < a + |src| then src[b - a] else GetByte(m, b)
  {
    if src == [] then m else m + map b | b in Stretch(a, |src|) :: src[b - a]
  }

  function Zeros(n: nat): (s: seq<Byte>)
    ensures |s| == n && forall i :: 0 <= i < n ==> s[i] == 0
  {
    seq<Byte>(n, _ => 0)
  }

  function ReadBytes(m: Mem, a: int, n: nat): (s: seq<Byte>)
    ensures |s| == n && forall i :: 0 <= i < n ==> s[i] == GetByte(m, a + i)
  {
    seq<Byte>(n, i => GetByte(m, a + i))
  }

  /** The little-endian bytes of a number. */
  function LeBytes(v: nat, n: nat): (s: seq<Byte>)
    ensures |s| == n
    decreases n
  {
    if n == 0 then [] else [v % 256] + LeBytes(v / 256, n - 1)
  }

  /** Two memories that agree on a stretch load the same number from it. */
  lemma {:induction false} LoadFrame(m1: Mem, m2: Mem, a: nat, n: nat)
    requires a + n <= TWO64
    requires forall b :: a <= b < a + n ==> GetByte(m1, b) == GetByte(m2, b)
    ensures LoadLE(m1, a, n) == LoadLE(m2, a, n)
    decreases n
  {
    if n > 0 { LoadFrame(m1, m2, a + 1, n - 1); }
  }

  /** Loading a number where its bytes lie gives the number back. */
  lemma {:induction false} LoadOfBytes(m: Mem, a: nat, v: nat, n: nat)
    requires a + n <= TWO64 && v < Pow2(8 * n)
    requires forall b :: a <= b < a + n ==> GetByte(m, b) == LeBytes(v, n)[b - a]
    ensures LoadLE(m, a, n) == v
    decreases n
  {
    if n > 0 {
      assert v / 256 < Pow2(8 * (n - 1)) by { Pow2Byte(n - 1); }
      assert LeBytes(v, n) == [v % 256] + LeBytes(v / 256, n - 1);
      hide Pow2, LeBytes, GetByte;
      assert GetByte(m, a) == v % 256;
      LoadOfBytes(m, a + 1, v / 256, n - 1);
    }
  }

  /** A 64-bit word. */
  function Word(m: Mem, a: U64): (v: U64)
  {
    Pow2Table();
    LoadLE(m, a, 8)
  }

  lemma WordWritten(m: Mem, a: U64, v: U64)
    requires a + 8 <= TWO64
    ensures Word(WriteBytes(m, a, LeBytes(v, 8)), a) == v
  {
    Pow2Table();
    LoadOfBytes(WriteBytes(m, a, LeBytes(v, 8)), a, v, 8);
  }

  lemma WordFrame(m1: Mem, m2: Mem, a: U64)
    requires a + 8 <= TWO64 && forall b :: a <= b < a + 8 ==> GetByte(m1, b) == GetByte(m2, b)
    ensures Word(m1, a) == Word(m2, a)
  {
    LoadFrame(m1, m2, a, 8);
  }
}
