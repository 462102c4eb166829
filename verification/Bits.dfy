/** Machine integers as naturals below a power of two, and the bitwise operators on them. */
module Bits {

  const TWO64 := 0x1_0000_0000_0000_0000

  type U64 = x: int | 0 <= x < 0x1_0000_0000_0000_0000
  type Byte = x: int | 0 <= x < 256

  datatype Width = W8 | W16 | W32 | W64

  function BitCount(w: Width): nat {
    match w case W8 => 8 case W16 => 16 case W32 => 32 case W64 => 64
  }

  function Bytes(w: Width): nat {
    match w case W8 => 1 case W16 => 2 case W32 => 4 case W64 => 8
  }

  /** One past the largest value of the width. */
  function Modulus(w: Width): nat {
    match w
    case W8 => 0x100
    case W16 => 0x1_0000
    case W32 => 0x1_0000_0000
    case W64 => 0x1_0000_0000_0000_0000
  }

  /** The weight of the sign bit. */
  function Half(w: Width): nat {
    match w
    case W8 => 0x80
    case W16 => 0x8000
    case W32 => 0x8000_0000
    case W64 => 0x8000_0000_0000_0000
  }

  function Wrap(v: int, w: Width): (r: nat)
    ensures r < Modulus(w)
  {
    match w
    case W8 => v % 0x100
    case W16 => v % 0x1_0000
    case W32 => v % 0x1_0000_0000
    case W64 => v % 0x1_0000_0000_0000_0000
  }

  /** The two's-complement reading of a value. */
  function Signed(v: int, w: Width): int {
    if v >= Half(w) then v - Modulus(w) else v
  }

  predicate Fits(v: int, w: Width) {
    0 <= v < Modulus(w)
  }

  function Pow2(n: nat): (p: nat)
    ensures p > 0
  {
    if n == 0 then 1 else 2 * Pow2(n - 1)
  }

  lemma ModulusIsPow2(w: Width)
    ensures Modulus(w) == Pow2(BitCount(w)) == Pow2(8 * Bytes(w))
  {
    Pow2Table();
  }

  lemma Pow2Table()
    ensures Pow2(8) == 0x100 && Pow2(16) == 0x1_0000
    ensures Pow2(32) == 0x1_0000_0000 && Pow2(64) == 0x1_0000_0000_0000_0000
  {
    assert Pow2(8) == 0x100;
    Pow2Sum(8, 8);
    Pow2Sum(16, 16);
    Pow2Sum(32, 32);
  }

  lemma {:induction false} Pow2Sum(a: nat, b: nat)
    ensures Pow2(a + b) == Pow2(a) * Pow2(b)
  {
    if a > 0 { Pow2Sum(a - 1, b); }
  }

  // ----- bitwise operators -----

  function BitAnd(a: nat, b: nat): nat
    decreases a
  {
    if a == 0 || b == 0 then 0
    else 2 * BitAnd(a / 2, b / 2) + (if a % 2 == 1 && b % 2 == 1 then 1 else 0)
  }

  function BitOr(a: nat, b: nat): nat
    decreases a
  {
    if a == 0 then b
    else if b == 0 then a
    else 2 * BitOr(a / 2, b / 2) + (if a % 2 == 1 || b % 2 == 1 then 1 else 0)
  }

  function BitXor(a: nat, b: nat): nat
    decreases a
  {
    if a == 0 then b
    else if b == 0 then a
    else 2 * BitXor(a / 2, b / 2) + (if a % 2 != b % 2 then 1 else 0)
  }

  predicate Bit(a: nat, k: nat) {
    if k == 0 then a % 2 == 1 else Bit(a / 2, k - 1)
  }

  /** The three operators act on every bit position on its own. */
  lemma {:induction false} BitwiseMeaning(a: nat, b: nat, k: nat)
    ensures Bit(BitAnd(a, b), k) <==> Bit(a, k) && Bit(b, k)
    ensures Bit(BitOr(a, b), k) <==> Bit(a, k) || Bit(b, k)
    ensures Bit(BitXor(a, b), k) <==> Bit(a, k) != Bit(b, k)
    decreases k
  {
    if a == 0 || b == 0 {
      ZeroHasNoBits(k);
    } else if k > 0 {
      assert BitAnd(a, b) / 2 == BitAnd(a / 2, b / 2);
      assert BitOr(a, b) / 2 == BitOr(a / 2, b / 2);
      assert BitXor(a, b) / 2 == BitXor(a / 2, b / 2);
      BitwiseMeaning(a / 2, b / 2, k - 1);
    }
  }

  lemma {:induction false} ZeroHasNoBits(k: nat)
    ensures !Bit(0, k)
  {
    if k > 0 { ZeroHasNoBits(k - 1); }
  }

  lemma {:induction false} BitwiseBound(a: nat, b: nat, n: nat)
    requires a < Pow2(n) && b < Pow2(n)
    ensures BitAnd(a, b) < Pow2(n) && BitOr(a, b) < Pow2(n) && BitXor(a, b) < Pow2(n)
  {
    if n > 0 && a > 0 && b > 0 { BitwiseBound(a / 2, b / 2, n - 1); }
  }

  lemma BitwiseFits(a: nat, b: nat, w: Width)
    requires Fits(a, w) && Fits(b, w)
    ensures Fits(BitAnd(a, b), w) && Fits(BitOr(a, b), w) && Fits(BitXor(a, b), w)
  {
    ModulusIsPow2(w);
    BitwiseBound(a, b, BitCount(w));
  }

  // ----- arithmetic modulo a variable modulus -----

  lemma ModIs(x: int, m: nat, k: int, r: nat)
    requires x == m * k + r && r < m
    ensures x % m == r && x / m == k
  {
    var d := x / m - k;
    assert m * d == r - x % m by { assert x == m * (x / m) + x % m; }
    if d >= 1 {
      MulMonotone(m, 1, d);
    } else if d <= -1 {
      MulMonotone(m, d, -1);
    }
  }

  lemma MulMonotone(m: nat, a: int, b: int)
    requires a <= b
    ensures m * a <= m * b
  {
  }

  lemma ModShift(x: int, m: nat, k: int)
    requires m > 0
    ensures (x + m * k) % m == x % m
  {
    assert x + m * k == m * (x / m + k) + x % m;
    ModIs(x + m * k, m, x / m + k, x % m);
  }

  lemma ModOfDouble(x: nat, q: nat)
    requires q > 0
    ensures x % (2 * q) == 2 * ((x / 2) % q) + x % 2
  {
    var k, r := (x / 2) / q, (x / 2) % q;
    assert x / 2 == q * k + r;
    assert x == (2 * q) * k + (2 * r + x % 2);
    ModIs(x, 2 * q, k, 2 * r + x % 2);
  }

  /** Masking off the low n bits and or-ing a new low part replaces exactly those bits. */
  lemma {:induction false} MergeLow(m: nat, n: nat, cur: nat, v: nat)
    requires n <= m && cur < Pow2(m) && v < Pow2(n)
    ensures Pow2(n) <= Pow2(m)
    ensures BitOr(BitAnd(cur, Pow2(m) - Pow2(n)), v) == cur - cur % Pow2(n) + v
  {
    hide BitAnd, BitOr;
    Pow2Monotone(n, m);
    if n == 0 {
      AndAllOnes(cur, m);
      OrOfZero(cur);
    } else {
      MergeLow(m - 1, n - 1, cur / 2, v / 2);
      ModOfDouble(cur, Pow2(n - 1));
      var mask := Pow2(m - 1) - Pow2(n - 1);
      AndOfDouble(cur, mask);
      OrOfDouble(BitAnd(cur / 2, mask), v);
    }
  }

  lemma {:induction false} AndOfDouble(a: nat, mask: nat)
    ensures BitAnd(a, 2 * mask) == 2 * BitAnd(a / 2, mask)
  {
    assert (2 * mask) / 2 == mask;
  }

  lemma OrOfZero(a: nat)
    ensures BitOr(a, 0) == a
  {
  }

  lemma {:induction false} OrOfDouble(a: nat, v: nat)
    ensures BitOr(2 * a, v) == 2 * BitOr(a, v / 2) + v % 2
  {
    assert (2 * a) / 2 == a;
  }

  lemma {:induction false} Pow2Monotone(n: nat, m: nat)
    requires n <= m
    ensures Pow2(n) <= Pow2(m)
  {
    if n < m { Pow2Monotone(n, m - 1); }
  }

  lemma {:induction false} AndAllOnes(a: nat, m: nat)
    requires a < Pow2(m)
    ensures BitAnd(a, Pow2(m) - 1) == a
  {
    if m > 0 && a > 0 {
      AndAllOnes(a / 2, m - 1);
      assert (Pow2(m) - 1) / 2 == Pow2(m - 1) - 1;
    }
  }

  /** The low half of the signed product is the product of the unsigned readings. */
  lemma SignedProduct(a: nat, b: nat, w: Width)
    requires Fits(a, w) && Fits(b, w)
    ensures Wrap(Signed(a, w) * Signed(b, w), w) == Wrap(a * b, w)
  {
    hide Wrap;
    var m := Modulus(w);
    var i, j := if a >= Half(w) then 1 else 0, if b >= Half(w) then 1 else 0;
    calc {
      Signed(a, w) * Signed(b, w);
      (a - m * i) * (b - m * j);
      a * b + m * (m * i * j - i * b - j * a);
    }
    ModShift(a * b, m, m * i * j - i * b - j * a);
    WrapIsMod(a * b, w);
    WrapIsMod(Signed(a, w) * Signed(b, w), w);
  }

  lemma WrapIsMod(v: int, w: Width)
    ensures Wrap(v, w) == v % Modulus(w)
  {
  }

  // ----- little-endian byte memory -----

  type Mem = map<int, Byte>

  function GetByte(m: Mem, a: int): Byte {
    if a in m then m[a] else 0
  }

  /** Little-endian load of n bytes; addresses wrap at 2^64. */
  function LoadLE(m: Mem, a: int, n: nat): (v: nat)
    ensures v < Pow2(8 * n)
    decreases n
  {
    if n == 0 then 0
    else
      assert Pow2(8 * n) == 256 * Pow2(8 * (n - 1)) by { Pow2Byte(n - 1); }
      GetByte(m, a % TWO64) + 256 * LoadLE(m, a + 1, n - 1)
  }

  function StoreLE(m: Mem, a: int, v: nat, n: nat): Mem
    decreases n
  {
    if n == 0 then m else StoreLE(m[a % TWO64 := v % 256], a + 1, v / 256, n - 1)
  }

  lemma Pow2Byte(n: nat)
    ensures Pow2(8 * (n + 1)) == 256 * Pow2(8 * n)
  {
    var k := 8 * n;
    assert Pow2(k + 8) == 2 * Pow2(k + 7) == 4 * Pow2(k + 6) == 8 * Pow2(k + 5);
    assert Pow2(k + 5) == 2 * Pow2(k + 4) == 4 * Pow2(k + 3) == 8 * Pow2(k + 2);
    assert Pow2(k + 2) == 2 * Pow2(k + 1) == 4 * Pow2(k);
  }

  /** A number modulo 2^n has its lowest n bits. */
  lemma {:induction false} BitOfModulus(v: nat, k: nat, n: nat)
    requires k < n
    ensures Bit(v % Pow2(n), k) <==> Bit(v, k)
    decreases n
  {
    HalfOfModulus(v, n - 1);
    if k > 0 { BitOfModulus(v / 2, k - 1, n - 1); }
  }

  lemma HalfOfModulus(v: nat, n: nat)
    ensures v % Pow2(n + 1) / 2 == v / 2 % Pow2(n) && v % Pow2(n + 1) % 2 == v % 2
  {
    var p := Pow2(n);
    var q, r := v / 2 / p, v / 2 % p;
    assert v == 2 * (q * p + r) + v % 2;
    ModIs(v, 2 * p, q, 2 * r + v % 2);
  }

  lemma SumTwice(a: int, b: int)
    ensures (a % TWO64 + b) % TWO64 == (a + b) % TWO64
  {
  }
}
