/** Block labels: the address of a block in lower-case hexadecimal behind a fixed prefix. */
module Labels {
  import opened Bits

  function HexDigit(d: nat): char
    requires d < 16
  {
    "0123456789abcdef"[d]
  }

  /** Hexadecimal without leading zeros; zero is "0". */
  function Hex(n: nat): (s: string)
    ensures |s| > 0
  {
    if n < 16 then [HexDigit(n)] else Hex(n / 16) + [HexDigit(n % 16)]
  }

  function MakeLabel(va: U64): string {
    "bb_0x" + Hex(va)
  }

  lemma LabelExample()
    ensures MakeLabel(0x40b0) == "bb_0x40b0"
  {
    assert Hex(4) == "4" && Hex(0x40) == "40" && Hex(0x40b) == "40b" && Hex(0x40b0) == "40b0";
  }

  lemma HexDigitInjective(a: nat, b: nat)
    requires a < 16 && b < 16 && HexDigit(a) == HexDigit(b)
    ensures a == b
  {
  }

  lemma {:induction false} HexInjective(a: nat, b: nat)
    requires Hex(a) == Hex(b)
    ensures a == b
  {
    HexLast(a);
    HexLast(b);
    HexDigitInjective(a % 16, b % 16);
    if a >= 16 && b >= 16 {
      HexInjective(a / 16, b / 16);
    }
  }

  lemma HexLast(n: nat)
    ensures Hex(n)[|Hex(n)| - 1] == HexDigit(n % 16)
    ensures n >= 16 ==> Hex(n)[..|Hex(n)| - 1] == Hex(n / 16) && |Hex(n)| > 1
    ensures n < 16 ==> |Hex(n)| == 1
  {
  }

  /** Distinct blocks have distinct labels, and none of them is the label of an unresolved target. */
  lemma LabelInjective(a: U64, b: U64)
    ensures MakeLabel(a) == MakeLabel(b) ==> a == b
    ensures MakeLabel(a) != "unknown"
  {
    assert MakeLabel(a)[5..] == Hex(a) && MakeLabel(b)[5..] == Hex(b);
    if MakeLabel(a) == MakeLabel(b) {
      HexInjective(a, b);
    }
    assert MakeLabel(a)[0] == 'b' && "unknown"[0] == 'u';
  }
}
