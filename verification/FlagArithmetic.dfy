/** What comparing a wrapped result with an operand says about carry and overflow. */
module FlagArithmetic {
  import opened Bits
  import X86

  /** Sums and differences of two values wrap at most once. */
  lemma WrapOnce(a: nat, b: nat, w: Width)
    requires Fits(a, w) && Fits(b, w)
    ensures Wrap(a + b, w) == if a + b < Modulus(w) then a + b else a + b - Modulus(w)
    ensures Wrap(a - b, w) == if a >= b then a - b else a - b + Modulus(w)
  {
    match w
    case W8 =>
    case W16 =>
    case W32 =>
    case W64 =>
  }

  /** The carry out of an addition shows as a wrapped result below the first operand. */
  lemma CarryOfAdd(a: nat, b: nat, w: Width)
    requires Fits(a, w) && Fits(b, w)
    ensures Wrap(a + b, w) < a <==> a + b >= Modulus(w)
  {
  }

  /** The borrow of a subtraction shows as a wrapped result above the first operand. */
  lemma BorrowOfSub(a: nat, b: nat, w: Width)
    requires Fits(a, w) && Fits(b, w)
    ensures Wrap(a - b, w) > a <==> a < b
  {
  }

  /** Adding one overflows exactly when a non-negative number turns negative. */
  lemma OverflowOfInc(a: nat, w: Width)
    requires Fits(a, w)
    ensures !X86.InSignedRange(Signed(a, w) + 1, w) <==> Signed(a, w) >= 0 && Signed(Wrap(a + 1, w), w) < 0
  {
  }

  lemma OverflowOfDec(a: nat, w: Width)
    requires Fits(a, w)
    ensures !X86.InSignedRange(Signed(a, w) - 1, w) <==> Signed(a, w) < 0 && Signed(Wrap(a - 1, w), w) >= 0
  {
  }
}
