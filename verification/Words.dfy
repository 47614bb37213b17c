/** 32-bit machine words as bit patterns.
    A word is the unsigned value of its pattern; `int32_t` cells are compared, added and masked
    through this pattern, so an addition is taken modulo 2^32. */
module Words {

  const WORD_BITS: nat := 32
  const WORD_SIZE: nat := 0x1_0000_0000

  type Word = w: int | 0 <= w < 0x1_0000_0000

  function Pow2(k: nat): (p: nat)
    ensures p >= 1
  {
    if k == 0 then 1 else 2 * Pow2(k - 1)
  }

  /** Bit k of a pattern, counted from the least significant. */
  predicate Bit(w: nat, k: nat)
    decreases k
  {
    if k == 0 then w % 2 == 1 else Bit(w / 2, k - 1)
  }

  function BitwiseOr(a: nat, b: nat): nat
    decreases a + b
  {
    if a == 0 && b == 0 then 0
    else (if a % 2 == 1 || b % 2 == 1 then 1 else 0) + 2 * BitwiseOr(a / 2, b / 2)
  }

  function BitwiseAnd(a: nat, b: nat): nat
    decreases a + b
  {
    if a == 0 || b == 0 then 0
    else (if a % 2 == 1 && b % 2 == 1 then 1 else 0) + 2 * BitwiseAnd(a / 2, b / 2)
  }

  /** The one's complement of a 32-bit pattern. */
  function Not(w: Word): Word {
    WORD_SIZE - 1 - w
  }

  /** The addition of a signed amount to a 32-bit pattern, wrapping around. */
  function WrappingAdd(w: Word, n: int): Word {
    (w + n) % WORD_SIZE
  }

  /** The `int32_t` value of a pattern. */
  function ToSigned(w: Word): int {
    if w < 0x8000_0000 then w else w - WORD_SIZE
  }

  /** Bit k is the k-th binary digit. */
  lemma {:induction false} BitIsDigit(w: nat, k: nat, high: nat, digit: nat, low: nat)
    requires w == Pow2(k) * (2 * high + digit) + low && digit < 2 && low < Pow2(k)
    ensures Bit(w, k) <==> digit == 1
    decreases k
  {
    if k > 0 {
      assert Pow2(k) * (2 * high + digit) == 2 * (Pow2(k - 1) * (2 * high + digit));
      BitIsDigit(w / 2, k - 1, high, digit, low / 2);
    }
  }

  /** The signed value is the representative of the pattern in the range of `int32_t`. */
  lemma SignedIsCongruent(w: Word)
    ensures -0x8000_0000 <= ToSigned(w) < 0x8000_0000 && ToSigned(w) % 0x1_0000_0000 == w
  {
  }

  lemma {:induction false} ZeroHasNoBits(k: nat)
    ensures !Bit(0, k)
  {
    if k > 0 {
      ZeroHasNoBits(k - 1);
    }
  }

  lemma LowAndHigh(low: nat, high: nat)
    requires low < 2
    ensures (low + 2 * high) % 2 == low && (low + 2 * high) / 2 == high
  {
  }

  lemma {:induction false} OrBit(a: nat, b: nat, k: nat)
    ensures Bit(BitwiseOr(a, b), k) <==> Bit(a, k) || Bit(b, k)
    decreases k
  {
    if a == 0 && b == 0 {
      ZeroHasNoBits(k);
    } else {
      var low := if a % 2 == 1 || b % 2 == 1 then 1 else 0;
      var high := BitwiseOr(a / 2, b / 2);
      LowAndHigh(low, high);
      if k > 0 {
        OrBit(a / 2, b / 2, k - 1);
      }
    }
  }

  lemma {:induction false} AndBit(a: nat, b: nat, k: nat)
    ensures Bit(BitwiseAnd(a, b), k) <==> Bit(a, k) && Bit(b, k)
    decreases k
  {
    if a == 0 || b == 0 {
      ZeroHasNoBits(k);
    } else {
      var low := if a % 2 == 1 && b % 2 == 1 then 1 else 0;
      var high := BitwiseAnd(a / 2, b / 2);
      LowAndHigh(low, high);
      if k > 0 {
        AndBit(a / 2, b / 2, k - 1);
      }
    }
  }

  lemma {:induction false} OrBound(a: nat, b: nat, n: nat)
    requires a < Pow2(n) && b < Pow2(n)
    ensures BitwiseOr(a, b) < Pow2(n)
    decreases n
  {
    if n > 0 {
      OrBound(a / 2, b / 2, n - 1);
    }
  }

  lemma {:induction false} AndBound(a: nat, b: nat)
    ensures BitwiseAnd(a, b) <= a
    decreases a
  {
    if a != 0 && b != 0 {
      AndBound(a / 2, b / 2);
    }
  }

  lemma WordSizeIsPow2()
    ensures Pow2(WORD_BITS) == WORD_SIZE
  {
    assert Pow2(8) == 0x100;
    assert Pow2(16) == 0x1_0000;
    assert Pow2(24) == 0x100_0000;
  }

  function Or(a: Word, b: Word): Word {
    WordSizeIsPow2();
    OrBound(a, b, WORD_BITS);
    BitwiseOr(a, b)
  }

  function And(a: Word, b: Word): Word {
    AndBound(a, b);
    BitwiseAnd(a, b)
  }

  /** A word has no bits above its width. */
  lemma {:induction false} BitsAboveWidth(w: nat, n: nat, k: nat)
    requires w < Pow2(n) && n <= k
    ensures !Bit(w, k)
    decreases n
  {
    if n == 0 {
      ZeroHasNoBits(k);
    } else {
      BitsAboveWidth(w / 2, n - 1, k - 1);
    }
  }

  /** Complement within the low n bits. */
  lemma {:induction false} ComplementBit(w: nat, n: nat, k: nat)
    requires w < Pow2(n) && k < n
    ensures Bit(Pow2(n) - 1 - w, k) <==> !Bit(w, k)
    decreases n
  {
    var c := Pow2(n) - 1 - w;
    assert c / 2 == Pow2(n - 1) - 1 - w / 2;
    if k > 0 {
      ComplementBit(w / 2, n - 1, k - 1);
    }
  }

  lemma NotBit(w: Word, k: nat)
    requires k < WORD_BITS
    ensures Bit(Not(w), k) <==> !Bit(w, k)
  {
    WordSizeIsPow2();
    ComplementBit(w, WORD_BITS, k);
  }

  lemma {:induction false} PowerBit(p: nat, k: nat)
    ensures Bit(Pow2(p), k) <==> k == p
    decreases k
  {
    if p == 0 {
      if k > 0 {
        ZeroHasNoBits(k - 1);
      }
    } else if k > 0 {
      PowerBit(p - 1, k - 1);
    }
  }

  lemma {:induction false} PowerMonotone(p: nat, n: nat)
    requires p < n
    ensures Pow2(p) < Pow2(n)
  {
    if p + 1 < n {
      PowerMonotone(p, n - 1);
    }
  }

  lemma LowBitDetermines(a: nat, b: nat)
    requires Bit(a, 0) == Bit(b, 0) && a / 2 == b / 2
    ensures a == b
  {
  }

  lemma HalfBit(w: nat, k: nat)
    ensures Bit(w / 2, k) == Bit(w, k + 1)
  {
  }

  /** Patterns with the same bits are equal. */
  lemma {:induction false} BitsDetermine(a: nat, b: nat)
    requires forall k: nat :: Bit(a, k) == Bit(b, k)
    ensures a == b
    decreases a + b
  {
    if a != 0 || b != 0 {
      forall k: nat
        ensures Bit(a / 2, k) == Bit(b / 2, k)
      {
        HalfBit(a, k);
        HalfBit(b, k);
        assert Bit(a, k + 1) == Bit(b, k + 1);
      }
      BitsDetermine(a / 2, b / 2);
      assert Bit(a, 0) == Bit(b, 0);
      LowBitDetermines(a, b);
    }
  }
}
