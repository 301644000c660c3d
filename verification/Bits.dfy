/** Bitwise operations on natural numbers. Shifts are repeated doubling, so that
    nothing here multiplies two variables. */
module Bits {
  import opened Words

  /** A 64-bit word; an int64 is read as the uint64 with the same bits. */
  type Word = w: nat | w < TWO64

  /** `x` shifted left by `s` bits, none dropped. */
  function Shl(x: nat, s: nat): (r: nat)
    ensures x <= r
  {
    if s == 0 then x else 2 * Shl(x, s - 1)
  }

  function Pow2(k: nat): (p: nat)
    ensures p > 0
  {
    Shl(1, k)
  }

  /** A shift to the left on 64-bit words, which drops the bits shifted out. */
  function ShiftLeft(x: nat, s: nat): Word
  {
    Shl(x, s) % TWO64
  }

  /** Bitwise or. */
  function Or(a: nat, b: nat): nat
  {
    if a == 0 then b
    else if b == 0 then a
    else 2 * Or(a / 2, b / 2) + (if a % 2 == 1 || b % 2 == 1 then 1 else 0)
  }

  /** Bitwise exclusive or. */
  function Xor(a: nat, b: nat): nat
  {
    if a == 0 then b
    else if b == 0 then a
    else 2 * Xor(a / 2, b / 2) + (a % 2 + b % 2) % 2
  }

  lemma {:induction false} ShlSum(x: nat, y: nat, s: nat)
    ensures Shl(x + y, s) == Shl(x, s) + Shl(y, s)
  {
    if s > 0 {
      ShlSum(x, y, s - 1);
    }
  }

  lemma {:induction false} ShlTwice(x: nat, s: nat, t: nat)
    ensures Shl(Shl(x, s), t) == Shl(x, s + t)
  {
    if t > 0 {
      ShlTwice(x, s, t - 1);
    }
  }

  lemma {:induction false} ShlMonotone(x: nat, y: nat, s: nat, t: nat)
    requires x <= y && s <= t
    ensures Shl(x, s) <= Shl(y, t)
  {
    if t > s {
      ShlMonotone(x, y, s, t - 1);
    } else if s > 0 {
      ShlMonotone(x, y, s - 1, t - 1);
    }
  }

  lemma ShlBySeven(x: nat)
    ensures Shl(x, 7) == 128 * x
  {
    assert Shl(x, 1) == 2 * x;
    assert Shl(x, 3) == 4 * Shl(x, 1);
    assert Shl(x, 5) == 4 * Shl(x, 3);
  }

  lemma ShlByWord(x: nat)
    ensures Shl(x, 63) == TWO63 * x && Shl(x, 64) == TWO64 * x
  {
    ShlBySeven(x);
    var a := Shl(x, 8);
    assert a == 256 * x;
    ShlTwice(x, 8, 7);
    ShlBySeven(a);
    var b := Shl(x, 16);
    assert b == 2 * Shl(x, 15);
    ShlBySixteen(b);
    ShlTwice(x, 16, 16);
    var c := Shl(x, 32);
    ShlBySixteen(c);
    ShlTwice(x, 32, 16);
    ShlBySixteen(Shl(x, 48));
    ShlTwice(x, 48, 16);
    assert Shl(x, 64) == 2 * Shl(x, 63);
  }

  lemma ShlBySixteen(x: nat)
    ensures Shl(x, 16) == 0x1_0000 * x
  {
    ShlBySeven(x);
    ShlTwice(x, 7, 7);
    ShlBySeven(Shl(x, 7));
    assert Shl(x, 15) == 2 * Shl(x, 14);
  }

  /** Or of numbers with no bit in common is addition. */
  lemma {:induction false} OrOfDisjoint(low: nat, high: nat, k: nat)
    requires low < Pow2(k)
    ensures Or(low, Shl(high, k)) == low + Shl(high, k)
  {
    if low != 0 && Shl(high, k) != 0 {
      var h := Shl(high, k - 1);
      OrOfDisjoint(low / 2, high, k - 1);
      assert Or(low, 2 * h) == 2 * Or(low / 2, h) + low % 2;
    }
  }

  lemma {:induction false} XorStaysBelow(a: nat, b: nat, k: nat)
    requires a < Pow2(k) && b < Pow2(k)
    ensures Xor(a, b) < Pow2(k)
  {
    if a != 0 && b != 0 {
      XorStaysBelow(a / 2, b / 2, k - 1);
    }
  }

  function XorWords(a: Word, b: Word): Word
  {
    assert Xor(a, b) < TWO64 by {
      ShlByWord(1);
      XorStaysBelow(a, b, 64);
    }
    Xor(a, b)
  }

  // ---- low and high bits ------------------------------------------------------------------

  /** The last `k` bits of `x`, and what is before them. */
  function Low(x: nat, k: nat): nat
  {
    if k == 0 then 0 else 2 * Low(x / 2, k - 1) + x % 2
  }

  function High(x: nat, k: nat): nat
  {
    if k == 0 then x else High(x / 2, k - 1)
  }

  lemma {:induction false} LowAndHigh(x: nat, k: nat)
    ensures x == Low(x, k) + Shl(High(x, k), k) && Low(x, k) < Pow2(k)
  {
    if k > 0 {
      LowAndHigh(x / 2, k - 1);
      ShlTwice(1, k - 1, 1);
    }
  }

  lemma XorBit(a: nat, b: nat)
    ensures Xor(a, b) / 2 == Xor(a / 2, b / 2) && Xor(a, b) % 2 == (a % 2 + b % 2) % 2
  {
  }

  lemma {:induction false} XorSplits(a: nat, b: nat, k: nat)
    ensures Low(Xor(a, b), k) == Xor(Low(a, k), Low(b, k))
    ensures High(Xor(a, b), k) == Xor(High(a, k), High(b, k))
  {
    hide Xor, Low, High;
    SplitOnce(a, k);
    SplitOnce(b, k);
    SplitOnce(Xor(a, b), k);
    if k == 0 {
      XorNothing(0);
    } else {
      XorBit(a, b);
      XorSplits(a / 2, b / 2, k - 1);
      XorBit(Low(a, k), Low(b, k));
    }
  }

  lemma SplitOnce(x: nat, k: nat)
    ensures k == 0 ==> Low(x, k) == 0 && High(x, k) == x
    ensures k > 0 ==> Low(x, k) == 2 * Low(x / 2, k - 1) + x % 2 && High(x, k) == High(x / 2, k - 1)
  {
  }

  lemma XorNothing(a: nat)
    ensures Xor(a, 0) == a == Xor(0, a)
  {
  }

  /** Exclusive or with the same number twice gives the first back. */
  lemma {:induction false} XorUndone(a: nat, b: nat)
    ensures Xor(Xor(a, b), b) == a
    decreases a + b
  {
    hide Xor;
    if a == 0 && b == 0 {
      XorNothing(0);
    } else {
      var x := Xor(a, b);
      XorBit(a, b);
      XorBit(x, b);
      XorUndone(a / 2, b / 2);
    }
  }

  lemma ShlByTwenty(x: nat)
    ensures Shl(x, 20) == 0x10_0000 * x && Shl(x, 40) == 0x100_0000_0000 * x
  {
    ShlByFour(x);
    ShlTwice(x, 4, 16);
    ShlBySixteen(Shl(x, 4));
    var y := Shl(x, 20);
    ShlByFour(y);
    ShlTwice(y, 4, 16);
    ShlBySixteen(Shl(y, 4));
    ShlTwice(x, 20, 20);
  }

  lemma ShlByFour(x: nat)
    ensures Shl(x, 4) == 16 * x
  {
    assert Shl(x, 1) == 2 * x;
    assert Shl(x, 2) == 4 * x;
    assert Shl(x, 4) == 4 * Shl(x, 2);
  }

  lemma TwentyBits(x: nat)
    ensures Low(x, 20) == x % 0x10_0000 && High(x, 20) == x / 0x10_0000
  {
    hide Low, High, Shl;
    LowAndHigh(x, 20);
    ShlByTwenty(1);
    ShlByTwenty(High(x, 20));
  }
}
