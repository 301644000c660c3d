/** The random source: Schrage's method in 32-bit arithmetic, the seeding loop,
    and the feedback register it fills. */
module Rng {
  import opened Bits
  import opened Words

  const RNG_LEN := 607
  const RNG_TAP := 273
  const P := 0x7fff_ffff  // 2^31 - 1, a prime
  const A := 48271
  const Q := 44488
  const R := 3399
  const A_INVERSE := 1899818559

  newtype int32 = x: int | -0x8000_0000 <= x <= 0x7fff_ffff
  newtype int64 = x: int | -0x8000_0000_0000_0000 <= x <= 0x7fff_ffff_ffff_ffff
  newtype uint64 = x: int | 0 <= x < 0x1_0000_0000_0000_0000

  /** Go's `/` by Q on int32, which truncates toward zero. */
  function Quo(a: int32): (q: int32)
    ensures -48271 <= q as int <= 48271
  {
    var n := a as int;
    (if n >= 0 then n / Q else -((-n) / Q)) as int32
  }

  /** Go's `%` by Q on int32, whose result has the sign of the dividend. */
  function Rem(a: int32): (r: int32)
    ensures a as int == Q * Quo(a) as int + r as int
    ensures -Q < r as int < Q
    ensures (a >= 0 ==> r >= 0) && (a <= 0 ==> r <= 0)
  {
    var n := a as int;
    var r := if n >= 0 then n % Q else -((-n) % Q);
    assert n == Q * (if n >= 0 then n / Q else -((-n) / Q)) + r;
    r as int32
  }

  // ---- one step of the multiplicative generator --------------------------------

  /** Schrage's method. Every operation is on int32, so that it verifies at all says
      that no intermediate value overflows; the result is the exact product
      modulo 2^31 - 1, for every int32 argument. */
  method SeedRand(x0: int32) returns (x: int32)
    ensures x as int == (A * x0 as int) % P
  {
    var hi := Quo(x0);
    var lo := Rem(x0);
    assert A * lo as int - R * hi as int == A * x0 as int - P * hi as int;
    x := 48271 * lo - 3399 * hi;
    if x < 0 {
      x := x + 0x7fff_ffff;
    }
  }

  /** The generator permutes the non-zero residues: multiplying by the inverse of
      48271 undoes a step, so a step never reaches 0 from a non-zero residue. */
  lemma StepIsInvertible(x: int)
    ensures (A_INVERSE * ((A * x) % P)) % P == x % P
    ensures (A * x) % P == 0 <==> x % P == 0
  {
    var y := (A * x) % P;
    var k := (A * x) / P;
    assert A * x == P * k + y;
    var q := (A_INVERSE * A - 1) / P;
    assert A_INVERSE * A == P * q + 1;
    assert A_INVERSE * y == P * (q * x - A_INVERSE * k) + x;
    assert A_INVERSE * y - x == P * (q * x - A_INVERSE * k);
    ModUnique(A_INVERSE * y, x, q * x - A_INVERSE * k);
    ModUnique(A * x, y, k);
    if x % P == 0 {
      ModUnique(A * x, 0, A * (x / P));
    }
  }

  lemma ModUnique(a: int, b: int, k: int)
    requires a == P * k + b
    ensures a % P == b % P
  {
  }

  /** Two different residues never step to the same one. */
  lemma StepIsInjective(x: int, y: int)
    requires (A * x) % P == (A * y) % P
    ensures x % P == y % P
  {
    StepIsInvertible(x);
    StepIsInvertible(y);
  }

  // ---- the closed form ----------------------------------------------------------

  function Pow(b: nat, k: nat): nat
  {
    if k == 0 then 1 else b * Pow(b, k - 1)
  }

  /** The k-th value after `s`: 48271^k * s modulo 2^31 - 1. */
  ghost function Lcg(s: int, k: nat): (r: int)
    ensures 0 <= r < P
  {
    (Pow(A, k) * s) % P
  }

  lemma LcgNext(s: int, k: nat)
    ensures (A * Lcg(s, k)) % P == Lcg(s, k + 1)
  {
    var n := Pow(A, k) * s;
    assert Pow(A, k + 1) * s == A * n by {
      assert Pow(A, k + 1) == A * Pow(A, k);
    }
    assert A * n == P * (A * (n / P)) + A * (n % P);
    ModUnique(A * n, A * (n % P), A * (n / P));
  }

  lemma {:induction false} LcgNonZero(s: int, k: nat)
    requires s % P != 0
    ensures 0 < Lcg(s, k) < P
  {
    hide Lcg;
    if k == 0 {
      LcgStart(s);
    } else {
      LcgNonZero(s, k - 1);
      LcgNext(s, k - 1);
      StepIsInvertible(Lcg(s, k - 1));
    }
  }

  /** The starting value the loop uses: the seed reduced modulo 2^31 - 1, with the
      residue 0 replaced. */
  ghost function Normalised(seed: int): (s: int)
    ensures 0 < s < P
    ensures s == seed % P || (seed % P == 0 && s == 89482311)
  {
    if seed % P == 0 then 89482311 else seed % P
  }

  /** One cell of the register: three consecutive values, shifted, and the constant
      of that cell. */
  function Cell(x1: int, x2: int, x3: int, cooked: Word): Word
    requires 0 <= x1 < P && 0 <= x2 < P && 0 <= x3 < P
  {
    XorWords(XorWords(XorWords(ShiftLeft(x1, 40), ShiftLeft(x2, 20)), x3), cooked)
  }

  ghost function SeededCell(s: int, i: nat, cooked: seq<Word>): Word
    requires i < |cooked|
  {
    Cell(Lcg(s, 21 + 3 * i), Lcg(s, 22 + 3 * i), Lcg(s, 23 + 3 * i), cooked[i])
  }

  /** The whole register that seeding leaves behind. */
  ghost function SeededVec(seed: int, cooked: seq<Word>): (v: seq<Word>)
    requires |cooked| == RNG_LEN
  {
    seq(RNG_LEN, i requires 0 <= i < RNG_LEN => SeededCell(Normalised(seed), i, cooked))
  }

  /** Seeds that agree modulo 2^31 - 1 leave the same register. */
  lemma CongruentSeedsAgree(seed: int, seed': int, cooked: seq<Word>)
    requires |cooked| == RNG_LEN && seed % P == seed' % P
    ensures SeededVec(seed, cooked) == SeededVec(seed', cooked)
  {
  }

  /** What the bits of a seeded cell are, once the constant of the cell is taken out: the
      low 20 are those of the third value, the next 20 the low 20 of the second crossed
      with the high 11 of the third, and the top 24 the low 24 of the first crossed with
      the high 11 of the second. */
  lemma SeededBits(seed: int, cooked: seq<Word>, i: nat)
    requires |cooked| == RNG_LEN && i < RNG_LEN
    ensures var s := Normalised(seed);
            var x1, x2, x3 := Lcg(s, 21 + 3 * i), Lcg(s, 22 + 3 * i), Lcg(s, 23 + 3 * i);
            var y := Xor(SeededVec(seed, cooked)[i], cooked[i]);
            && y % 0x10_0000 == x3 % 0x10_0000
            && y / 0x10_0000 % 0x10_0000 == Xor(x2 % 0x10_0000, x3 / 0x10_0000)
            && y / 0x10_0000 / 0x10_0000 == Xor(x1 % 0x100_0000, x2 / 0x10_0000)
  {
    hide Lcg, Xor;
    var s := Normalised(seed);
    CellBits(Lcg(s, 21 + 3 * i), Lcg(s, 22 + 3 * i), Lcg(s, 23 + 3 * i), cooked[i]);
  }

  lemma CellBits(x1: int, x2: int, x3: int, cooked: Word)
    requires 0 <= x1 < P && 0 <= x2 < P && 0 <= x3 < P
    ensures var y := Xor(Cell(x1, x2, x3, cooked), cooked);
            && y % 0x10_0000 == x3 % 0x10_0000
            && y / 0x10_0000 % 0x10_0000 == Xor(x2 % 0x10_0000, x3 / 0x10_0000)
            && y / 0x10_0000 / 0x10_0000 == Xor(x1 % 0x100_0000, x2 / 0x10_0000)
  {
    hide Xor, ShiftLeft;
    var u1, u2 := ShiftLeft(x1, 40), ShiftLeft(x2, 20);
    var a := Xor(u1, u2);
    XorUndone(Xor(a, x3), cooked);
    LowTwenty(u1, u2, x1, x2, x3);
    MiddleTwenty(u1, u2, x1, x2, x3);
  }

  lemma LowTwenty(u1: nat, u2: nat, x1: nat, x2: nat, x3: nat)
    requires x2 < P && u1 == ShiftLeft(x1, 40) && u2 == ShiftLeft(x2, 20)
    ensures Xor(Xor(u1, u2), x3) % 0x10_0000 == x3 % 0x10_0000
  {
    hide Xor, ShiftLeft;
    NoLowBits(x1, x2);
    var _, _ := XorTwenty(u1, u2);
    var _, _ := XorTwenty(Xor(u1, u2), x3);
    XorNothing(0);
    XorNothing(x3 % 0x10_0000);
  }

  lemma MiddleTwenty(u1: nat, u2: nat, x1: nat, x2: nat, x3: nat)
    requires x2 < P && x3 < P && u1 == ShiftLeft(x1, 40) && u2 == ShiftLeft(x2, 20)
    ensures var h := Xor(Xor(u1, u2), x3) / 0x10_0000;
            && h % 0x10_0000 == Xor(x2 % 0x10_0000, x3 / 0x10_0000)
            && h / 0x10_0000 == Xor(x1 % 0x100_0000, x2 / 0x10_0000)
  {
    hide Xor, ShiftLeft;
    NoLowBits(x1, x2);
    var m := x1 % 0x100_0000;
    var _, _ := XorTwenty(u1, u2);
    var _, h := XorTwenty(Xor(u1, u2), x3);
    assert h == Xor(Xor(0x10_0000 * m, x2), x3 / 0x10_0000);
    TopBits(m, x2, x3 / 0x10_0000);
  }

  lemma TopBits(m: nat, x2: nat, r: nat)
    requires r < 0x10_0000
    ensures var h := Xor(Xor(0x10_0000 * m, x2), r);
            h % 0x10_0000 == Xor(x2 % 0x10_0000, r) && h / 0x10_0000 == Xor(m, x2 / 0x10_0000)
  {
    hide Xor;
    var b := Xor(0x10_0000 * m, x2);
    var _, _ := XorTwenty(0x10_0000 * m, x2);
    var _, _ := XorTwenty(b, r);
    XorNothing(x2 % 0x10_0000);
    XorNothing(b / 0x10_0000);
  }

  lemma NoLowBits(x1: nat, x2: nat)
    requires x2 < P
    ensures ShiftLeft(x1, 40) % 0x10_0000 == 0 && ShiftLeft(x2, 20) % 0x10_0000 == 0
    ensures ShiftLeft(x1, 40) / 0x10_0000 == 0x10_0000 * (x1 % 0x100_0000) && ShiftLeft(x2, 20) / 0x10_0000 == x2
  {
    hide ShiftLeft;
    Shifted(x1, x2);
  }

  lemma Shifted(x1: nat, x2: nat)
    requires x2 < P
    ensures ShiftLeft(x1, 40) == 0x100_0000_0000 * (x1 % 0x100_0000)
    ensures ShiftLeft(x2, 20) == 0x10_0000 * x2
  {
    hide Shl;
    ShlByTwenty(x1);
    ShlByTwenty(x2);
    assert 0x100_0000_0000 * x1 == TWO64 * (x1 / 0x100_0000) + 0x100_0000_0000 * (x1 % 0x100_0000);
  }

  lemma XorTwenty(a: nat, b: nat) returns (low: nat, high: nat)
    ensures low == Xor(a, b) % 0x10_0000 == Xor(a % 0x10_0000, b % 0x10_0000)
    ensures high == Xor(a, b) / 0x10_0000 == Xor(a / 0x10_0000, b / 0x10_0000)
  {
    hide Xor, Low, High;
    XorSplits(a, b, 20);
    TwentyBits(a);
    TwentyBits(b);
    TwentyBits(Xor(a, b));
    low, high := Xor(a, b) % 0x10_0000, Xor(a, b) / 0x10_0000;
  }

  lemma LcgStart(s: int)
    ensures Lcg(s, 0) == s % P
  {
    assert Pow(A, 0) * s == s;
  }

  lemma LcgPrevious(s: int, k: nat)
    ensures (A_INVERSE * Lcg(s, k + 1)) % P == Lcg(s, k)
  {
    LcgNext(s, k);
    StepIsInvertible(Lcg(s, k));
  }

  /** One value of the sequence fixes the starting value: starting values that differ
      modulo 2^31 - 1 give different values at every step. */
  lemma {:induction false} ValueFixesStart(s: int, t: int, k: nat)
    requires Lcg(s, k) == Lcg(t, k)
    ensures s % P == t % P
  {
    if k == 0 {
      LcgStart(s);
      LcgStart(t);
    } else {
      LcgPrevious(s, k - 1);
      LcgPrevious(t, k - 1);
      ValueFixesStart(s, t, k - 1);
    }
  }

  // ---- the feedback register -----------------------------------------------------

  /** Where the n-th call reads the tap and where it reads and writes the feed, n
      counted from 1 after seeding. Both counters are uint64 and wrap. */
  ghost function TapIndex(n: nat): (i: nat)
    ensures i < RNG_LEN
  {
    (n % TWO64) % RNG_LEN
  }

  ghost function FeedIndex(n: nat): (i: nat)
    ensures i < RNG_LEN
  {
    ((RNG_LEN - RNG_TAP - n) % TWO64) % RNG_LEN
  }

  /** Go's int64 `+`, which wraps. */
  function Sum(a: Word, b: Word): Word
  {
    (a + b) % TWO64
  }

  /** `seedrand`, placed on the sequence of a starting value. */
  method StepFrom(x0: int32, ghost s: int, ghost k: nat) returns (x: int32)
    requires x0 as int == Lcg(s, k)
    ensures x as int == Lcg(s, k + 1)
  {
    x := SeedRand(x0);
    LcgNext(s, k);
  }

  method StartingValue(seed0: int64) returns (x: int32)
    ensures x as int == Normalised(seed0 as int)
  {
    var seed := RemInt64(seed0);
    if seed < 0 {
      seed := seed + P;
    }
    if seed == 0 {
      seed := 89482311;
    }
    x := seed as int32;
  }

  class RngSource {
    var tap: uint64
    var feed: uint64
    const vec: array<Word>
    ghost var calls: nat

    ghost predicate Valid()
      reads this
    {
      && vec.Length == RNG_LEN
      && tap as int == calls % TWO64
      && feed as int == (RNG_LEN - RNG_TAP - calls) % TWO64
    }

    constructor (seed: int64, cooked: seq<Word>)
      requires |cooked| == RNG_LEN
      ensures Valid() && calls == 0 && fresh(vec)
      ensures vec[..] == SeededVec(seed as int, cooked)
    {
      tap, feed, calls := 0, 334, 0;
      vec := new Word[RNG_LEN];
      new;
      Seed(seed, cooked);
    }

    /** The seeding loop: 20 discarded steps, then three steps for each of the 607
        cells. */
    method Seed(seed: int64, cooked: seq<Word>)
      requires vec.Length == RNG_LEN && |cooked| == RNG_LEN
      modifies this, vec
      ensures Valid() && calls == 0
      ensures vec[..] == SeededVec(seed as int, cooked)
    {
      tap := 0;
      feed := 334;
      calls := 0;
      var x := StartingValue(seed);
      ghost var s := x as int;
      LcgStart(s);
      var i := -20;
      while i < RNG_LEN
        invariant -20 <= i <= RNG_LEN
        invariant Valid() && calls == 0
        invariant x as int == if i < 0 then Lcg(s, i + 20) else Lcg(s, 20 + 3 * i)
        invariant forall j :: 0 <= j < i ==> vec[j] == SeededCell(s, j, cooked)
      {
        if i < 0 {
          x := StepFrom(x, s, i + 20);
        } else {
          x := FillCell(x, s, i, cooked);
        }
        i := i + 1;
      }
      assert vec[..] == SeededVec(seed as int, cooked);
    }

    method FillCell(x0: int32, ghost s: int, i: nat, cooked: seq<Word>) returns (x: int32)
      requires vec.Length == RNG_LEN == |cooked| && i < RNG_LEN
      requires x0 as int == Lcg(s, 20 + 3 * i)
      modifies vec
      ensures x as int == Lcg(s, 23 + 3 * i)
      ensures vec[..] == old(vec[..])[i := SeededCell(s, i, cooked)]
    {
      var x1 := StepFrom(x0, s, 20 + 3 * i);
      var x2 := StepFrom(x1, s, 21 + 3 * i);
      x := StepFrom(x2, s, 22 + 3 * i);
      vec[i] := Cell(x1 as int, x2 as int, x as int, cooked[i]);
    }

    /** Moves both counters, wrapping at 2^64, and returns the two cells. */
    method Advance() returns (f: int, t: int)
      requires Valid()
      modifies this
      ensures Valid() && calls == old(calls) + 1
      ensures tap as int == (old(tap) as int + 1) % TWO64 && feed as int == (old(feed) as int - 1) % TWO64
      ensures f == FeedIndex(calls) == feed as int % RNG_LEN && t == TapIndex(calls) == tap as int % RNG_LEN
    {
      NextTap(calls);
      NextFeed(RNG_LEN - RNG_TAP - calls);
      tap := if tap as int == TWO64 - 1 then 0 else tap + 1;
      feed := if feed == 0 then 0xffff_ffff_ffff_ffff else feed - 1;
      calls := calls + 1;
      f, t := feed as int % RNG_LEN, tap as int % RNG_LEN;
    }

    /** One output: the sum of two cells, written back over the feed cell. */
    method Uint64() returns (x: Word)
      requires Valid()
      modifies this, vec
      ensures Valid() && calls == old(calls) + 1
      ensures tap as int == (old(tap) as int + 1) % TWO64 && feed as int == (old(feed) as int - 1) % TWO64
      ensures var f, t := feed as int % RNG_LEN, tap as int % RNG_LEN;
              && f == FeedIndex(calls) && t == TapIndex(calls)
              && x == (old(vec[f]) + old(vec[t])) % TWO64
              && vec[..] == old(vec[..])[f := x]
    {
      var f, t := Advance();
      x := Sum(vec[f], vec[t]);
      vec[f] := x;
    }

    /** The non-negative half of the range: the top bit is masked off. */
    method Int63() returns (x: Word)
      requires Valid()
      modifies this, vec
      ensures Valid() && calls == old(calls) + 1
      ensures tap as int == (old(tap) as int + 1) % TWO64 && feed as int == (old(feed) as int - 1) % TWO64
      ensures var f, t := feed as int % RNG_LEN, tap as int % RNG_LEN;
              var y := (old(vec[f]) + old(vec[t])) % TWO64;
              vec[..] == old(vec[..])[f := y] && x == y % TWO63
    {
      x := Uint64();
      x := x % TWO63;
    }
  }

  /** Go's `%` on int64 by 2^31 - 1, which takes the dividend's sign. */
  function RemInt64(a: int64): (r: int)
    ensures -P < r < P
    ensures r % P == a as int % P
    ensures (a >= 0 ==> r >= 0) && (a <= 0 ==> r <= 0)
  {
    var n := a as int;
    if n >= 0 then n % P else
      var r := -((-n) % P);
      ModUnique(n, r, -((-n) / P));
      r
  }

  lemma NextTap(n: nat)
    ensures (n + 1) % TWO64 == if n % TWO64 == TWO64 - 1 then 0 else n % TWO64 + 1
  {
    var q, m := n / TWO64, n % TWO64;
    assert n + 1 == if m == TWO64 - 1 then TWO64 * (q + 1) else TWO64 * q + (m + 1);
  }

  lemma NextFeed(n: int)
    ensures (n - 1) % TWO64 == if n % TWO64 == 0 then TWO64 - 1 else n % TWO64 - 1
  {
    var q, m := n / TWO64, n % TWO64;
    assert n - 1 == if m == 0 then TWO64 * (q - 1) + (TWO64 - 1) else TWO64 * q + (m - 1);
  }

  lemma ReadAsWord(n: int)
    requires -TWO64 <= n < TWO64
    ensures n % TWO64 == if n >= 0 then n else n + TWO64
  {
  }

  lemma SameIndex(a: nat, b: nat)
    ensures a % RNG_LEN == b % RNG_LEN <==> (a - b) % RNG_LEN == 0
  {
    assert a - b == RNG_LEN * (a / RNG_LEN - b / RNG_LEN) + (a % RNG_LEN - b % RNG_LEN);
  }

  /** The tap counts up while the feed counts down, so the distance between the two
      cells is not the fixed lag of an additive generator: it changes by two a call.
      Within the first 2^64 calls the two cells coincide exactly at these calls,
      and the first is call 167. */
  lemma FeedMeetsTap(n: nat)
    requires 0 < n < TWO64
    ensures TapIndex(n) == FeedIndex(n) <==>
            if n <= RNG_LEN - RNG_TAP then n == 167 else (2 * n - 334 - TWO64) % RNG_LEN == 0
  {
    ReadAsWord(n);
    ReadAsWord(RNG_LEN - RNG_TAP - n);
    SameIndex(n, if n <= 334 then 334 - n else TWO64 + 334 - n);
  }

  /** Such a call adds a cell to itself: its output is even whatever the seed. */
  method CallThatDoubles(rng: RngSource) returns (x: Word)
    requires rng.Valid() && TapIndex(rng.calls + 1) == FeedIndex(rng.calls + 1)
    modifies rng, rng.vec
    ensures x % 2 == 0
  {
    x := rng.Uint64();
    DoubledIsEven(old(rng.vec[FeedIndex(rng.calls + 1)]));
  }

  lemma DoubledIsEven(v: Word)
    ensures Sum(v, v) % 2 == 0
  {
    assert v + v == TWO64 * ((v + v) / TWO64) + Sum(v, v);
  }
}
