/** Base 128 varints: their bytes, the backward writer and the forward reader. */
module Varint {
  import opened Bits
  import opened Options
  import opened Words

  type Byte = b: nat | b < 256
  type Bytes = seq<Byte>

  datatype Error =
    | IntOverflow
    | UnexpectedEOF
    | InvalidLength
    | UnexpectedEndOfGroup
    | IllegalWireType
    | EndGroupForNonGroup
    | IllegalTag
    | WrongWireType

  const MAX_INT: int := TWO63 - 1

  /** Two's complement: the int64 with the bits of a word, and back. */
  function ToInt64(w: Word): (x: Int64)
    ensures x == w || x == w - TWO64
  {
    if w < TWO63 then w else w - TWO64
  }

  function ToWord(x: Int64): (w: Word)
    ensures ToInt64(w) == x
  {
    if x >= 0 then x else x + TWO64
  }

  /** The sum of two non-negative ints in Go's 64-bit int. */
  function AddInt(a: int, b: int): (r: Int64)
    requires 0 <= a < TWO63 && 0 <= b < TWO63
    ensures r == if a + b < TWO63 then a + b else a + b - TWO64
  {
    ToInt64(a + b)
  }

  // ---- where bytes lie ------------------------------------------------------------

  /** The bytes `x` lie in `d` from position `i` on. */
  ghost predicate At(d: Bytes, i: nat, x: Bytes): (b: bool)
    ensures b ==> i + |x| <= |d|
  {
    i + |x| <= |d| && d[i..i + |x|] == x
  }

  lemma AtSplit(d: Bytes, i: nat, x: Bytes, y: Bytes)
    ensures At(d, i, x + y) <==> At(d, i, x) && At(d, i + |x|, y)
  {
    if i + |x| + |y| <= |d| {
      assert d[i..i + |x| + |y|] == d[i..i + |x|] + d[i + |x|..i + |x| + |y|];
      if At(d, i, x + y) {
        assert d[i..i + |x|] == (x + y)[..|x|] == x;
        assert d[i + |x|..i + |x| + |y|] == (x + y)[|x|..] == y;
      }
    }
  }

  /** `s` with the bytes from `at` on overwritten by `x`. */
  ghost function Splice(s: Bytes, at: nat, x: Bytes): (r: Bytes)
    requires at + |x| <= |s|
    ensures |r| == |s|
  {
    s[..at] + x + s[at + |x|..]
  }

  /** Writing `y` and then `x` just before it is writing `x + y`. */
  lemma SpliceBefore(s: Bytes, at: nat, x: Bytes, y: Bytes)
    requires at + |x| + |y| <= |s|
    ensures Splice(Splice(s, at + |x|, y), at, x) == Splice(s, at, x + y)
  {
  }

  lemma SpliceNothing(s: Bytes, at: nat)
    requires at <= |s|
    ensures Splice(s, at, []) == s
  {
  }

  lemma SpliceExtend(s: Bytes, at: nat, x: Bytes, b: Byte)
    requires at + |x| < |s|
    ensures Splice(s, at, x)[at + |x| := b] == Splice(s, at, x + [b])
  {
  }

  // ---- the bytes of a varint -------------------------------------------------------

  /** Least significant group first, the high bit set on all but the last byte. */
  ghost function Bytes128(v: nat): (r: Bytes)
    ensures |r| >= 1
  {
    if v < 128 then [v] else [v % 128 + 128] + Bytes128(v / 128)
  }

  /** Byte k holds the k-th group of seven bits, counted from the least significant, and a
      high bit that says whether more follow. */
  lemma {:induction false} GroupsOf(v: nat, k: nat)
    requires k < |Bytes128(v)|
    ensures Bytes128(v)[k] == High(v, 7 * k) % 128 + if k < |Bytes128(v)| - 1 then 128 else 0
    ensures k == |Bytes128(v)| - 1 ==> High(v, 7 * k) < 128
  {
    if k > 0 {
      HighBySeven(v, 7 * (k - 1));
      GroupsOf(v / 128, k - 1);
    }
  }

  lemma HighBySeven(v: nat, k: nat)
    ensures High(v, 7 + k) == High(v / 128, k)
  {
    assert High(v, 7 + k) == High(v / 2, 6 + k) == High(v / 4, 5 + k) == High(v / 8, 4 + k);
    var u := v / 8;
    assert High(u, 4 + k) == High(u / 2, 3 + k) == High(u / 4, 2 + k) == High(u / 8, 1 + k) == High(u / 16, k);
  }

  /** The number of bits of `x`: bits.Len64. */
  function Len64(x: nat): nat
  {
    if x == 0 then 0 else 1 + Len64(x / 2)
  }

  function Sov(x: Word): nat
  {
    (Len64(Or(x, 1)) + 6) / 7
  }

  lemma OrOne(x: nat)
    ensures Or(x, 1) == x / 2 * 2 + 1
  {
    if x > 0 {
      assert Or(x / 2, 0) == x / 2;
    }
  }

  lemma LenOfShifted(x: nat)
    requires x >= 128
    ensures Len64(x) == 7 + Len64(x / 128)
  {
    var a := x / 8;
    LenOfHalves(x);
    LenOfHalves(a);
    assert Len64(a / 8) == 1 + Len64(a / 8 / 2);
    assert a / 8 / 2 == x / 128;
  }

  lemma LenOfHalves(x: nat)
    requires x >= 4
    ensures Len64(x) == 3 + Len64(x / 8)
  {
    var a := x / 2;
    var b := a / 2;
    assert Len64(x) == 1 + Len64(a);
    assert Len64(a) == 1 + Len64(b);
    assert Len64(b) == 1 + Len64(b / 2);
    assert b / 2 == x / 8;
  }

  lemma LenOfSmall(x: nat)
    requires 0 < x < 128
    ensures 1 <= Len64(x) <= 7
  {
    LenIsMonotone(x, 127);
    assert Len64(127) == 7;
  }

  lemma {:induction false} LenIsMonotone(x: nat, y: nat)
    requires x <= y
    ensures Len64(x) <= Len64(y)
  {
    if x > 0 {
      LenIsMonotone(x / 2, y / 2);
    }
  }

  /** The size formula counts exactly the bytes of the varint. */
  lemma {:induction false} SovIsLength(x: Word)
    ensures Sov(x) == |Bytes128(x)|
  {
    hide Or, Len64;
    OrOne(x);
    var y := x / 2 * 2 + 1;
    if x < 128 {
      LenOfSmall(y);
    } else {
      LenOfShifted(y);
      SovIsLength(x / 128);
      OrOne(x / 128);
      OddOverGroup(x);
      LenOfOdd(x / 128);
    }
  }

  lemma LenOfOdd(z: nat)
    requires z > 0
    ensures Len64(z / 2 * 2 + 1) == Len64(z)
  {
    assert (z / 2 * 2 + 1) / 2 == z / 2;
  }

  lemma OddOverGroup(x: nat)
    ensures (x / 2 * 2 + 1) / 128 == x / 128
  {
  }

  lemma AtMostTenBytes(x: Word)
    ensures |Bytes128(x)| <= 10
  {
    ShlByWord(1);
    ShlMonotone(1, 1, 64, 70);
    ShortBytes(x, 10);
  }

  lemma {:induction false} ShortBytes(x: nat, k: nat)
    requires x < Pow2(7 * k)
    ensures k > 0 ==> |Bytes128(x)| <= k
  {
    if x >= 128 && k > 0 {
      ShlTwice(1, 7 * (k - 1), 7);
      ShlBySeven(Pow2(7 * (k - 1)));
      ShortBytes(x / 128, k - 1);
    }
  }

  lemma HighBitSet(b: nat)
    requires b < 128
    ensures Or(b, 128) == b + 128
  {
    ShlBySeven(1);
    OrOfDisjoint(b, 1, 7);
  }

  lemma NextGroup(done: Bytes, x: nat)
    requires x >= 128
    ensures done + Bytes128(x) == done + [x % 128 + 128] + Bytes128(x / 128)
    ensures |Bytes128(x)| == 1 + |Bytes128(x / 128)|
  {
    assert Bytes128(x) == [x % 128 + 128] + Bytes128(x / 128);
  }

  /** Writes the varint of `v` so that it ends just before `offset`. */
  method EncodeVarint(dAtA: array<Byte>, offset: nat, v: Word) returns (base: nat)
    requires Sov(v) <= offset <= dAtA.Length
    modifies dAtA
    ensures base == offset - |Bytes128(v)|
    ensures dAtA[..] == Splice(old(dAtA[..]), base, Bytes128(v))
  {
    hide Or, Splice, Sov, Len64;
    SovIsLength(v);
    var o, x := offset - Sov(v), v;
    base := o;
    ghost var s := dAtA[..];
    ghost var done: Bytes := [];
    SpliceNothing(s, base);
    while x >= 128
      invariant o == base + |done| && o + |Bytes128(x)| == offset
      invariant done + Bytes128(x) == Bytes128(v)
      invariant dAtA[..] == Splice(s, base, done)
    {
      HighBitSet(x % 128);
      NextGroup(done, x);
      SpliceExtend(s, base, done, x % 128 + 128);
      dAtA[o] := Or(x % 128, 128);
      done := done + [x % 128 + 128];
      x := x / 128;
      o := o + 1;
    }
    SpliceExtend(s, base, done, x);
    dAtA[o] := x;
  }

  // ---- reading ----------------------------------------------------------------------

  /** What reading a varint leaves: the bits gathered, the position after the last
      byte looked at, and the error if there was one. */
  datatype Reading = Reading(value: nat, next: nat, err: Option<Error>)

  /** The reading from position `i` when `k` bytes have been read before; the value
      is not yet truncated to 64 bits. */
  ghost function Gather(d: Bytes, i: nat, k: nat): (r: Reading)
    requires i <= |d| && k <= 10
    ensures r.next <= |d| && (r.err.None? ==> i < r.next)
    decreases 10 - k
  {
    if k == 10 then Reading(0, i, Some(IntOverflow))
    else if i == |d| then Reading(0, i, Some(UnexpectedEOF))
    else if d[i] < 128 then Reading(d[i], i + 1, None)
    else
      var r := Gather(d, i + 1, k + 1);
      Reading(d[i] - 128 + 128 * r.value, r.next, r.err)
  }

  /** Reading a varint at `i`, the value truncated to 64 bits. */
  ghost function VarintAt(d: Bytes, i: nat): (r: Reading)
    requires i <= |d|
    ensures r.value < TWO64
    ensures r.next <= |d| && (r.err.None? ==> i < r.next)
  {
    var r := Gather(d, i, 0);
    r.(value := r.value % TWO64)
  }

  /** The first nine groups land above the bits already gathered, inside the word. */
  lemma OrIsAddition(wire: Word, b: nat, s: nat)
    requires s <= 56 && wire < Pow2(s) && b < 128
    ensures wire + Shl(b, s) < Pow2(s + 7)
    ensures Or(wire, ShiftLeft(b, s)) == wire + Shl(b, s)
  {
    GroupFits(wire, b, s);
    ShlByWord(1);
    ShlMonotone(1, 1, s + 7, 63);
    assert Shl(b, s) < TWO64;
    assert ShiftLeft(b, s) == Shl(b, s);
    OrOfDisjoint(wire, b, s);
  }

  lemma GroupFits(wire: nat, b: nat, s: nat)
    requires wire < Pow2(s) && b < 128
    ensures wire + Shl(b, s) < Pow2(s + 7)
  {
    ShlMonotone(b, 127, s, s);
    ShlSum(1, 127, s);
    ShlBySeven(1);
    ShlTwice(1, 7, s);
  }

  /** The tenth group has room for one bit only. */
  lemma LastOrDropsBits(wire: Word, b: nat)
    requires wire < Pow2(63) && b < 128
    ensures Or(wire, ShiftLeft(b, 63)) == (wire + Shl(b, 63)) % TWO64
  {
    hide Shl, Or;
    ShlByWord(1);
    ShlByWord(b);
    ShlByWord(b % 2);
    LowBitStays(0, b);
    LowBitStays(wire, b);
    OrOfDisjoint(wire, b % 2, 63);
  }

  lemma LowBitStays(w: nat, b: nat)
    requires w < TWO63
    ensures (w + TWO63 * b) % TWO64 == w + TWO63 * (b % 2)
  {
    assert w + TWO63 * b == TWO64 * (b / 2) + (w + TWO63 * (b % 2));
  }

  /** `k` groups have been gathered into `wire`, and the rest of the reading `whole`
      is what can be gathered from `i` on. */
  ghost predicate Gathered(whole: Reading, d: Bytes, i: nat, k: nat, wire: Word)
    requires i <= |d| && k <= 10
  {
    var r := Gather(d, i, k);
    && whole.next == r.next && whole.err == r.err
    && if k <= 9 then wire < Pow2(7 * k) && whole.value == wire + Shl(r.value, 7 * k)
       else wire == whole.value % TWO64
  }

  /** The value still to be gathered splits at the next byte. */
  lemma GatherSplits(d: Bytes, i: nat, k: nat, s: nat)
    requires i < |d| && k <= 9
    ensures var rest := if d[i] < 128 then 0 else Gather(d, i + 1, k + 1).value;
            Shl(Gather(d, i, k).value, s) == Shl(d[i] % 128, s) + Shl(rest, s + 7)
  {
    var b := d[i] % 128;
    var rest := if d[i] < 128 then 0 else Gather(d, i + 1, k + 1).value;
    assert Gather(d, i, k).value == b + 128 * rest;
    ShlSum(b, 128 * rest, s);
    ShlBySeven(rest);
    ShlTwice(rest, 7, s);
  }

  lemma NothingGathered(d: Bytes, i: nat)
    requires i <= |d|
    ensures Gathered(Gather(d, i, 0), d, i, 0, 0)
  {
    assert Shl(Gather(d, i, 0).value, 0) == Gather(d, i, 0).value;
  }

  /** One turn of the reading loop. */
  lemma GatherOne(whole: Reading, d: Bytes, i: nat, k: nat, wire: Word)
    requires i < |d| && k <= 9 && Gathered(whole, d, i, k, wire)
    ensures var wire' := Or(wire, ShiftLeft(d[i] % 128, 7 * k));
            && wire' < TWO64
            && if d[i] < 128 then whole.err.None? && whole.next == i + 1 && whole.value % TWO64 == wire'
               else Gathered(whole, d, i + 1, k + 1, wire')
  {
    hide Or, Shl;
    GatherSplits(d, i, k, 7 * k);
    ShlOfZero(7 * k + 7);
    OrOfGroup(wire, d[i] % 128, k);
  }

  lemma OrOfGroup(wire: Word, b: nat, k: nat)
    requires k <= 9 && wire < Pow2(7 * k) && b < 128
    ensures var wire' := Or(wire, ShiftLeft(b, 7 * k));
            && wire' == (wire + Shl(b, 7 * k)) % TWO64
            && (k <= 8 ==> wire' == wire + Shl(b, 7 * k) < Pow2(7 * k + 7))
  {
    hide Or, Shl;
    if k <= 8 {
      OrIsAddition(wire, b, 7 * k);
      NineGroupsFit(k + 1);
      FitsWord(wire + Shl(b, 7 * k));
    } else {
      LastOrDropsBits(wire, b);
    }
  }

  lemma FitsWord(x: nat)
    requires x < TWO63
    ensures x % TWO64 == x
  {
  }

  lemma NineGroupsFit(k: nat)
    requires k <= 9
    ensures Pow2(7 * k) <= TWO63
  {
    ShlByWord(1);
    ShlMonotone(1, 1, 7 * k, 63);
  }

  lemma {:induction false} ShlOfZero(s: nat)
    ensures Shl(0, s) == 0
  {
    if s > 0 {
      ShlOfZero(s - 1);
    }
  }

  /** The reading loop, shared by every varint of the parsers. */
  method ReadVarint(dAtA: Bytes, start: nat) returns (wire: Word, iNdEx: nat, err: Option<Error>)
    requires start <= |dAtA|
    ensures VarintAt(dAtA, start) == Reading(wire, iNdEx, err)
  {
    hide Or, Shl;
    var shift := 0;
    ghost var k := 0;
    wire, iNdEx := 0, start;
    ghost var whole := Gather(dAtA, start, 0);
    NothingGathered(dAtA, start);
    while true
      invariant start <= iNdEx <= |dAtA| && k <= 10 && shift == 7 * k
      invariant Gathered(whole, dAtA, iNdEx, k, wire)
      decreases 10 - k
    {
      if shift >= 64 {
        return wire, iNdEx, Some(IntOverflow);
      }
      if iNdEx >= |dAtA| {
        ShlOfZero(shift);
        NineGroupsFit(k);
        return wire, iNdEx, Some(UnexpectedEOF);
      }
      GatherOne(whole, dAtA, iNdEx, k, wire);
      var b := dAtA[iNdEx];
      iNdEx := iNdEx + 1;
      wire := Or(wire, ShiftLeft(b % 128, shift));
      if b < 128 {
        return wire, iNdEx, None;
      }
      shift := shift + 7;
      k := k + 1;
    }
  }

  /** The round trip of one varint, at any place in any bytes. */
  lemma VarintRoundTrip(d: Bytes, i: nat, v: Word)
    requires At(d, i, Bytes128(v))
    ensures VarintAt(d, i) == Reading(v, i + |Bytes128(v)|, None)
  {
    AtMostTenBytes(v);
    GatherWritten(d, i, v, 0);
  }

  lemma {:induction false} GatherWritten(d: Bytes, i: nat, v: nat, k: nat)
    requires k + |Bytes128(v)| <= 10 && At(d, i, Bytes128(v))
    ensures Gather(d, i, k) == Reading(v, i + |Bytes128(v)|, None)
    decreases v
  {
    var x := Bytes128(v);
    assert d[i] == d[i..i + |x|][0] == x[0];
    if v >= 128 {
      AtSplit(d, i, [v % 128 + 128], Bytes128(v / 128));
      GatherWritten(d, i + 1, v / 128, k + 1);
    }
  }

  /** A varint read from some bytes is read the same where those bytes are part of
      longer ones. */
  lemma AtByte(e: Bytes, o: nat, d: Bytes)
    requires At(e, o, d)
    ensures o + |d| <= |e| && forall i :: 0 <= i < |d| ==> e[o + i] == d[i]
  {
    forall i | 0 <= i < |d|
      ensures e[o + i] == d[i]
    {
      assert e[o..o + |d|][i] == d[i];
    }
  }

  lemma {:induction false} GatherEmbeds(d: Bytes, i: nat, k: nat, e: Bytes, o: nat)
    requires i <= |d| && k <= 10 && At(e, o, d)
    requires Gather(d, i, k).err.None? || |e| == o + |d|
    ensures var r := Gather(d, i, k); Gather(e, o + i, k) == r.(next := o + r.next)
    decreases 10 - k
  {
    hide At, Gather;
    AtByte(e, o, d);
    GatherTurn(d, i, k);
    GatherTurn(e, o + i, k);
    if k < 10 && i < |d| && d[i] >= 128 {
      GatherEmbeds(d, i + 1, k + 1, e, o);
    }
  }

  lemma GatherTurn(d: Bytes, i: nat, k: nat)
    requires i <= |d| && k <= 10
    ensures k == 10 ==> Gather(d, i, k) == Reading(0, i, Some(IntOverflow))
    ensures k < 10 && i == |d| ==> Gather(d, i, k) == Reading(0, i, Some(UnexpectedEOF))
    ensures k < 10 && i < |d| && d[i] < 128 ==> Gather(d, i, k) == Reading(d[i], i + 1, None)
    ensures k < 10 && i < |d| && d[i] >= 128 ==>
              var r := Gather(d, i + 1, k + 1);
              Gather(d, i, k) == Reading(d[i] - 128 + 128 * r.value, r.next, r.err)
  {
  }

  lemma VarintEmbeds(d: Bytes, i: nat, e: Bytes, o: nat)
    requires i <= |d| && At(e, o, d)
    requires VarintAt(d, i).err.None? || |e| == o + |d|
    ensures var r := VarintAt(d, i); VarintAt(e, o + i) == r.(next := o + r.next)
  {
    GatherEmbeds(d, i, 0, e, o);
  }

  /** Bytes that all ask for more are cut short, or too many. */
  lemma CutVarint(t: Bytes)
    requires forall b <- t :: b >= 128
    ensures VarintAt(t, 0).err == Some(if |t| < 10 then UnexpectedEOF else IntOverflow)
  {
    CutGather(t, 0, 0);
  }

  lemma {:induction false} CutGather(t: Bytes, i: nat, k: nat)
    requires i <= |t| && k <= 10 && forall b <- t :: b >= 128
    ensures Gather(t, i, k).err == Some(if |t| - i < 10 - k then UnexpectedEOF else IntOverflow)
    decreases 10 - k
  {
    if k < 10 && i < |t| {
      assert t[i] in t;
      CutGather(t, i + 1, k + 1);
    }
  }
}
