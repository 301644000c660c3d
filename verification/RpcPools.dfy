/** The pool of pools: one pool per address, chosen by least calls in flight, in turn or
    at random, with a fallback to a connected pool and a sweep of idle ones. */
module RpcPools {
  import opened Words

  const LEAST_ROUND_MAX := 20
  const LEAST_RAND_COUNT := 10

  // ---- the scan order ---------------------------------------------------------------------

  lemma MulGrows(n: int, d: int)
    requires n > 0
    ensures d >= 1 ==> n * d >= n
    ensures d <= -1 ==> n * d <= -n
  {
  }

  lemma ModIs(a: nat, n: nat, q: int, m: nat)
    requires n > 0 && a == n * q + m && m < n
    ensures a % n == m
  {
    var d := a / n - q;
    assert n * d == n * (a / n) - n * q;
    MulGrows(n, d);
  }

  /** The turn at which a scan of `n` slots in cyclic order from `start` reaches slot `k`. */
  ghost function TurnOf(start: nat, k: nat, n: nat): (i: nat)
    requires k < n
    ensures i < n && Cyclic(start, i, n) == k
  {
    var m := start % n;
    var i := if k >= m then k - m else k + n - m;
    assert n * (start / n + 1) == n * (start / n) + n;
    ModIs(start + i, n, if k >= m then start / n else start / n + 1, k);
    i
  }

  function Cyclic(start: nat, i: nat, n: nat): (k: nat)
    requires n > 0
    ensures k < n
  {
    (start + i) % n
  }

  /** The slot the i-th turn of the fallback scan looks at: the sum is a uint32. */
  function ScanSlot(index: nat, i: nat, n: nat): (k: nat)
    requires n > 0
    ensures k < n
  {
    ((index + i) % TWO32) % n
  }

  ghost predicate Reaches(index: nat, n: nat, k: nat)
    requires n > 0
  {
    exists i :: 0 <= i < n && ScanSlot(index, i, n) == k
  }

  /** The sum does not wrap, or wrapping does not disturb the order. */
  predicate ScanIsWhole(index: nat, n: nat)
    requires n > 0
  {
    index + n <= TWO32 || TWO32 % n == 0
  }

  lemma WholeScanIsCyclic(index: nat, i: nat, n: nat)
    requires 0 < n < TWO32 && index < TWO32 && i < n && ScanIsWhole(index, n)
    ensures ScanSlot(index, i, n) == Cyclic(index, i, n)
  {
    if index + i >= TWO32 {
      var b := index + i - TWO32;
      var p := TWO32 / n;
      assert TWO32 == n * p;
      assert n * (b / n + p) == n * (b / n) + n * p;
      ModIs(index + i, n, b / n + p, b % n);
    }
  }

  /** Residues counted down from 2^32. */
  lemma ResidueBelow(t: nat, n: nat)
    requires 0 < t <= n < TWO32
    ensures var r := TWO32 % n; (TWO32 - t) % n == if t <= r then r - t else r - t + n
  {
    var r, q := TWO32 % n, TWO32 / n;
    assert n * (q - 1) == n * q - n;
    if t <= r {
      ModIs(TWO32 - t, n, q, r - t);
    } else {
      ModIs(TWO32 - t, n, q - 1, r - t + n);
    }
  }

  /** A slot that a wrapping scan never looks at. */
  function MissedSlot(index: nat, n: nat): (k: nat)
    requires 0 < n < TWO32 && index < TWO32 && !ScanIsWhole(index, n)
    ensures k < n
  {
    var r, j := TWO32 % n, TWO32 - index;
    if r <= j then n - j + r - 1 else n - 1
  }

  lemma WrappingScanMisses(index: nat, n: nat, i: nat)
    requires 0 < n < TWO32 && index < TWO32 && !ScanIsWhole(index, n) && i < n
    ensures ScanSlot(index, i, n) != MissedSlot(index, n)
  {
    var j := TWO32 - index;
    if i < j {
      SmallMod(index + i, TWO32);
      ResidueBelow(j - i, n);
    } else {
      ModIs(index + i, TWO32, 1, i - j);
      SmallMod(i - j, n);
    }
  }

  lemma SmallMod(a: nat, n: nat)
    requires a < n
    ensures a % n == a
  {
  }

  /** The scan finds a connected pool whenever there is one, whichever it is, exactly when
      the scan does not wrap or 2^32 is a multiple of the number of pools. */
  lemma FallbackFinds(index: nat, n: nat)
    requires 0 < n < TWO32 && index < TWO32
    ensures (forall k :: 0 <= k < n ==> Reaches(index, n, k)) <==> ScanIsWhole(index, n)
  {
    if ScanIsWhole(index, n) {
      forall k | 0 <= k < n
        ensures Reaches(index, n, k)
      {
        var i := TurnOf(index, k, n);
        WholeScanIsCyclic(index, i, n);
      }
    } else {
      forall i | 0 <= i < n
        ensures ScanSlot(index, i, n) != MissedSlot(index, n)
      {
        WrappingScanMisses(index, n, i);
      }
      assert !Reaches(index, n, MissedSlot(index, n));
    }
  }

  /** A random index can wrap: with three pools, drawn 2^32 - 2, slot 1 is never seen. */
  lemma RandomIndexCanMiss()
    ensures !Reaches(TWO32 - 2, 3, 1)
  {
    assert !ScanIsWhole(TWO32 - 2, 3);
    WrappingScanMisses(TWO32 - 2, 3, 0);
    WrappingScanMisses(TWO32 - 2, 3, 1);
    WrappingScanMisses(TWO32 - 2, 3, 2);
  }

  /** An index with room for a scan of `n` slots from the next one. */
  predicate Small(index: nat, n: nat)
  {
    index + 1 + n <= TWO32
  }

  lemma NextTurn(s: nat, i: nat, n: nat)
    requires s < n && i < n
    ensures Cyclic(Cyclic(s, i, n) + 1, 0, n) == Cyclic(s, i + 1, n)
  {
    TurnMod(s, i, n);
    TurnMod(s, i + 1, n);
    TurnMod(if s + i < n then s + i else s + i - n, 1, n);
  }

  /** From the same slot two scans go on through the same slots. */
  lemma SameTurns(at: nat, s: nat, t: nat, i: nat, n: nat)
    requires s < n && t + i <= n && Cyclic(at, 0, n) == Cyclic(s, t, n)
    ensures Cyclic(at, i, n) == Cyclic(s, t + i, n)
  {
    hide Cyclic;
    TurnMod(s, t, n);
    TurnMod(s, t + i, n);
    FurtherMod(at, i, n);
    CyclicIs(at, 0, n);
    CyclicIs(at, i, n);
  }

  lemma CyclicIs(at: nat, i: nat, n: nat)
    requires n > 0
    ensures Cyclic(at, i, n) == (at + i) % n
  {
  }

  /** How many steps a scan takes from one slot to another. */
  function Steps(from: int, to: int, n: nat): nat
    requires n > 0
  {
    (to - from) % n
  }

  /** The i-th slot of a scan is i steps from where it began. */
  lemma Distance(a: nat, i: nat, n: nat)
    requires i < n
    ensures Steps(a, Cyclic(a, i, n), n) == i && Steps(a, Cyclic(a % n, i, n), n) == i
  {
    hide Cyclic;
    CyclicIs(a, i, n);
    CyclicIs(a % n, i, n);
    FurtherMod(a, i, n);
    FurtherMod(a % n, i, n);
    SmallMod(a % n, n);
    var m, q := a % n, a / n;
    assert a == n * q + m;
    assert n * -q == -(n * q) && n * (-q - 1) == -(n * q) - n;
    if m + i < n {
      IntModIs(m + i - a, n, -q, i);
    } else {
      IntModIs(m + i - n - a, n, -q - 1, i);
    }
  }

  lemma IntModIs(a: int, n: nat, q: int, m: nat)
    requires n > 0 && a == n * q + m && m < n
    ensures a % n == m
  {
    var d := a / n - q;
    assert n * d == n * (a / n) - n * q;
    MulGrows(n, d);
  }

  lemma FurtherMod(a: nat, i: nat, n: nat)
    requires 0 < n && i <= n
    ensures (a + i) % n == if a % n + i < n then a % n + i else a % n + i - n
  {
    var m, q := a % n, a / n;
    assert a == n * q + m;
    if m + i < n {
      ModIs(a + i, n, q, m + i);
    } else {
      assert n * (q + 1) == n * q + n;
      ModIs(a + i, n, q + 1, m + i - n);
    }
  }

  lemma FirstTurn(index: nat, n: nat)
    requires n > 0
    ensures Cyclic(index + 1, 0, n) == (index + 1) % n == Cyclic((index + 1) % n, 0, n)
  {
    SmallMod((index + 1) % n, n);
  }

  lemma TurnMod(s: nat, i: nat, n: nat)
    requires s < n && i <= n
    ensures Cyclic(s, i, n) == if s + i < n then s + i else s + i - n
  {
    if s + i < n {
      SmallMod(s + i, n);
    } else {
      ModIs(s + i, n, 1, s + i - n);
    }
  }

  // ---- pools ---------------------------------------------------------------------------------

  /** A pool of connections to one address. */
  class RpcPool {
    const addr: string
    var connected: bool
    ghost var closings: nat

    constructor (addr: string, connected: bool)
      ensures this.addr == addr && this.connected == connected && closings == 0
    {
      this.addr, this.connected, closings := addr, connected, 0;
    }

    method Close()
      modifies this`connected, this`closings
      ensures closings == old(closings) + 1 && !connected
    {
      connected := false;
      closings := closings + 1;
    }
  }

  class StPool {
    var pl: RpcPool
    var last: int
    var call: Int64
    var isStatic: bool

    constructor (pl: RpcPool, last: int, isStatic: bool)
      ensures this.pl == pl && this.last == last && this.isStatic == isStatic && call == 0
    {
      this.pl, this.last, this.isStatic, call := pl, last, isStatic, 0;
    }
  }

  /** The members of the list that are not in `drop`, in order. */
  ghost function Kept(s: seq<StPool>, drop: set<StPool>): (r: seq<StPool>)
    ensures |r| <= |s|
    ensures forall p <- r :: p in s && p !in drop
  {
    if s == [] then []
    else Kept(s[..|s| - 1], drop) + (if s[|s| - 1] in drop then [] else [s[|s| - 1]])
  }

  lemma ScanTurn(at: nat, s: nat, t: nat, j: nat, n: nat)
    requires s < n && t + j < n && Cyclic(at, 0, n) == Cyclic(s, t, n) && at + n <= TWO32 && n < TWO32
    ensures ScanSlot(at, j, n) == Cyclic(s, t + j, n)
  {
    hide Cyclic;
    SameTurns(at, s, t, j, n);
    NoWrapIsWhole(at, n);
    WholeScanIsCyclic(at, j, n);
  }

  /** A place from `t` on that is not dropped, when some is kept there. */
  lemma LiveAhead(s: seq<StPool>, t: nat, drop: set<StPool>) returns (m: nat)
    requires t <= |s| && |Kept(s[..t], drop)| < |Kept(s, drop)|
    ensures t <= m < |s| && s[m] !in drop
  {
    hide Kept;
    assert s[..|s|] == s;
    if forall j :: t <= j < |s| ==> s[j] in drop {
      KeptSkips(s, t, |s| - t, drop);
      assert false;
    }
    m :| t <= m < |s| && s[m] !in drop;
  }

  /** The list in cyclic order from a slot. */
  function TurnedFrom(pools: seq<StPool>, start: nat): seq<StPool>
    requires pools != []
  {
    var s := start % |pools|;
    pools[s..] + pools[..s]
  }

  lemma Turned(pools: seq<StPool>, start: nat)
    requires pools != []
    ensures |TurnedFrom(pools, start)| == |pools|
    ensures forall j :: 0 <= j < |pools| ==>
              TurnedFrom(pools, start)[j] == pools[Cyclic(start % |pools|, j, |pools|)]
  {
    hide Cyclic;
    forall j | 0 <= j < |pools|
      ensures TurnedFrom(pools, start)[j] == pools[Cyclic(start % |pools|, j, |pools|)]
    {
      TurnMod(start % |pools|, j, |pools|);
    }
  }

  lemma {:induction false} KeptSkips(s: seq<StPool>, t: nat, i: nat, drop: set<StPool>)
    requires t + i <= |s| && forall j :: t <= j < t + i ==> s[j] in drop
    ensures Kept(s[..t + i], drop) == Kept(s[..t], drop)
  {
    hide Kept;
    if i > 0 {
      KeptSkips(s, t, i - 1, drop);
      KeptNext(s, t + i - 1, drop);
      assert t + i - 1 + 1 == t + i;
    }
  }

  lemma {:induction false} KeptPrefix(s: seq<StPool>, t: nat, drop: set<StPool>)
    requires t <= |s|
    ensures |Kept(s[..t], drop)| <= |Kept(s, drop)|
    ensures Kept(s[..t], drop) == Kept(s, drop)[..|Kept(s[..t], drop)|]
  {
    if t == |s| {
      assert s[..t] == s;
    } else {
      var r := s[..|s| - 1];
      KeptPrefix(r, t, drop);
      assert r[..t] == s[..t];
    }
  }

  class RpcPools {
    var addr2pool: map<string, StPool>
    var pools: seq<StPool>
    var index: nat
    var idleTimeOut: int
    var isClosed: bool
    ghost var taken: set<RpcPool>  // every pool ever taken in

    /** In use: the pool of its address. */
    ghost predicate InUse(x: RpcPool)
      reads this, addr2pool.Values`pl
    {
      x.addr in addr2pool && addr2pool[x.addr].pl == x
    }

    /** The list and the map hold the same pools, one per address. */
    ghost predicate SamePools()
      reads this, pools`pl, addr2pool.Values`pl
    {
      && (forall i, j :: 0 <= i < j < |pools| ==> pools[i] != pools[j])
      && (forall p <- pools :: p.pl.addr in addr2pool && addr2pool[p.pl.addr] == p)
      && (forall a <- addr2pool :: addr2pool[a] in pools && addr2pool[a].pl.addr == a)
    }

    /** Every pool taken in is in use and never closed, or was closed exactly once. */
    ghost predicate ClosedOnce()
      reads this, addr2pool.Values`pl, taken`closings
    {
      && (forall x <- taken :: x.closings == if InUse(x) then 0 else 1)
      && (forall a <- addr2pool :: addr2pool[a].pl in taken)
    }

    ghost predicate Valid()
      reads this, pools`pl, addr2pool.Values`pl, taken`closings
    {
      SamePools() && ClosedOnce() && index < TWO32
    }

    constructor (idleTimeOut: int)
      ensures Valid() && pools == [] && taken == {} && !isClosed && this.idleTimeOut == idleTimeOut
    {
      addr2pool, pools, index, isClosed, taken := map[], [], 0, false, {};
      this.idleTimeOut := idleTimeOut;
    }

    // ---- choosing ---------------------------------------------------------------------------

    /** The calls in flight, in cyclic order from `start`. */
    ghost function CallsFrom(start: nat): (c: seq<Int64>)
      reads this`pools, pools
      ensures |c| == |pools|
      ensures forall i :: 0 <= i < |c| ==> c[i] == pools[Cyclic(start, i, |pools|)].call
    {
      var ps := pools;
      seq(|ps|, i requires 0 <= i < |ps| reads ps => ps[Cyclic(start, i, |ps|)].call)
    }

    lemma CallsFromCover(start: nat, k: nat)
      requires k < |pools|
      ensures TurnOf(start, k, |pools|) < |pools|
      ensures CallsFrom(start)[TurnOf(start, k, |pools|)] == pools[k].call
    {
    }

    /** Slot `k` has the fewest calls, and is the first such in cyclic order from `start`
        unless every count is the largest there is. With negative counts it may be one at
        zero instead. */
    ghost predicate LeastFrom(start: nat, k: nat)
      reads this`pools, pools
    {
      && k < |pools|
      && (pools[k].call == 0 || forall p <- pools :: pools[k].call <= p.call)
      && ((forall p <- pools :: p.call >= 0) ==> forall p <- pools :: pools[k].call <= p.call)
      && (pools[k].call < MAX_INT64 ==>
            exists at :: 0 <= at < |pools| && k == Cyclic(start, at, |pools|)
                         && forall j :: 0 <= j < at ==> pools[k].call < CallsFrom(start)[j])
    }

    /** Slot `k` is one of those drawn, with the fewest calls among them. */
    ghost predicate LeastDrawn(randoms: seq<nat>, k: nat)
      reads this`pools, pools
    {
      && k < |pools|
      && ((forall p <- pools :: p.call >= 0) ==>
            forall i :: 0 <= i < |randoms| ==> pools[k].call <= pools[Cyclic(0, randoms[i], |pools|)].call)
      && ((exists i :: 0 <= i < |randoms| && k == Cyclic(0, randoms[i], |pools|))
          || forall i :: 0 <= i < |randoms| ==> pools[Cyclic(0, randoms[i], |pools|)].call == MAX_INT64)
    }

    /** No slot of as few calls is nearer to the random start. */
    lemma NearestLeast(random: nat, k: nat)
      requires pools != [] && LeastFrom(random % |pools|, k)
      ensures k < |pools|
      ensures (forall p <- pools :: p.call >= 0) ==> forall p <- pools :: pools[k].call <= p.call
      ensures pools[k].call < MAX_INT64 ==> forall j :: 0 <= j < |pools| && pools[j].call == pools[k].call ==>
                Steps(random, k, |pools|) <= Steps(random, j, |pools|)
    {
      hide Cyclic, Steps, CallsFrom, TurnOf;
      var n := |pools|;
      if pools[k].call < MAX_INT64 {
        var s := random % n;
        var at :| 0 <= at < n && k == Cyclic(s, at, n) && forall j :: 0 <= j < at ==> pools[k].call < CallsFrom(s)[j];
        Distance(random, at, n);
        forall j | 0 <= j < n && pools[j].call == pools[k].call
          ensures Steps(random, k, n) <= Steps(random, j, n)
        {
          CallsFromCover(s, j);
          Distance(random, TurnOf(s, j, n), n);
        }
      }
    }

    lemma DrawnMeans(randoms: seq<nat>, k: nat)
      requires LeastDrawn(randoms, k)
      ensures k < |pools|
      ensures (forall p <- pools :: p.call >= 0) ==>
                forall r <- randoms :: pools[k].call <= pools[Cyclic(0, r, |pools|)].call
      ensures (exists r <- randoms :: pools[Cyclic(0, r, |pools|)].call < MAX_INT64) ==>
                exists r <- randoms :: k == Cyclic(0, r, |pools|)
    {
      hide Cyclic;
      if i :| 0 <= i < |randoms| && k == Cyclic(0, randoms[i], |pools|) {
        assert randoms[i] in randoms;
      }
    }

    /** Scans in cyclic order from a random slot for the fewest calls in flight, stopping
        early at none. */
    method LeastGetWhenLess(random: nat) returns (index: nat)
      requires 0 < |pools| <= LEAST_ROUND_MAX && random < TWO32
      ensures LeastFrom(random % |pools|, index)
    {
      hide Cyclic;
      var min := MAX_INT64;
      var nlen := |pools|;
      var bgIndex := random % nlen;
      ghost var c := CallsFrom(bgIndex);
      index := 0;
      ghost var at := 0;
      var i := 0;
      while i < nlen
        invariant i <= nlen && index < nlen
        invariant min == MAX_INT64 || (at < i && index == Cyclic(bgIndex, at, nlen) && min == c[at])
        invariant forall j :: 0 <= j < i ==> min <= c[j]
        invariant min < MAX_INT64 ==> forall j :: 0 <= j < at ==> min < c[j]
        invariant min != 0
      {
        var cur := (bgIndex + i) % nlen;
        CyclicIs(bgIndex, i, nlen);
        if min > pools[cur].call {
          min := pools[cur].call;
          index := cur;
          at := i;
        }
        if min == 0 {
          break;
        }
        i := i + 1;
      }
      if min != 0 {
        AllAtLeast(bgIndex, min);
      }
    }

    lemma AllAtLeast(start: nat, min: Int64)
      requires forall j :: 0 <= j < |pools| ==> min <= CallsFrom(start)[j]
      ensures forall p <- pools :: min <= p.call
    {
      forall p <- pools
        ensures min <= p.call
      {
        var k :| 0 <= k < |pools| && pools[k] == p;
        CallsFromCover(start, k);
      }
    }

    /** With many pools, the fewest calls among ten drawn at random. */
    method LeastGetWhenBigger(randoms: seq<nat>) returns (index: nat)
      requires 0 < |pools| && |randoms| == LEAST_RAND_COUNT
      ensures LeastDrawn(randoms, index)
    {
      var min := MAX_INT64;
      index := 0;
      ghost var at := 0;
      var i := 0;
      while i < LEAST_RAND_COUNT
        invariant i <= LEAST_RAND_COUNT && index < |pools| && at < |randoms|
        invariant min == MAX_INT64 || (min == pools[index].call && index == Cyclic(0, randoms[at], |pools|))
        invariant forall j :: 0 <= j < i ==> min <= pools[Cyclic(0, randoms[j], |pools|)].call
        invariant min != 0
      {
        var cur := randoms[i] % |pools|;
        assert cur == Cyclic(0, randoms[i], |pools|);
        if min > pools[cur].call {
          min := pools[cur].call;
          index := cur;
          at := i;
        }
        if min == 0 {
          break;
        }
        i := i + 1;
      }
      if min == 0 && forall p <- pools :: p.call >= 0 {
        assert forall j :: 0 <= j < |randoms| ==> pools[Cyclic(0, randoms[j], |pools|)] in pools;
      }
    }

    /** Slot `k` is what the fallback scan from `at` ends with: the first slot with a
        connected pool, or where it began when it saw none. */
    ghost predicate Selected(at: nat, k: nat)
      reads this`pools, pools`pl, set p <- pools :: p.pl
    {
      && k < |pools|
      && ((exists i :: 0 <= i < |pools| && k == ScanSlot(at, i, |pools|) && pools[k].pl.connected
                       && forall j :: 0 <= j < i ==> !pools[ScanSlot(at, j, |pools|)].pl.connected)
          || (k == at % |pools| && forall j :: 0 <= j < |pools| ==> !pools[ScanSlot(at, j, |pools|)].pl.connected))
    }

    /** The pool at the index if it is connected, else the first connected one of the
        scan, else the one at the index all the same. */
    method GetIndexEx(at: nat) returns (pl: StPool?)
      requires at < TWO32 && |pools| < TWO32
      modifies this`index
      ensures pl == null <==> pools == []
      ensures pools == [] ==> index == old(index)
      ensures pools != [] ==> Selected(at, index) && index < |pools| && pl == pools[index]
      ensures pools != [] && ScanIsWhole(at, |pools|) ==>
                (pl.pl.connected <==> exists p <- pools :: p.pl.connected)
      ensures pools != [] && pools[at % |pools|].pl.connected ==> index == at % |pools|
      ensures pools != [] && (forall p <- pools :: !p.pl.connected) ==> index == at % |pools|
      ensures pools != [] && ScanIsWhole(at, |pools|) ==>
                forall j :: 0 <= j < |pools| && pools[j].pl.connected ==>
                  pl.pl.connected && Steps(at, index, |pools|) <= Steps(at, j, |pools|)
    {
      hide Selected, ScanIsWhole, Steps;
      pl := ScanFrom(at);
      if pools != [] {
        NearestConnected(at, index);
      }
    }

    /** The scan itself, after the pool at the index. */
    method ScanFrom(at: nat) returns (pl: StPool?)
      requires at < TWO32 && |pools| < TWO32
      modifies this`index
      ensures pl == null <==> pools == []
      ensures pools == [] ==> index == old(index)
      ensures pools != [] ==> Selected(at, index) && index < |pools| && pl == pools[index]
      ensures pools != [] && ScanIsWhole(at, |pools|) ==>
                (pl.pl.connected <==> exists p <- pools :: p.pl.connected)
      ensures pools != [] && pools[at % |pools|].pl.connected ==> index == at % |pools|
    {
      if pools != [] && ScanIsWhole(at, |pools|) && exists p <- pools :: p.pl.connected {
        WholeScanFinds(at);
      }
      var length := |pools|;
      if 0 >= length {
        return null;
      }
      pl := pools[at % length];
      index := at % length;
      assert index == ScanSlot(at, 0, length);
      if !pl.pl.connected {
        for i := 0 to length
          invariant pl == pools[index] && !pl.pl.connected && index == at % length
          invariant forall j :: 0 <= j < i ==> !pools[ScanSlot(at, j, length)].pl.connected
        {
          var tmpIndex := ((at + i) % TWO32) % length;
          assert tmpIndex == ScanSlot(at, i, length);
          var tmp := pools[tmpIndex];
          if tmp.pl.connected {
            pl := tmp;
            index := tmpIndex;
            return;
          }
        }
      }
    }

    /** What is selected is where the scan began or, in a scan that does not wrap, no
        further from it than any connected pool. */
    lemma NearestConnected(at: nat, k: nat)
      requires pools != [] && |pools| < TWO32 && at < TWO32 && Selected(at, k)
      ensures k < |pools|
      ensures (forall p <- pools :: !p.pl.connected) ==> k == at % |pools|
      ensures ScanIsWhole(at, |pools|) ==> forall j :: 0 <= j < |pools| && pools[j].pl.connected ==>
                pools[k].pl.connected && Steps(at, k, |pools|) <= Steps(at, j, |pools|)
    {
      hide Cyclic, Steps, ScanSlot, ScanIsWhole, TurnOf;
      var n := |pools|;
      if ScanIsWhole(at, n) {
        forall j | 0 <= j < n && pools[j].pl.connected
          ensures pools[k].pl.connected && Steps(at, k, n) <= Steps(at, j, n)
        {
          var t := TurnOf(at, j, n);
          WholeScanIsCyclic(at, t, n);
          Distance(at, t, n);
          assert pools[ScanSlot(at, t, n)].pl.connected;
          var i :| 0 <= i < n && k == ScanSlot(at, i, n) && pools[k].pl.connected
                   && forall j :: 0 <= j < i ==> !pools[ScanSlot(at, j, n)].pl.connected;
          WholeScanIsCyclic(at, i, n);
          Distance(at, i, n);
        }
      }
    }

    /** A scan that does not wrap finds a connected pool whenever there is one. */
    lemma WholeScanFinds(at: nat)
      requires 0 < |pools| < TWO32 && at < TWO32 && ScanIsWhole(at, |pools|)
      requires exists p <- pools :: p.pl.connected
      ensures exists i :: 0 <= i < |pools| && pools[ScanSlot(at, i, |pools|)].pl.connected
    {
      FallbackFinds(at, |pools|);
      var k :| 0 <= k < |pools| && pools[k].pl.connected;
      assert Reaches(at, |pools|, k);
    }

    /** The round strategy: the scan from the next index. An index left by an earlier
        choice from a list of at most 2^31 pools is small enough for the scan to find a
        connected pool whenever there is one, and this choice leaves such an index. */
    method RollGet() returns (pl: StPool?)
      requires index < TWO32 && |pools| < TWO32
      modifies this`index
      ensures pl == null <==> pools == []
      ensures pools == [] ==> index == (old(index) + 1) % TWO32
      ensures pools != [] ==> Selected((old(index) + 1) % TWO32, index) && pl == pools[index]
      ensures pools != [] && (ScanIsWhole((old(index) + 1) % TWO32, |pools|) || Small(old(index), |pools|)) ==>
                (pl.pl.connected <==> exists p <- pools :: p.pl.connected)
      ensures pools != [] && pools[Cyclic((old(index) + 1) % TWO32, 0, |pools|)].pl.connected ==>
                index == Cyclic((old(index) + 1) % TWO32, 0, |pools|)
      ensures pools != [] && 2 * |pools| <= TWO32 ==> Small(index, |pools|)
    {
      hide Selected, ScanIsWhole, ScanSlot;
      if pools != [] && Small(index, |pools|) {
        SmallMod(index + 1, TWO32);
        NoWrapIsWhole(index + 1, |pools|);
      }
      index := (index + 1) % TWO32;
      pl := GetIndexEx(index);
      SelectedInRange((old(index) + 1) % TWO32, index);
    }

    lemma SelectedInRange(at: nat, k: nat)
      ensures pools != [] && Selected(at, k) ==> k < |pools|
    {
    }

    /** The pools that are not connected. */
    ghost function Down(): set<StPool>
      reads this`pools, pools`pl, set p <- pools :: p.pl
    {
      set p | p in pools && !p.pl.connected
    }

    /** Consecutive choices, as many as there are connected pools or fewer, return the
        connected pools in the order of the list from the slot after the last index, so
        that no pool is returned twice before every connected one has been. */
    method RollRound(times: nat) returns (visited: seq<StPool>)
      requires pools != [] && Small(index, |pools|) && 2 * |pools| <= TWO32
      requires times <= |Kept(TurnedFrom(pools, index + 1), Down())|
      modifies this`index
      ensures visited == Kept(TurnedFrom(pools, old(index) + 1), Down())[..times]
      ensures Small(index, |pools|)
    {
      hide Selected, ScanIsWhole, ScanSlot, Cyclic, Kept, Down, TurnedFrom;
      var n := |pools|;
      ghost var s, down := (index + 1) % n, Down();
      ghost var turned := TurnedFrom(pools, index + 1);
      ghost var t := 0;
      visited := [];
      FirstTurn(index, n);
      Turned(pools, index + 1);
      KeptNothing(turned, down);
      while |visited| < times
        invariant |visited| <= times && Small(index, n) && t <= n
        invariant Cyclic(index + 1, 0, n) == Cyclic(s, t, n)
        invariant visited == Kept(turned[..t], down)
        decreases times - |visited|
      {
        ghost var at := index + 1;
        SmallMod(at, TWO32);
        var pl := RollGet();
        t := NextLive(turned, t, at, s, index);
        visited := visited + [pl];
      }
      KeptPrefix(turned, t, down);
    }

    ghost predicate IsTurned(turned: seq<StPool>, s: nat)
      reads this`pools
    {
      |turned| == |pools| && forall j :: 0 <= j < |pools| ==> turned[j] == pools[Cyclic(s, j, |pools|)]
    }

    /** The scan from `at` goes through the turned slots from `t` on. */
    ghost predicate Ahead(turned: seq<StPool>, t: nat, at: nat)
      requires t <= |turned| == |pools|
      reads this`pools
    {
      forall j :: 0 <= j < |pools| - t ==> pools[ScanSlot(at, j, |pools|)] == turned[t + j]
    }

    /** After `t` of the turned slots, with connected pools still to come, the scan ends
        at the next of them. */
    lemma NextLive(turned: seq<StPool>, t: nat, at: nat, s: nat, k: nat) returns (t': nat)
      requires |turned| == |pools| > s && t <= |pools| < TWO32 && at + |pools| <= TWO32
      requires IsTurned(turned, s)
      requires Cyclic(at, 0, |pools|) == Cyclic(s, t, |pools|) && Selected(at, k)
      requires |Kept(turned[..t], Down())| < |Kept(turned, Down())|
      ensures t < t' <= |pools| && k < |pools| && Cyclic(k + 1, 0, |pools|) == Cyclic(s, t', |pools|)
      ensures Kept(turned[..t'], Down()) == Kept(turned[..t], Down()) + [pools[k]]
    {
      hide Cyclic, ScanSlot, Kept, Selected, Down, IsTurned, Ahead;
      var m := LiveAhead(turned, t, Down());
      ScanAhead(turned, t, at, s);
      var i := FirstAhead(turned, t, at, k, m);
      KeptSkips(turned, t, i, Down());
      KeptNext(turned, t + i, Down());
      ScanTurn(at, s, t, i, |pools|);
      NextTurn(s, t + i, |pools|);
      t' := t + i + 1;
    }

    lemma ScanAhead(turned: seq<StPool>, t: nat, at: nat, s: nat)
      requires |turned| == |pools| > s && t <= |pools| < TWO32 && at + |pools| <= TWO32
      requires IsTurned(turned, s)
      requires Cyclic(at, 0, |pools|) == Cyclic(s, t, |pools|)
      ensures Ahead(turned, t, at)
    {
      hide Cyclic, ScanSlot;
      forall j | 0 <= j < |pools| - t
        ensures pools[ScanSlot(at, j, |pools|)] == turned[t + j]
      {
        ScanTurn(at, s, t, j, |pools|);
      }
    }

    lemma FirstAhead(turned: seq<StPool>, t: nat, at: nat, k: nat, m: nat) returns (i: nat)
      requires |turned| == |pools| && t <= m < |pools| && Selected(at, k)
      requires turned[m] !in Down() && Ahead(turned, t, at)
      ensures t + i <= m && k == ScanSlot(at, i, |pools|)
      ensures turned[t + i] == pools[k] && turned[t + i] !in Down()
      ensures forall j :: t <= j < t + i ==> turned[j] in Down()
    {
      hide ScanSlot, Ahead;
      AheadAt(turned, t, at, m - t);
      i :| 0 <= i < |pools| && k == ScanSlot(at, i, |pools|) && pools[k].pl.connected
           && forall j :: 0 <= j < i ==> !pools[ScanSlot(at, j, |pools|)].pl.connected;
      forall j | t <= j < t + i
        ensures turned[j] in Down()
      {
        AheadAt(turned, t, at, j - t);
      }
      AheadAt(turned, t, at, i);
    }

    lemma AheadAt(turned: seq<StPool>, t: nat, at: nat, j: nat)
      requires t + j < |turned| == |pools| && Ahead(turned, t, at)
      ensures pools[ScanSlot(at, j, |pools|)] == turned[t + j] && turned[t + j] in pools
    {
    }

    method RandomGet(random: nat) returns (pl: StPool?)
      requires random < TWO32 && |pools| < TWO32
      modifies this`index
      ensures pl == null <==> pools == []
      ensures pools == [] ==> index == random
      ensures pools != [] ==> Selected(random, index) && pl == pools[index]
      ensures pools != [] && ScanIsWhole(random, |pools|) ==>
                (pl.pl.connected <==> exists p <- pools :: p.pl.connected)
    {
      index := random;
      pl := GetIndexEx(index);
    }

    /** The least strategy: the scan from a slot `k` of fewest calls. That index is below
        the number of pools, so the fallback finds a connected pool whenever there is one. */
    method LeastGet(random: nat, randoms: seq<nat>) returns (pl: StPool?, ghost k: nat)
      requires random < TWO32 && |randoms| == LEAST_RAND_COUNT && 2 * |pools| <= TWO32
      modifies this`index
      ensures pl == null <==> pools == []
      ensures pools != [] ==> index < |pools| && pl == pools[index]
      ensures pools != [] ==> (pl.pl.connected <==> exists p <- pools :: p.pl.connected)
      ensures pools != [] ==> k < |pools| && Selected(k, index)
      ensures 0 < |pools| <= LEAST_ROUND_MAX ==> LeastFrom(random % |pools|, k)
      ensures 0 < |pools| <= LEAST_ROUND_MAX && (forall p <- pools :: p.call >= 0) ==>
                && (forall p <- pools :: pools[k].call <= p.call)
                && (pools[k].call < MAX_INT64 ==> forall j :: 0 <= j < |pools| && pools[j].call == pools[k].call ==>
                      Steps(random, k, |pools|) <= Steps(random, j, |pools|))
      ensures |pools| > LEAST_ROUND_MAX ==> LeastDrawn(randoms, k)
      ensures |pools| > LEAST_ROUND_MAX && (forall p <- pools :: p.call >= 0) ==>
                forall r <- randoms :: pools[k].call <= pools[Cyclic(0, r, |pools|)].call
      ensures |pools| > LEAST_ROUND_MAX && (exists r <- randoms :: pools[Cyclic(0, r, |pools|)].call < MAX_INT64) ==>
                exists r <- randoms :: k == Cyclic(0, r, |pools|)
    {
      hide ScanIsWhole, Selected, ScanSlot, Cyclic, Steps, TurnOf, CallsFrom, LeastFrom, LeastDrawn;
      if |pools| == 0 {
        return null, 0;
      }
      var least;
      if |pools| <= LEAST_ROUND_MAX {
        least := LeastGetWhenLess(random);
        NearestLeast(random, least);
      } else {
        least := LeastGetWhenBigger(randoms);
        DrawnMeans(randoms, least);
      }
      SmallIndexIsWhole(least, |pools|);
      index := least;
      pl := GetIndexEx(least);
      k := least;
    }

    // ---- keeping the list and the map ----------------------------------------------------------

    /** Takes a pool in, or gives an address that is known already the new pool, closing
        the old one. */
    method Push(addr: string, pl: StPool, now: int) returns (r: StPool)
      requires Valid() && pl.pl.addr == addr && pl !in pools && pl.pl !in taken && pl.pl.closings == 0
      modifies this`addr2pool, this`pools, this`taken
      modifies addr2pool.Values`pl, addr2pool.Values`last, addr2pool.Values`isStatic, taken`connected, taken`closings
      ensures Valid() && taken == old(taken) + {pl.pl}
      ensures r in pools && r.pl == pl.pl && addr in addr2pool && addr2pool[addr] == r
      ensures addr !in old(addr2pool) ==>
                r == pl && pools == old(pools) + [pl] && addr2pool == old(addr2pool)[addr := pl]
      ensures addr in old(addr2pool) ==> r == old(addr2pool[addr]) && pools == old(pools) && addr2pool == old(addr2pool)
      ensures addr in old(addr2pool) ==> r.isStatic == pl.isStatic && r.last == now
      ensures forall x <- old(taken) ::
                x.closings == old(x.closings) + if addr in old(addr2pool) && x == old(addr2pool[addr].pl) then 1 else 0
    {
      if addr in addr2pool {
        r := addr2pool[addr];
        Replace(r, addr, pl, now);
      } else {
        r := pl;
        Add(addr, pl);
      }
    }

    method Replace(tmp: StPool, addr: string, pl: StPool, now: int)
      requires Valid() && addr in addr2pool && addr2pool[addr] == tmp
      requires pl.pl.addr == addr && pl !in pools && pl.pl !in taken && pl.pl.closings == 0
      modifies this`taken, tmp`pl, tmp`last, tmp`isStatic, taken`connected, taken`closings
      ensures Valid() && taken == old(taken) + {pl.pl}
      ensures tmp.pl == pl.pl && tmp.isStatic == pl.isStatic && tmp.last == now
      ensures forall x <- old(taken) :: x.closings == old(x.closings) + if old(InUse(x)) && x.addr == addr then 1 else 0
    {
      tmp.pl.Close();
      tmp.pl := pl.pl;
      tmp.isStatic := pl.isStatic;
      tmp.last := now;
      taken := taken + {pl.pl};
    }

    method Add(addr: string, pl: StPool)
      requires Valid() && addr !in addr2pool
      requires pl.pl.addr == addr && pl !in pools && pl.pl !in taken && pl.pl.closings == 0
      modifies this`addr2pool, this`pools, this`taken
      ensures Valid() && taken == old(taken) + {pl.pl}
      ensures pools == old(pools) + [pl] && addr2pool == old(addr2pool)[addr := pl]
    {
      addr2pool := addr2pool[addr := pl];
      pools := pools + [pl];
      taken := taken + {pl.pl};
    }

    /** A pool for the address: the one there is, or a new one if it can be opened. */
    method NewAndPush(addr: string, canOpen: bool, isStatic: bool, now: int) returns (r: StPool?)
      requires Valid()
      modifies this`addr2pool, this`pools, this`taken
      modifies addr2pool.Values`pl, addr2pool.Values`last, addr2pool.Values`isStatic, taken`connected, taken`closings
      ensures Valid()
      ensures r == null <==> isClosed || (addr !in old(addr2pool) && !canOpen)
      ensures r != null ==> r in pools && addr in addr2pool && addr2pool[addr] == r
      ensures r == null || addr in old(addr2pool) ==>
                addr2pool == old(addr2pool) && pools == old(pools) && taken == old(taken)
      ensures r != null && addr !in old(addr2pool) ==>
                && fresh(r) && fresh(r.pl) && pools == old(pools) + [r] && addr2pool == old(addr2pool)[addr := r]
                && r.isStatic == isStatic && r.last == now && r.call == 0 && taken == old(taken) + {r.pl}
      ensures forall x <- old(taken) :: x.closings == old(x.closings)
    {
      hide ClosedOnce;
      if isClosed {
        return null;
      }
      if addr in addr2pool {
        return addr2pool[addr];
      }
      if !canOpen {
        return null;
      }
      var tmp := new RpcPool(addr, true);
      var tmpPL := new StPool(tmp, now, isStatic);
      r := Push(addr, tmpPL, now);
    }

    /** Drops the i-th pool and closes it; nothing for an index out of range. */
    method RemoveIndex(i: int)
      requires Valid()
      modifies this`addr2pool, this`pools, taken`connected, taken`closings
      ensures Valid() && taken == old(taken)
      ensures if 0 <= i < |old(pools)|
              then pools == old(pools)[..i] + old(pools)[i + 1..]
                   && addr2pool == old(addr2pool) - {old(pools[i]).pl.addr}
                   && old(pools[i]).pl.closings == old(pools[i].pl.closings) + 1
              else pools == old(pools) && addr2pool == old(addr2pool)
      ensures forall x <- taken :: (0 <= i < |old(pools)| && x == old(pools[i]).pl)
                                   || (x.closings == old(x.closings) && x.connected == old(x.connected))
    {
      if i < 0 || i >= |pools| {
        return;
      }
      var tmp := pools[i];
      pools := pools[..i] + pools[i + 1..];
      addr2pool := addr2pool - {tmp.pl.addr};
      tmp.pl.Close();
    }

    method GetServerIndex(addr: string) returns (index: int)
      requires Valid()
      ensures addr in addr2pool ==> 0 <= index < |pools| && pools[index] == addr2pool[addr]
      ensures addr !in addr2pool ==> index == -1
    {
      index := -1;
      for i := 0 to |pools|
        invariant index == -1
        invariant forall j :: 0 <= j < i ==> pools[j].pl.addr != addr
      {
        if addr == pools[i].pl.addr {
          index := i;
          break;
        }
      }
    }

    method CloseServer(addr: string)
      requires Valid()
      modifies this`addr2pool, this`pools, taken`connected, taken`closings
      ensures Valid() && addr2pool == old(addr2pool) - {addr}
      ensures forall p <- old(pools) :: p in pools <==> p.pl.addr != addr
      ensures forall p <- pools :: p in old(pools)
      ensures forall p <- old(pools) :: p.pl.closings == old(p.pl.closings) + if p.pl.addr == addr then 1 else 0
    {
      var i := GetServerIndex(addr);
      RemoveIndex(i);
    }

    /** Opened on demand, without a call in flight, and idle for too long. */
    predicate Expired(p: StPool, now: int)
      reads this`idleTimeOut, p`isStatic, p`last, p`call
    {
      !p.isStatic && now - p.last > idleTimeOut && p.call == 0
    }

    ghost function ExpiredPools(now: int): set<StPool>
      reads this, pools
    {
      set p | p in pools && Expired(p, now)
    }

    /** `RemoveIndex` seen from the list as it was when the sweep began. */
    method RemoveKth(i: nat, ghost before: seq<RpcPool>, ghost counts: seq<nat>, ghost dropped: set<nat>, ghost k: nat)
      requires Valid() && i < |pools| && k < |before| && before[k] == pools[i].pl && k !in dropped
      requires (forall x <- before :: x in taken)
      requires forall j, j' :: 0 <= j < j' < |before| ==> before[j] != before[j']
      requires ClosedAt(before, counts, dropped)
      modifies this`addr2pool, this`pools, taken`connected, taken`closings
      ensures Valid() && taken == old(taken) && pools == old(pools)[..i] + old(pools)[i + 1..]
      ensures ClosedAt(before, counts, dropped + {k})
    {
      hide Valid;
      RemoveIndex(i);
      forall j | 0 <= j < |before|
        ensures before[j].closings == counts[j] + if j in dropped + {k} then 1 else 0
      {
        assert before[j] in taken;
      }
    }

    /** One turn: the pool at place `i` is removed, or the place moves on. */
    method SweepTurn(i: nat, now: int, ghost was: seq<StPool>, ghost drop: set<StPool>, ghost before: seq<RpcPool>,
                     ghost counts: seq<nat>, ghost k: nat, ghost dropped: set<nat>)
      returns (i': nat, ghost dropped': set<nat>)
      requires Valid() && i < |pools| && Sweeping(was, drop, k, i, pools, dropped) && ClosedAt(before, counts, dropped)
      requires forall p <- was :: Expired(p, now) <==> p in drop
      requires |before| == |was| && forall j :: 0 <= j < |was| ==> before[j] == was[j].pl
      requires forall x <- before :: x in taken
      requires forall j, j' :: 0 <= j < j' < |before| ==> before[j] != before[j']
      modifies this`addr2pool, this`pools, taken`connected, taken`closings
      ensures Valid() && taken == old(taken)
      ensures Sweeping(was, drop, k + 1, i', pools, dropped') && ClosedAt(before, counts, dropped')
    {
      hide Valid, Expired, ClosedAt, Sweeping;
      SweepAt(was, drop, k, i, pools, dropped);
      i', dropped' := i, dropped;
      if Expired(pools[i], now) {
        RemoveKth(i, before, counts, dropped, k);
        dropped' := dropped + {k};
      } else {
        i' := i + 1;
      }
    }

    /** The sweeping loop, over the list as it was and the pools to be dropped. */
    method SweepAll(now: int, ghost was: seq<StPool>, ghost drop: set<StPool>, ghost before: seq<RpcPool>,
                    ghost counts: seq<nat>)
      requires Valid() && was == pools && ClosedAt(before, counts, {})
      requires forall p <- was :: Expired(p, now) <==> p in drop
      requires |before| == |was| && forall j :: 0 <= j < |was| ==> before[j] == was[j].pl
      requires forall x <- before :: x in taken
      requires forall j, j' :: 0 <= j < j' < |before| ==> before[j] != before[j']
      modifies this`addr2pool, this`pools, taken`connected, taken`closings
      ensures Valid() && taken == old(taken) && pools == Kept(was, drop)
      ensures ClosedAt(before, counts, set j | 0 <= j < |was| && was[j] in drop)
    {
      hide Valid, Expired, ClosedAt, Sweeping, Kept;
      ghost var k, dropped: set<nat> := 0, {};
      SweepBegins(was, drop);
      var i: nat := 0;
      while i < |pools|
        invariant Valid() && taken == old(taken)
        invariant forall p <- was :: Expired(p, now) <==> p in drop
        invariant Sweeping(was, drop, k, i, pools, dropped) && ClosedAt(before, counts, dropped)
        decreases |was| - k
      {
        SweepAt(was, drop, k, i, pools, dropped);
        i, dropped := SweepTurn(i, now, was, drop, before, counts, k, dropped);
        k := k + 1;
      }
      SweepAt(was, drop, k, i, pools, dropped);
    }

    /** The sweep deletes while it walks the list. What stays is the list without the
        expired pools, in order; each expired pool is closed once and nothing else is. */
    method RemoveIdleTimeOut(now: int)
      requires Valid()
      modifies this`addr2pool, this`pools, taken`connected, taken`closings
      ensures Valid() && taken == old(taken)
      ensures pools == Kept(old(pools), old(ExpiredPools(now)))
      ensures ClosedAt(old(PoolsOf(pools)), old(CountsOf(PoolsOf(pools))),
                       set j | 0 <= j < |old(pools)| && old(pools)[j] in old(ExpiredPools(now)))
      ensures forall p <- old(pools) ::
                p !in pools <==> !p.isStatic && now - p.last > idleTimeOut && p.call == 0
      ensures forall p <- old(pools) :: p.pl.closings == old(p.pl.closings) + if p in pools then 0 else 1
      ensures forall p <- pools :: p in old(pools)
    {
      hide Valid, Expired, ExpiredPools, ClosedAt, Kept;
      PoolsDiffer();
      WhichExpire(now);
      KeptHolds(pools, ExpiredPools(now));
      NoneClosedYet(PoolsOf(pools));
      SweepAll(now, pools, ExpiredPools(now), PoolsOf(pools), CountsOf(PoolsOf(pools)));
      EachClosed(old(pools), old(ExpiredPools(now)), old(CountsOf(PoolsOf(pools))));
    }

    lemma EachClosed(was: seq<StPool>, drop: set<StPool>, counts: seq<nat>)
      requires ClosedAt(PoolsOf(was), counts, set j | 0 <= j < |was| && was[j] in drop)
      ensures |counts| == |was|
      ensures forall j :: 0 <= j < |was| ==> was[j].pl.closings == counts[j] + if was[j] in drop then 1 else 0
    {
      assert forall j :: 0 <= j < |was| ==> PoolsOf(was)[j] == was[j].pl;
    }

    lemma WhichExpire(now: int)
      ensures forall p <- pools :: Expired(p, now) <==> p in ExpiredPools(now)
      ensures forall p <- pools ::
                p in ExpiredPools(now) <==> !p.isStatic && now - p.last > idleTimeOut && p.call == 0
    {
    }

    lemma PoolsDiffer()
      requires Valid()
      ensures forall i, j :: 0 <= i < j < |pools| ==> pools[i] != pools[j] && pools[i].pl != pools[j].pl
      ensures forall p <- pools :: p.pl in taken
    {
    }

    /** Shutting down: every pool in use is closed and both collections are emptied. */
    method Close()
      requires Valid()
      modifies this`isClosed, this`addr2pool, this`pools, taken`connected, taken`closings
      ensures Valid() && isClosed
      ensures !old(isClosed) ==> pools == [] && addr2pool == map[] && forall x <- taken :: x.closings == 1
      ensures old(isClosed) ==> pools == old(pools) && addr2pool == old(addr2pool)
    {
      if isClosed {
        return;
      }
      isClosed := true;
      for i := 0 to |pools|
        invariant isClosed && pools == old(pools) && addr2pool == old(addr2pool) && taken == old(taken)
        invariant forall j :: 0 <= j < |pools| ==> pools[j].pl.closings == if j < i then 1 else 0
        invariant forall x <- taken :: !old(InUse(x)) ==> x.closings == 1
      {
        pools[i].pl.Close();
      }
      addr2pool := map[];
      pools := [];
    }
  }

  // ---- shutting down beside the sweep ----------------------------------------------------------

  /** The goroutine of the idle sweep: none was started, waiting for its timer or the exit
      signal, in a sweep, whose every step and whose end need the lock, or returned. */
  datatype Sweeper = Absent | Receiving | AtWork | Gone

  /** A caller of Close: not holding the lock, sending the exit signal with the lock held,
      or past that. */
  datatype Closer = Outside | Sending | Through

  datatype Shutdown = Shutdown(sweeper: Sweeper, closer: Closer)

  /** The channel has no buffer, so the signal is sent only as it is received. */
  ghost predicate Moves(s: Shutdown, t: Shutdown)
  {
    match (s.sweeper, s.closer)
    case (Receiving, Sending) => t == Shutdown(Gone, Through) || t == Shutdown(AtWork, Sending)
    case (Absent, Sending) => t == Shutdown(Absent, Through)
    case (AtWork, Sending) => false
    case (_, Sending) => false
    case (Receiving, c) => t == Shutdown(AtWork, c) || (c.Outside? && t == Shutdown(Receiving, Sending))
    case (AtWork, c) => t == s || t == Shutdown(Receiving, c) || (c.Outside? && t == Shutdown(AtWork, Sending))
    case (w, c) => c.Outside? && t == Shutdown(w, Sending)
  }

  /** A run of the two from a closer that has not begun. */
  ghost predicate ShutdownRun(run: seq<Shutdown>)
  {
    && run != [] && run[0].closer.Outside? && !run[0].sweeper.Gone?
    && forall i :: 0 <= i < |run| - 1 ==> Moves(run[i], run[i + 1])
  }

  /** A run in which Close has returned. */
  ghost predicate Returned(run: seq<Shutdown>)
  {
    exists j :: 0 <= j < |run| && run[j].closer.Through?
  }

  ghost predicate Halted(s: Shutdown)
  {
    forall t :: !Moves(s, t)
  }

  /** A run after which no step is possible. */
  ghost predicate Ended(run: seq<Shutdown>)
  {
    ShutdownRun(run) && Halted(run[|run| - 1])
  }

  /** With the lock taken, a step that lets Close through is possible exactly when no sweep
      is at work, and is the only one exactly when there is no sweep goroutine. */
  lemma NextStepReturns(s: Shutdown)
    requires s.closer.Sending? && !s.sweeper.Gone?
    ensures (exists t :: Moves(s, t) && t.closer.Through?) <==> !s.sweeper.AtWork?
    ensures (exists t :: Moves(s, t)) && (forall t :: Moves(s, t) ==> t.closer.Through?) <==> s.sweeper.Absent?
    ensures Halted(s) <==> s.sweeper.AtWork?
  {
    assert s.sweeper.Receiving? ==> Moves(s, Shutdown(Gone, Through)) && Moves(s, Shutdown(AtWork, Sending));
    assert s.sweeper.Absent? ==> Moves(s, Shutdown(Absent, Through));
  }

  /** Of the runs that go on from the moment Close takes the lock, some return exactly when
      no sweep is at work at that moment, and all that come to an end do exactly when no
      sweep goroutine was started. */
  lemma CloseReturns(run: seq<Shutdown>)
    requires ShutdownRun(run) && |run| > 1 && run[|run| - 2].closer.Outside? && run[|run| - 1].closer.Sending?
    ensures (exists more :: ShutdownRun(run + more) && Returned(run + more)) <==> !run[|run| - 1].sweeper.AtWork?
    ensures (forall more :: Ended(run + more) ==> Returned(run + more)) <==> run[|run| - 1].sweeper.Absent?
  {
    var s := run[|run| - 1];
    assert Moves(run[|run| - 2], s);
    OutsideBefore(run, |run| - 2);
    match s.sweeper {
      case Absent =>
        ReturnsBy(run, Shutdown(Absent, Through));
        forall more | Ended(run + more)
          ensures Returned(run + more)
        {
          NextOf(run, more);
          assert Moves(s, Shutdown(Absent, Through));
          assert (run + more)[|run|] == more[0];
        }
      case Receiving =>
        ReturnsBy(run, Shutdown(Gone, Through));
        StuckBy(run, [Shutdown(AtWork, Sending)]);
      case AtWork =>
        StuckBy(run, []);
        forall more | ShutdownRun(run + more)
          ensures !Returned(run + more)
        {
          NextOf(run, more);
          assert run + more == run;
        }
    }
  }

  lemma ReturnsBy(run: seq<Shutdown>, t: Shutdown)
    requires ShutdownRun(run) && Moves(run[|run| - 1], t) && t.closer.Through?
    ensures ShutdownRun(run + [t]) && Returned(run + [t])
  {
    assert (run + [t])[|run|] == t;
  }

  lemma StuckBy(run: seq<Shutdown>, more: seq<Shutdown>)
    requires ShutdownRun(run) && !Returned(run) && |more| <= 1
    requires more != [] ==> Moves(run[|run| - 1], more[0])
    requires (if more == [] then run[|run| - 1] else more[0]) == Shutdown(AtWork, Sending)
    ensures Ended(run + more) && !Returned(run + more)
  {
    var all := run + more;
    assert all[|all| - 1] == Shutdown(AtWork, Sending);
  }

  lemma NextOf(run: seq<Shutdown>, more: seq<Shutdown>)
    requires run != [] && ShutdownRun(run + more)
    ensures more != [] ==> Moves(run[|run| - 1], more[0])
    ensures more == [] ==> run + more == run
  {
    if more != [] {
      assert (run + more)[|run| - 1] == run[|run| - 1] && (run + more)[|run|] == more[0];
    }
  }

  lemma {:induction false} OutsideBefore(run: seq<Shutdown>, i: nat)
    requires ShutdownRun(run) && i < |run| && run[i].closer.Outside?
    ensures forall j :: 0 <= j <= i ==> run[j].closer.Outside? && !run[j].sweeper.Gone?
  {
    if i > 0 {
      assert Moves(run[i - 1], run[i]);
      OutsideBefore(run, i - 1);
    }
  }

  /** A sweep begins, and Close takes the lock before the sweep is over. */
  lemma CloseStuck()
    ensures var run := [Shutdown(Receiving, Outside), Shutdown(AtWork, Outside), Shutdown(AtWork, Sending)];
            Ended(run) && !Returned(run)
  {
  }

  ghost function PoolsOf(s: seq<StPool>): (r: seq<RpcPool>)
    reads s
    ensures |r| == |s| && forall j :: 0 <= j < |s| ==> r[j] == s[j].pl
  {
    seq(|s|, j requires 0 <= j < |s| reads s => s[j].pl)
  }

  ghost function CountsOf(s: seq<RpcPool>): (r: seq<nat>)
    reads s
    ensures |r| == |s| && forall j :: 0 <= j < |s| ==> r[j] == s[j].closings
  {
    seq(|s|, j requires 0 <= j < |s| reads s => s[j].closings)
  }

  /** Each pool has been closed once more than `counts` says where its place is in
      `dropped`, and no more elsewhere. */
  ghost predicate ClosedAt(s: seq<RpcPool>, counts: seq<nat>, dropped: set<nat>)
    reads s
  {
    |s| == |counts| && forall j :: 0 <= j < |s| ==> s[j].closings == counts[j] + if j in dropped then 1 else 0
  }

  /** The sweep has looked at `k` members of `was` and stands at place `i` of `now`. */
  ghost predicate Sweeping(was: seq<StPool>, drop: set<StPool>, k: nat, i: nat, now: seq<StPool>, dropped: set<nat>)
  {
    && k <= |was| && i == |Kept(was[..k], drop)| && now == Kept(was[..k], drop) + was[k..]
    && dropped == set j | 0 <= j < k && was[j] in drop
  }

  lemma NoneClosedYet(before: seq<RpcPool>)
    ensures ClosedAt(before, CountsOf(before), {})
  {
  }

  lemma SweepBegins(was: seq<StPool>, drop: set<StPool>)
    ensures Sweeping(was, drop, 0, 0, was, {})
  {
    KeptNothing(was, drop);
    assert was[0..] == was;
  }

  /** What the next turn does to the list, or that the sweep is done. */
  lemma SweepAt(was: seq<StPool>, drop: set<StPool>, k: nat, i: nat, now: seq<StPool>, dropped: set<nat>)
    requires Sweeping(was, drop, k, i, now, dropped)
    ensures k <= |was| && (i < |now| <==> k < |was|) && k !in dropped
    ensures i < |now| ==> now[i] == was[k]
    ensures i < |now| && was[k] in drop ==>
              Sweeping(was, drop, k + 1, i, now[..i] + now[i + 1..], dropped + {k})
    ensures i < |now| && was[k] !in drop ==> Sweeping(was, drop, k + 1, i + 1, now, dropped)
    ensures i >= |now| ==> now == Kept(was, drop) && dropped == set j | 0 <= j < |was| && was[j] in drop
    ensures forall p <- was :: p !in drop ==> p in Kept(was, drop)
  {
    hide Kept;
    KeptHolds(was, drop);
    if k < |was| {
      KeptNext(was, k, drop);
      SkipOne(was, k, Kept(was[..k], drop));
    } else {
      assert was[..k] == was;
    }
  }

  lemma SkipOne(s: seq<StPool>, k: nat, x: seq<StPool>)
    requires k < |s|
    ensures (x + s[k..])[..|x|] + (x + s[k..])[|x| + 1..] == x + s[k + 1..]
    ensures (x + s[k..])[|x|] == s[k] && x + s[k..] == x + [s[k]] + s[k + 1..]
  {
  }

  lemma KeptNothing(s: seq<StPool>, drop: set<StPool>)
    ensures Kept(s[..0], drop) == []
  {
  }

  lemma KeptNext(s: seq<StPool>, k: nat, drop: set<StPool>)
    requires k < |s|
    ensures Kept(s[..k + 1], drop) == if s[k] in drop then Kept(s[..k], drop) else Kept(s[..k], drop) + [s[k]]
  {
    assert s[..k + 1][..k] == s[..k];
  }

  lemma {:induction false} KeptHolds(s: seq<StPool>, drop: set<StPool>)
    ensures forall p <- s :: p !in drop ==> p in Kept(s, drop)
  {
    if s != [] {
      KeptHolds(s[..|s| - 1], drop);
    }
  }

  lemma SmallIndexIsWhole(at: nat, n: nat)
    requires at < n && 2 * n <= TWO32
    ensures ScanIsWhole(at, n) && at % n == at
  {
    SmallMod(at, n);
    NoWrapIsWhole(at, n);
  }

  lemma NoWrapIsWhole(at: nat, n: nat)
    requires n > 0 && at + n <= TWO32
    ensures ScanIsWhole(at, n)
  {
  }
}
