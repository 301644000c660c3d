/** The delayed recycler: a list of clients waiting to be closed, a map of the same
    clients by tag, a channel of wake-up tokens, and the loop that drains the list. */
module Recycler {
  import opened Options
  import opened PoolClient

  // ---- lists of clients ---------------------------------------------------------------

  ghost predicate DistinctTags(s: seq<Client>)
  {
    forall i, j :: 0 <= i < j < |s| ==> s[i].tag != s[j].tag
  }

  /** The map holds exactly the clients of the list, under their tags. */
  ghost predicate SameClients(s: seq<Client>, m: map<nat, Client>)
  {
    && DistinctTags(s)
    && (forall c <- s :: c.tag in m && m[c.tag] == c)
    && (forall t <- m :: m[t].tag == t && m[t] in s)
  }

  /** The list without a client, the others in order. */
  function Without(s: seq<Client>, c: Client): (r: seq<Client>)
    ensures (forall x <- r :: x in s && x != c) && (forall x <- s :: x != c ==> x in r)
    ensures c !in s ==> r == s
  {
    if s == [] then []
    else if s[0] == c then Without(s[1..], c)
    else [s[0]] + Without(s[1..], c)
  }

  /** The clients of the list that are not in `dead`, in order. */
  ghost function Keep(s: seq<Client>, dead: set<Client>): (r: seq<Client>)
    ensures (forall x <- r :: x in s && x !in dead) && (forall x <- s :: x !in dead ==> x in r)
    ensures |r| <= |s|
  {
    if s == [] then []
    else if s[0] in dead then Keep(s[1..], dead)
    else [s[0]] + Keep(s[1..], dead)
  }

  /** The last `n` of the list, or all of it. */
  ghost function Newest(s: seq<Client>, n: nat): seq<Client>
  {
    if |s| <= n then s else s[|s| - n..]
  }

  lemma {:induction false} WithoutOne(s: seq<Client>, c: Client)
    requires DistinctTags(s) && c in s
    ensures |Without(s, c)| == |s| - 1
    ensures DistinctTags(Without(s, c))
  {
    if s[0] == c {
      assert c !in s[1..];
    } else {
      WithoutOne(s[1..], c);
      var r := Without(s[1..], c);
      forall j | 0 <= j < |r|
        ensures s[0].tag != r[j].tag
      {
        assert r[j] in s[1..];
      }
    }
  }

  lemma WithoutFirst(s: seq<Client>)
    requires DistinctTags(s) && s != []
    ensures Without(s, s[0]) == s[1..]
  {
    assert s[0] !in s[1..];
  }

  lemma {:induction false} KeepWithout(s: seq<Client>, c: Client, dead: set<Client>)
    requires c in dead
    ensures Keep(Without(s, c), dead) == Keep(s, dead)
  {
    if s != [] {
      KeepWithout(s[1..], c, dead);
      if s[0] != c {
        assert Without(s, c)[1..] == Without(s[1..], c);
      }
    }
  }

  lemma {:induction false} KeepAll(s: seq<Client>, dead: set<Client>)
    requires forall c <- s :: c !in dead
    ensures Keep(s, dead) == s
  {
    if s != [] {
      KeepAll(s[1..], dead);
    }
  }

  lemma KeepTail(s: seq<Client>, dead: set<Client>)
    requires s != [] && forall c <- s :: c !in dead
    ensures Keep(s, dead) == s && Keep(s[1..], dead) == s[1..]
  {
    KeepAll(s, dead);
    KeepAll(s[1..], dead);
  }

  /** How many clients are kept of a list without repeats. */
  lemma {:induction false} KeepCount(s: seq<Client>, dead: set<Client>)
    requires DistinctTags(s)
    ensures |Keep(s, dead)| == |Kept(s, dead)|
  {
    hide Kept, DistinctTags;
    KeptFirst(s, dead);
    if s != [] {
      KeepCount(s[1..], dead);
    }
  }

  lemma KeptFirst(s: seq<Client>, dead: set<Client>)
    requires DistinctTags(s)
    ensures s == [] ==> Kept(s, dead) == {}
    ensures s != [] ==> s[0] !in s[1..] && DistinctTags(s[1..]) && s[0] !in Kept(s[1..], dead)
    ensures s != [] ==> Kept(s, dead) == Kept(s[1..], dead) + if s[0] in dead then {} else {s[0]}
  {
    if s != [] {
      assert s == [s[0]] + s[1..];
      assert s[0] !in s[1..];
    }
  }

  ghost function Kept(s: seq<Client>, dead: set<Client>): set<Client>
  {
    set x | x in s && x !in dead
  }

  /** Of a list without repeats a client is among the newest `n` kept exactly when it is
      kept and fewer than `n` are kept after it. */
  lemma {:induction false} NewestLive(s: seq<Client>, dead: set<Client>, n: nat, i: nat)
    requires DistinctTags(s) && i < |s|
    ensures s[i] in Newest(Keep(s, dead), n) <==>
            s[i] !in dead && |Kept(s[i + 1..], dead)| < n
  {
    hide Kept, DistinctTags, Newest;
    var t := s[1..];
    var k := Keep(t, dead);
    KeptFirst(s, dead);
    if i == 0 {
      KeepCount(t, dead);
      NewestOfLonger(s[0], k, n, s[0]);
      NewestMembers(Keep(s, dead), n);
    } else {
      NewestLive(t, dead, n, i - 1);
      assert t[i - 1] == s[i] && t[i..] == s[i + 1..];
      NewestOfLonger(s[0], k, n, s[i]);
    }
  }

  lemma NewestMembers(k: seq<Client>, n: nat)
    ensures forall x <- Newest(k, n) :: x in k
  {
  }

  lemma NewestOfLonger(a: Client, k: seq<Client>, n: nat, x: Client)
    ensures x != a ==> (x in Newest([a] + k, n) <==> x in Newest(k, n))
    ensures x == a && a !in k ==> (x in Newest([a] + k, n) <==> |k| < n)
  {
    if |k| >= n {
      assert ([a] + k)[|k| + 1 - n..] == k[|k| - n..];
    }
  }

  lemma WithoutHead(s: seq<Client>, m: map<nat, Client>)
    requires SameClients(s, m) && s != []
    ensures Without(s, s[0]) == s[1..]
  {
    WithoutFirst(s);
  }

  // ---- the recycler -------------------------------------------------------------------

  /** Where the recycling loop stands. */
  datatype Phase = Waiting | Woken | Draining | Picked(c: Client) | Removed(c: Client) | Exited

  /** The client the recycling loop has in its hands. */
  function InHand(p: Phase): set<Client>
  {
    match p
    case Picked(c) => {c}
    case Removed(c) => {c}
    case _ => {}
  }

  class Recycle {
    var li: seq<Client>
    var mp: map<nat, Client>
    var tokens: nat
    var phase: Phase
    var isClose: bool
    const o: Limits

    constructor (o: Limits)
      requires o.Proper()
      ensures Valid() && this.o == o && li == [] && mp == map[] && tokens == 0
      ensures phase == Waiting && !isClose
    {
      this.o := o;
      li, mp, tokens, phase, isClose := [], map[], 0, Waiting, false;
    }

    /** The capacity of the token channel. */
    function Capacity(): nat
    {
      if o.maxCap * 10 <= 2000 then o.maxCap * 10 else 2000
    }

    /** The list is longer than MaxCap only by what the tokens will still clear, one of
        which the loop may have taken. */
    ghost predicate Bounded()
      reads this
    {
      && tokens <= Capacity()
      && |li| <= o.maxCap + tokens + (if phase.Waiting? || phase.Exited? then 0 else 1)
    }

    ghost predicate Valid()
      reads this
    {
      o.Proper() && SameClients(li, mp) && Bounded()
    }

    /** What a push leaves of the list: with room for a token the client is appended,
        with a full channel the oldest is dropped as well. */
    ghost function Pushed(c: Client): seq<Client>
      reads this, c`client
    {
      if !c.client || c.tag in mp then li
      else if tokens < Capacity() then li + [c]
      else (li + [c])[1..]
    }

    /** The full-channel branch: the oldest client is dropped and closed. */
    method EvictOldest(fails: bool)
      requires SameClients(li, mp) && li != [] && li[0].client
      modifies this`li, this`mp, li`conn
      ensures SameClients(li, mp) && li == old(li)[1..]
      ensures forall x <- old(li) :: x.conn == (old(x.conn) && x in li)
    {
      var cc := li[0];
      RemoveKeepsMap(li, mp, cc);
      WithoutFirst(li);
      li := li[1..];
      mp := mp - {cc.tag};
      var _, _ := cc.Close(fails);
    }

    /** Puts a client at the end. When the token channel is full the oldest client is
        dropped and closed instead of a token being sent. */
    method Push(c: Client, fails: bool)
      requires Valid() && !phase.Exited? && forall x <- li :: x.client
      requires c.tag in mp ==> mp[c.tag] == c
      modifies this`li, this`mp, this`tokens, li`conn, c`conn
      ensures Valid()
      ensures li == old(Pushed(c))
      ensures !c.client || c.tag in old(mp) ==> li == old(li) && tokens == old(tokens)
      ensures c.client && c.tag !in old(mp) && old(tokens) < o.maxCap * 10 && old(tokens) < 2000 ==>
                li == old(li) + [c] && tokens == old(tokens) + 1
      ensures c.client && c.tag !in old(mp) && (old(tokens) >= o.maxCap * 10 || old(tokens) >= 2000) ==>
                li == (old(li) + [c])[1..] && tokens == old(tokens)
      ensures forall x <- old(li) + [c] ::
                x.conn == (old(x.conn) && (x in li || (x == c && !c.client))
                           && !(x == c && c.client && isClose))
    {
      hide SameClients;
      if !c.client {
        return;
      }
      TagInMap(li, mp, c);
      if isClose {
        var _, _ := c.Close(fails);
      }
      if c.tag !in mp {
        PushKeepsMap(li, mp, c);
        li := li + [c];
        mp := mp[c.tag := c];
        if tokens < Capacity() {
          tokens := tokens + 1;
        } else {
          EvictOldest(fails);
        }
      }
    }

    method Remove(c: Client)
      requires Valid()
      requires c.tag in mp ==> mp[c.tag] == c
      modifies this`li, this`mp
      ensures Valid()
      ensures li == if c.client then Without(old(li), c) else old(li)
    {
      if !c.client {
        return;
      }
      if c.tag in mp {
        RemoveKeepsMap(li, mp, c);
        WithoutOne(li, c);
        li := Without(li, c);
        mp := mp - {c.tag};
      }
    }

    function Find(tag: nat): (c: Option<Client>)
      reads this
      requires Valid()
      ensures c.Some? <==> exists x <- li :: x.tag == tag
      ensures c.Some? ==> c.value in li && c.value.tag == tag
    {
      if tag in mp then Some(mp[tag]) else None
    }

    /** Unused, or in use for longer than a read and a write may take. */
    predicate Evictable(c: Client, now: int)
      reads c`ref, c`reqTM
    {
      c.ref <= 0 || now - c.reqTM > o.read + o.write
    }

    ghost function EvictableClients(now: int): set<Client>
      reads this, li
    {
      set c | c in li && Evictable(c, now)
    }

    // ---- the loop, one lock-protected operation at a time ---------------------------

    method TakeToken()
      requires Valid() && phase == Waiting && tokens > 0
      modifies this`tokens, this`phase
      ensures Valid() && phase == Woken && tokens == old(tokens) - 1
    {
      tokens := tokens - 1;
      phase := Woken;
    }

    method CheckLength()
      requires Valid() && phase == Woken
      modifies this`phase
      ensures Valid() && phase == if |li| <= o.maxCap then Waiting else Draining
    {
      phase := if |li| <= o.maxCap then Waiting else Draining;
    }

    method Tick()
      requires Valid() && phase == Waiting
      modifies this`phase
      ensures Valid() && phase == Draining
    {
      phase := Draining;
    }

    /** An evictable client, any of them since the map has no order; else the oldest if
        the list is too long; else none, and the drain is over. */
    method GetOneClient(now: int) returns (c: Option<Client>)
      requires Valid() && phase == Draining
      modifies this`phase
      ensures Valid()
      ensures phase == if c.Some? then Picked(c.value) else Waiting
      ensures c.Some? ==> c.value in li && c.value.tag in mp && mp[c.value.tag] == c.value
      ensures c.Some? && 0 < c.value.ref && now - c.value.reqTM <= o.read + o.write ==>
                && |li| > o.maxCap && c.value == li[0]
                && forall x <- li :: 0 < x.ref && now - x.reqTM <= o.read + o.write
      ensures c.None? ==> |li| <= o.maxCap && forall x <- li :: 0 < x.ref && now - x.reqTM <= o.read + o.write
    {
      c := None;
      if |li| != 0 {
        if x :| x in li && Evictable(x, now) {
          c := Some(x);
        } else if |li| > o.maxCap {
          c := Some(li[0]);
        }
      }
      phase := if c.Some? then Picked(c.value) else Waiting;
    }

    method RemovePicked()
      requires Valid() && phase.Picked?
      requires phase.c.tag in mp ==> mp[phase.c.tag] == phase.c
      modifies this`li, this`mp, this`phase
      ensures Valid() && phase == Removed(old(phase.c))
      ensures li == if phase.c.client then Without(old(li), phase.c) else old(li)
      ensures phase.c.client && phase.c in old(li) ==> |li| == |old(li)| - 1
    {
      if phase.c in li {
        WithoutOne(li, phase.c);
      }
      Remove(phase.c);
      phase := Removed(phase.c);
    }

    method CloseRemoved(fails: bool)
      requires Valid() && phase.Removed? && phase.c.client
      modifies this`phase, phase.c`conn
      ensures Valid() && phase == Draining && !old(phase.c).conn
    {
      var _, _ := phase.c.Close(fails);
      phase := Draining;
    }

    /** A whole drain that nothing interferes with. Whatever order the map is looked
        through in, what remains is the newest MaxCap of the clients that are not
        evictable, in their order, and every client that left was closed. */
    method Drain(now: int)
      requires Valid() && phase == Draining
      requires forall c <- li :: c.client
      modifies this`li, this`mp, this`phase, li`conn
      ensures Valid() && phase == Waiting
      ensures li == Newest(Keep(old(li), old(EvictableClients(now))), o.maxCap)
      ensures |li| <= o.maxCap
      ensures forall i :: 0 <= i < |old(li)| ==>
                (old(li)[i] in li <==>
                 && 0 < old(li)[i].ref && now - old(li)[i].reqTM <= o.read + o.write
                 && |InUse(old(li)[i + 1..], now)| < o.maxCap)
      ensures forall c <- old(li) :: c.conn == (old(c.conn) && c in li)
    {
      DrainLoop(now);
      WhatStays(old(li), old(EvictableClients(now)), now);
    }

    /** The clients of a list that are in use and within the time of a read and a write. */
    ghost function InUse(s: seq<Client>, now: int): (r: set<Client>)
      reads s
      ensures forall x <- r :: x in s
      ensures forall x <- s :: x in r <==> 0 < x.ref && now - x.reqTM <= o.read + o.write
    {
      set x | x in s && 0 < x.ref && now - x.reqTM <= o.read + o.write
    }

    lemma WhatStays(was: seq<Client>, dead: set<Client>, now: int)
      requires DistinctTags(was) && dead == set c | c in was && Evictable(c, now)
      requires li == Newest(Keep(was, dead), o.maxCap)
      ensures forall i :: 0 <= i < |was| ==>
                (was[i] in li <==>
                 && 0 < was[i].ref && now - was[i].reqTM <= o.read + o.write
                 && |InUse(was[i + 1..], now)| < o.maxCap)
    {
      hide Keep, DistinctTags, Newest, InUse;
      forall i | 0 <= i < |was|
        ensures was[i] in li <==>
                && 0 < was[i].ref && now - was[i].reqTM <= o.read + o.write
                && |InUse(was[i + 1..], now)| < o.maxCap
      {
        NewestLive(was, dead, o.maxCap, i);
        NotDropped(was, dead, now, i);
      }
    }

    lemma NotDropped(was: seq<Client>, dead: set<Client>, now: int, i: nat)
      requires i < |was| && dead == set c | c in was && Evictable(c, now)
      ensures was[i] !in dead <==> 0 < was[i].ref && now - was[i].reqTM <= o.read + o.write
      ensures Kept(was[i + 1..], dead) == InUse(was[i + 1..], now)
    {
      assert forall x <- was[i + 1..] :: x in was;
    }

    method DrainLoop(now: int)
      requires Valid() && phase == Draining
      requires forall c <- li :: c.client
      modifies this`li, this`mp, this`phase, li`conn
      ensures Valid() && phase == Waiting
      ensures li == Newest(Keep(old(li), old(EvictableClients(now))), o.maxCap)
      ensures |li| <= o.maxCap
      ensures forall c <- old(li) :: c.conn == (old(c.conn) && c in li)
    {
      hide SameClients, DistinctTags, Keep, Without;
      ghost var was := li;
      ghost var dead := EvictableClients(now);
      ghost var live := Keep(was, dead);
      ghost var j := 0;
      while true
        invariant Valid() && phase == Draining
        invariant forall c <- li :: c in was && (c in dead <==> Evictable(c, now))
        invariant forall c <- was :: c.conn == (old(c.conn) && c in li)
        invariant j <= |live| && Keep(li, dead) == live[j..]
        invariant j > 0 ==> |live| - j >= o.maxCap && forall c <- li :: c !in dead
        decreases |li|
      {
        var c := GetOneClient(now);
        if c.None? {
          KeepAll(li, dead);
          break;
        }
        if c.value in dead {
          KeepWithout(li, c.value, dead);
        } else {
          KeepTail(li, dead);
          WithoutHead(li, mp);
          j := j + 1;
        }
        RemovePicked();
        CloseRemoved(false);
      }
    }

    /** How far a loop that nothing wakes is from waiting. */
    ghost function ToWaiting(): (r: nat)
      reads this
    {
      4 * |li| + match phase
                 case Woken => 3
                 case Draining => 2
                 case Picked(c) => if c in li then 1 else 4
                 case Removed(_) => 3
                 case _ => 0
    }

    /** The loop's clients have a transport client, and no other client is listed under
        the tag of the one it has picked. */
    ghost predicate LoopOk()
      reads this, li`client, InHand(phase)`client
    {
      && !phase.Exited?
      && (forall c <- li :: c.client)
      && (forall c <- InHand(phase) :: c.client)
      && (phase.Picked? && phase.c.tag in mp ==> mp[phase.c.tag] == phase.c)
    }

    /** The next step of a loop that is not waiting. */
    method Onward(now: int)
      requires Valid() && LoopOk() && !phase.Waiting?
      modifies this`li, this`mp, this`phase, InHand(phase)`conn
      ensures Valid() && LoopOk() && ToWaiting() < old(ToWaiting())
      ensures forall c <- li :: c in old(li)
      ensures InHand(phase) <= set c | c in old(li) || c in old(InHand(phase))
      ensures forall c | c in old(li) || c in old(InHand(phase)) :: c in li || c in InHand(phase) || !c.conn
    {
      hide SameClients;
      match phase {
        case Woken =>
          CheckLength();
        case Draining =>
          var _ := GetOneClient(now);
        case Picked(c) =>
          TagInMap(li, mp, c);
          RemovePicked();
        case Removed(c) =>
          CloseRemoved(false);
      }
    }

    /** The loop runs until it can take the exit signal, which it may do at once or after
        waking any number of times more, for a token or for its timer. Whatever leaves the
        list is closed. */
    method AwaitExit(now: int, wakes: seq<bool>)
      requires Valid() && LoopOk()
      modifies this`li, this`mp, this`tokens, this`phase, li`conn, InHand(phase)`conn
      ensures Valid() && phase == Waiting && LoopOk()
      ensures forall c <- li :: c in old(li)
      ensures forall c | c in old(li) || c in old(InHand(phase)) :: c in li || !c.conn
    {
      hide Valid, LoopOk, ToWaiting;
      var w := 0;
      ghost var was := set c | c in li || c in InHand(phase);
      while w < |wakes| || !phase.Waiting?
        invariant w <= |wakes| && Valid() && LoopOk()
        invariant (forall c <- li :: c in old(li)) && InHand(phase) <= was
        invariant forall c <- was :: c in li || c in InHand(phase) || !c.conn
        decreases |wakes| - w, ToWaiting()
      {
        if !phase.Waiting? {
          Onward(now);
        } else {
          Wake(wakes[w]);
          w := w + 1;
        }
      }
    }

    method Wake(token: bool)
      requires Valid() && LoopOk() && phase.Waiting?
      modifies this`tokens, this`phase
      ensures Valid() && LoopOk() && InHand(phase) == {}
    {
      if token && tokens > 0 {
        TakeToken();
      } else {
        Tick();
      }
    }

    /** Shutting down: the loop comes round to the exit signal, and what is left is
        closed. */
    method Close(now: int, wakes: seq<bool>)
      requires Valid() && LoopOk()
      modifies this, li`conn, InHand(phase)`conn
      ensures isClose && phase == Exited && Valid()
      ensures forall c | c in old(li) || c in old(InHand(phase)) :: !c.conn
    {
      ghost var was := li;
      isClose := true;
      AwaitExit(now, wakes);
      phase := Exited;
      assert forall c <- li :: c in was;
      CloseListed();
    }

    method CloseListed()
      requires Valid() && forall c <- li :: c.client
      modifies li`conn
      ensures forall c <- li :: !c.conn
    {
      var tags := mp.Keys;
      while tags != {}
        invariant tags <= mp.Keys
        invariant forall c <- li :: c.tag !in tags ==> !c.conn
        decreases |tags|
      {
        var t :| t in tags;
        var _, _ := mp[t].Close(false);
        tags := tags - {t};
      }
    }
  }

  lemma TagInMap(s: seq<Client>, m: map<nat, Client>, c: Client)
    requires SameClients(s, m) && (c.tag in m ==> m[c.tag] == c)
    ensures c.tag in m <==> c in s
  {
  }

  lemma PushKeepsMap(s: seq<Client>, m: map<nat, Client>, c: Client)
    requires SameClients(s, m) && c.tag !in m
    ensures SameClients(s + [c], m[c.tag := c])
  {
  }

  lemma RemoveKeepsMap(s: seq<Client>, m: map<nat, Client>, c: Client)
    requires SameClients(s, m) && c in s
    ensures SameClients(Without(s, c), m - {c.tag})
  {
    WithoutOne(s, c);
    var r, n := Without(s, c), m - {c.tag};
    forall x <- r
      ensures x.tag in n && n[x.tag] == x
    {
      assert x in s;
    }
  }
}
