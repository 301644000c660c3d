/** The slots of a pool: one client per slot, the connected ones also in a map by tag,
    and the recycler for clients taken out of their slots. */
module Slots {
  import opened Options
  import opened PoolClient
  import opened Recycler
  import opened Words

  /** Slot i holds a client whose index is i, and every entry of the map is the client
      now in its slot, under its own tag. */
  ghost predicate SlotsOk(cs: seq<Client>, pc2c: map<nat, Client>)
  {
    && (forall i :: 0 <= i < |cs| ==> cs[i].index == i)
    && (forall t <- pc2c :: pc2c[t].tag == t && pc2c[t].index < |cs| && cs[pc2c[t].index] == pc2c[t])
  }

  /** Tags name clients, and no tag has been used that is not yet given out. */
  ghost predicate TagsOk(all: set<Client>, lastTag: nat)
  {
    && (forall a <- all, b <- all :: a.tag == b.tag ==> a == b)
    && (forall a <- all :: a.tag <= lastTag)
  }

  /** The recycler's clients are no longer in any slot. */
  ghost predicate Apart(cs: seq<Client>, li: seq<Client>, p: Phase)
  {
    && (forall c <- cs :: c !in li && c !in InHand(p))
    && (p.Removed? ==> p.c !in li)
  }

  lemma InItsSlot(cs: seq<Client>, pc2c: map<nat, Client>, c: Client)
    requires SlotsOk(cs, pc2c) && c.tag in pc2c && pc2c[c.tag] == c
    ensures c.index < |cs| && cs[c.index] == c && c in cs
    ensures forall i :: 0 <= i < |cs| && cs[i] == c ==> i == c.index
  {
  }

  lemma SlotEntry(cs: seq<Client>, pc2c: map<nat, Client>, c: Client)
    requires SlotsOk(cs, pc2c) && c in cs
    ensures c.index < |cs| && cs[c.index] == c
    ensures forall i :: 0 <= i < |cs| && cs[i] == c ==> i == c.index
    ensures SlotsOk(cs, pc2c[c.tag := c])
  {
  }

  lemma MapEntry(cs: seq<Client>, pc2c: map<nat, Client>, t: nat)
    requires SlotsOk(cs, pc2c) && t in pc2c
    ensures pc2c[t].tag == t && pc2c[t] in cs && pc2c[t].index < |cs|
  {
    InItsSlot(cs, pc2c, pc2c[t]);
  }

  lemma MapInSlots(cs: seq<Client>, pc2c: map<nat, Client>, all: set<Client>)
    requires SlotsOk(cs, pc2c)
    ensures forall x <- all :: x.tag in pc2c && pc2c[x.tag] == x ==> x in cs
  {
  }

  lemma NotInMap(cs: seq<Client>, pc2c: map<nat, Client>, c: Client)
    requires SlotsOk(cs, pc2c) && c !in cs
    ensures c.tag in pc2c ==> pc2c[c.tag] != c
  {
  }

  lemma SlotsDistinct(cs: seq<Client>, pc2c: map<nat, Client>)
    requires SlotsOk(cs, pc2c)
    ensures forall i, j :: 0 <= i < j < |cs| ==> cs[i] != cs[j]
  {
  }

  lemma OneFewer(m: map<nat, Client>, t: nat)
    ensures |m - {t}| == |m| - (if t in m then 1 else 0)
  {
    assert (m - {t}).Keys == m.Keys - {t};
    assert |(m - {t}).Keys| == |m - {t}|;
  }

  lemma NotRecycled(li: seq<Client>, mp: map<nat, Client>, all: set<Client>, lastTag: nat, c: Client)
    requires SameClients(li, mp) && TagsOk(all, lastTag) && c in all && c !in li
    requires forall x <- li :: x in all
    ensures c.tag !in mp
  {
  }

  lemma StaysApart(cs: seq<Client>, li: seq<Client>, p: Phase)
    requires Apart(cs, li, p)
    ensures forall c <- cs :: c !in li && c !in InHand(p)
  {
  }

  lemma PushApart(cs: seq<Client>, li: seq<Client>, p: Phase, c: Client, li': seq<Client>)
    requires Apart(cs, li, p) && c !in cs && c !in InHand(p)
    requires forall x <- li' :: x in li || x == c
    ensures Apart(cs, li', p)
  {
  }

  lemma ApartAfter(cs: seq<Client>, li: seq<Client>, p: Phase, c: Client, n: Client, li': seq<Client>)
    requires Apart(cs, li, p) && c in cs && (forall i :: 0 <= i < |cs| && cs[i] == c ==> i == c.index)
    requires c.index < |cs| && n !in cs && n !in li && n !in InHand(p) && n != c
    requires forall x <- li' :: x in li || x == c
    ensures Apart(cs[c.index := n], li', p)
  {
    var cs' := cs[c.index := n];
    forall x <- cs'
      ensures x !in li' && x !in InHand(p)
    {
      if x != n {
        assert x in cs;
      }
    }
  }

  lemma SlotsReplaced(cs: seq<Client>, pc2c: map<nat, Client>, c: Client, n: Client)
    requires SlotsOk(cs, pc2c) && c in cs && n.index == c.index
    requires c.tag in pc2c ==> pc2c[c.tag] == c
    ensures c.index < |cs| && cs[c.index] == c
    ensures SlotsOk(cs[c.index := n], pc2c - {c.tag})
    ensures forall x <- cs :: x != c ==> x in cs[c.index := n]
    ensures c !in cs[c.index := n] || c == n
  {
    forall x <- cs | x != c
      ensures x in cs[c.index := n]
    {
      assert cs[x.index] == x;
      assert cs[c.index := n][x.index] == x;
    }
  }

  class Clients {
    var cs: seq<Client>
    var pc2c: map<nat, Client>
    var index: nat
    var initting: bool       // the flag that keeps calls of init_clients apart
    var initAt: Option<nat>  // the slot at which the call that holds the flag is
    var isClose: bool
    var recycle: Recycle?
    var lastTag: nat
    const o: Limits
    ghost var all: set<Client>  // every client ever created
    ghost var proper: bool      // the factory has kept its contract so far

    ghost predicate Structure()
      reads this`cs, this`pc2c, this`index, this`isClose, this`recycle, this`lastTag, this`all, recycle
    {
      && recycle != null && recycle.Valid() && recycle.o == o
      && !isClose && !recycle.isClose && !recycle.phase.Exited?
      && o.Proper() && |cs| == o.maxCap && index < TWO64
      && SlotsOk(cs, pc2c)
      && TagsOk(all, lastTag)
      && (forall c <- cs :: c in all)
      && (forall c <- recycle.li :: c in all)
      && InHand(recycle.phase) <= all
      && Apart(cs, recycle.li, recycle.phase)
    }

    /** The call of init_clients that is under way holds the flag. */
    ghost predicate InitOk()
      reads this`initting, this`initAt
    {
      initAt.Some? ==> initting && initAt.value <= o.initCap
    }

    /** No client is destroyed, and the recycler's have a transport client. */
    ghost predicate Usable()
      requires recycle != null
      reads this`recycle, this`all, recycle, all`client, all`bDestroy
    {
      && (forall c <- all :: !c.bDestroy)
      && (forall c <- all :: c in recycle.li || c in InHand(recycle.phase) ==> c.client)
    }

    /** In the map of connected clients, or in the recycler's list. */
    ghost predicate Held(c: Client)
      requires recycle != null
      reads this`pc2c, this`recycle, recycle
    {
      (c.tag in pc2c && pc2c[c.tag] == c) || c in recycle.li
    }

    /** A client is connected if it is held, and held or just about to be closed by the
        recycling loop if it is connected; in its slot, it has not been dialled, is
        connected, or has an error. */
    ghost predicate Placed(c: Client)
      requires recycle != null
      reads this`cs, this`pc2c, this`recycle, recycle, c`client, c`conn, c`connTM, c`err
    {
      && (Held(c) ==> c.conn)
      && (c.conn ==> c.client && (Held(c) || recycle.phase == Removed(c)))
      && (c in cs ==> c.conn || c.connTM == 0 || c.err.Some?)
    }

    /** No connection is lost. */
    ghost predicate Connections()
      requires recycle != null
      reads this`cs, this`pc2c, this`recycle, this`all, recycle
      reads all`client, all`conn, all`connTM, all`err
    {
      forall c <- all :: Placed(c)
    }

    /** What holds whatever the factory returns, and what holds besides while it keeps
        its contract. */
    ghost predicate Valid()
      reads this`cs, this`pc2c, this`index, this`isClose, this`recycle, this`lastTag, this`all, recycle
      reads this`initting, this`initAt, this`proper
      reads all`client, all`conn, all`connTM, all`bDestroy, all`err
    {
      Structure() && InitOk() && Usable() && (proper ==> Connections())
    }

    constructor (o: Limits)
      requires o.Proper()
      ensures Valid() && this.o == o && pc2c == map[] && fresh(all) && fresh(recycle)
      ensures recycle.li == [] && recycle.phase.Waiting? && forall c <- all :: c.ref == 0
      ensures proper && !initting && initAt == None && forall c <- cs :: c in all && !c.conn && c.connTM == 0
    {
      this.o := o;
      cs, pc2c, index, isClose, lastTag, all := [], map[], 0, false, 0, {};
      initting, initAt, proper := false, None, true;
      recycle := new Recycle(o);
      new;
      hide SameClients, Recycle.Bounded;
      MakeSlots();
    }

    method MakeSlots()
      requires cs == [] && all == {} && lastTag == 0
      modifies this`cs, this`lastTag, this`all
      ensures |cs| == o.maxCap && SlotsOk(cs, map[]) && TagsOk(all, lastTag)
      ensures fresh(all) && forall c <- cs :: c in all
      ensures forall c <- all :: !c.conn && !c.bDestroy && c.connTM == 0 && c.ref == 0
    {
      while |cs| < o.maxCap
        invariant |cs| <= o.maxCap && fresh(all)
        invariant SlotsOk(cs, map[]) && TagsOk(all, lastTag) && (forall c <- cs :: c in all)
        invariant forall c <- all :: !c.conn && !c.bDestroy && c.connTM == 0 && c.ref == 0
      {
        var c := NewClient(|cs|);
        cs := cs + [c];
      }
    }

    method NewClient(i: nat) returns (c: Client)
      requires TagsOk(all, lastTag)
      modifies this`lastTag, this`all
      ensures fresh(c) && c.index == i && c.tag == lastTag == old(lastTag) + 1
      ensures all == old(all) + {c} && TagsOk(all, lastTag)
      ensures !c.client && !c.conn && !c.bDestroy && c.ref == 0 && c.err == None
      ensures c.connTM == 0 && c.reqTM == 0
    {
      lastTag := lastTag + 1;
      c := new Client(lastTag, i);
      all := all + {c};
    }

    // ---- choosing a client -------------------------------------------------------------

    /** The first unused client of the first InitCap slots if there is one, else the
        first client of least reference count over all slots. */
    ghost predicate LeastUsed(k: nat)
      reads this, cs
    {
      && k < |cs| == o.maxCap && o.initCap <= |cs|
      && if exists i :: 0 <= i < o.initCap && cs[i].ref <= 0
         then k < o.initCap && cs[k].ref <= 0 && forall i :: 0 <= i < k ==> cs[i].ref > 0
         else (forall i :: 0 <= i < |cs| ==> cs[k].ref <= cs[i].ref)
              && forall i :: 0 <= i < k ==> cs[k].ref < cs[i].ref
    }

    method MinGet() returns (c: Client)
      requires o.Proper() && |cs| == o.maxCap && SlotsOk(cs, pc2c)
      requires forall i :: 0 <= i < |cs| ==> cs[i].ref < MAX_INT64
      ensures LeastUsed(c.index) && c == cs[c.index]
      ensures (exists x <- cs[..o.initCap] :: x.ref <= 0) ==>
                c.index < o.initCap && c.ref <= 0 && forall x <- cs[..c.index] :: x.ref > 0
      ensures (forall x <- cs[..o.initCap] :: x.ref > 0) ==>
                (forall x <- cs :: c.ref <= x.ref) && forall x <- cs[..c.index] :: c.ref < x.ref
    {
      for i := 0 to o.initCap
        invariant forall j :: 0 <= j < i ==> cs[j].ref > 0
      {
        if cs[i].ref <= 0 {
          return cs[i];
        }
      }
      var minRef := MAX_INT64;
      var m := 0;
      for i := 0 to o.maxCap
        invariant m < |cs| && (i == 0 ==> minRef == MAX_INT64)
        invariant i > 0 ==> m < i && minRef == cs[m].ref
        invariant forall j :: 0 <= j < i ==> minRef <= cs[j].ref
        invariant i > 0 ==> forall j :: 0 <= j < m ==> minRef < cs[j].ref
      {
        if minRef > cs[i].ref {
          minRef := cs[i].ref;
          m := i;
        }
      }
      c := cs[m];
    }

    /** The first unused client of the first InitCap slots if there is one, else the slot
        whose turn it is. */
    ghost predicate NextInTurn(k: nat)
      reads this, cs
    {
      && k < |cs| == o.maxCap && o.initCap <= |cs|
      && if exists i :: 0 <= i < o.initCap && cs[i].ref <= 0 then LeastUsed(k) else k == index % |cs|
    }

    /** Round robin, for pools of more than 100 slots. */
    method RoundGet() returns (c: Client)
      requires o.Proper() && |cs| == o.maxCap && SlotsOk(cs, pc2c) && index < TWO64
      modifies this`index
      ensures c.index < |cs| && c == cs[c.index] && old(NextInTurn(c.index)) && index < TWO64
      ensures (exists x <- cs[..o.initCap] :: x.ref <= 0) ==>
                && c.index < o.initCap && c.ref <= 0 && (forall x <- cs[..c.index] :: x.ref > 0)
                && index == old(index)
      ensures (forall x <- cs[..o.initCap] :: x.ref > 0) ==>
                c.index == old(index) % |cs| && index == (old(index) + 1) % TWO64
    {
      for i := 0 to o.initCap
        invariant index == old(index)
        invariant forall j :: 0 <= j < i ==> cs[j].ref > 0
      {
        if cs[i].ref <= 0 {
          return cs[i];
        }
      }
      c := cs[index % |cs|];
      index := (index + 1) % TWO64;
    }

    /** What being picked means. */
    lemma PickMeans()
      requires o.initCap <= |cs| == o.maxCap
      ensures forall k: nat :: LeastUsed(k) || NextInTurn(k) ==>
                k < |cs| && ((exists x <- cs[..o.initCap] :: x.ref <= 0) ==>
                               k < o.initCap && cs[k].ref <= 0 && forall x <- cs[..k] :: x.ref > 0)
      ensures forall k: nat :: LeastUsed(k) && (forall x <- cs[..o.initCap] :: x.ref > 0) ==>
                (forall x <- cs :: cs[k].ref <= x.ref) && forall x <- cs[..k] :: cs[k].ref < x.ref
      ensures forall k: nat :: NextInTurn(k) && (forall x <- cs[..o.initCap] :: x.ref > 0) ==> k == index % |cs|
    {
      assert forall i :: 0 <= i < o.initCap ==> cs[i] in cs[..o.initCap];
    }

    // ---- lending ---------------------------------------------------------------------------

    /** Connect and, on a new connection, push: the map gains the client exactly when the
        factory is asked and reports success. No connection is lost exactly when it keeps
        its contract. */
    method Attach(c: Client, now: int, dial: Dial) returns (err: Option<Error>)
      requires Valid() && c in cs
      modifies this`pc2c, this`proper, c`client, c`conn, c`connTM, c`reqTM, c`err
      ensures Valid() && proper == (old(proper) && (old(c.Dials(now)) ==> dial.Proper()))
      ensures old(proper) ==> (Connections() <==> !old(c.Dials(now)) || dial.Proper())
      ensures err == old(c.Outcome(now, dial)) && c.conn == old(c.ConnAfter(now, dial))
      ensures pc2c == if old(c.Dials(now)) && dial.err.None? then old(pc2c)[c.tag := c] else old(pc2c)
      ensures old(proper) && old(c.Dials(now)) ==> c.tag !in old(pc2c)
      ensures old(c.Dials(now)) ==> c.client == dial.client
      ensures if old(c.Dials(now)) then c.err == dial.err else unchanged(c)
    {
      hide SlotsOk, TagsOk, SameClients, Apart, Recycle.Valid;
      StaysApart(cs, recycle.li, recycle.phase);
      SlotEntry(cs, pc2c, c);
      if proper {
        ConnectedSlot(c.index);
      }
      proper := proper && (c.Dials(now) ==> dial.Proper());
      var bNewConn;
      bNewConn, err := c.Connect(now, dial);
      assert old(proper) ==> forall x <- all :: x != c ==> Placed(x);
      if bNewConn {
        Store(c);
      }
      assert old(proper) ==> (Placed(c) <==> !old(c.Dials(now)) || dial.Proper());
    }

    method Store(c: Client)
      requires Structure() && c in cs
      modifies this`pc2c
      ensures Structure() && pc2c == old(pc2c)[c.tag := c] && Held(c)
      ensures forall x <- all :: x != c ==> Placed(x) == old(Placed(x))
    {
      hide SlotsOk, TagsOk, SameClients, Apart, Recycle.Valid;
      SlotEntry(cs, pc2c, c);
      OwnEntries(all, lastTag, c);
      OwnTag(cs, pc2c, all, lastTag, c);
      pc2c := pc2c[c.tag := c];
      assert forall x <- all :: x != c ==> Held(x) == old(Held(x));
    }

    /** While the factory keeps its contract, Connect reports success exactly when the
        client is connected afterwards. */
    lemma Succeeds(c: Client, now: int, dial: Dial)
      requires Valid() && proper && c in cs && now >= SECOND
      ensures c.Outcome(now, dial).None? <==> c.Connects(now, dial)
      ensures (c.Dials(now) ==> dial.Proper()) ==> (c.ConnAfter(now, dial) <==> c.Connects(now, dial))
    {
      assert c in all;
    }

    lemma SlotsSucceed(now: int, dials: seq<Dial>)
      requires Valid() && proper && now >= SECOND && |dials| == o.initCap
      ensures |cs| >= |dials|
      ensures forall i :: 0 <= i < |dials| ==>
                && (cs[i].Outcome(now, dials[i]).None? <==> cs[i].Connects(now, dials[i]))
                && ((cs[i].Dials(now) ==> dials[i].Proper()) ==>
                      (cs[i].ConnAfter(now, dials[i]) <==> cs[i].Connects(now, dials[i])))
    {
      forall i | 0 <= i < |dials|
        ensures && (cs[i].Outcome(now, dials[i]).None? <==> cs[i].Connects(now, dials[i]))
                && ((cs[i].Dials(now) ==> dials[i].Proper()) ==>
                      (cs[i].ConnAfter(now, dials[i]) <==> cs[i].Connects(now, dials[i])))
      {
        Succeeds(cs[i], now, dials[i]);
      }
    }

    method Pick() returns (c: Client)
      requires Valid() && forall x <- all :: x.ref < MAX_INT64
      modifies this`index
      ensures Valid() && c in cs && c in all && c.index < |cs| && cs[c.index] == c
      ensures if o.maxCap <= 100 then old(LeastUsed(c.index)) else old(NextInTurn(c.index))
      ensures index == if o.maxCap <= 100 || exists x <- cs[..o.initCap] :: x.ref <= 0 then old(index)
                       else (old(index) + 1) % TWO64
    {
      hide TagsOk, SameClients, Apart, LeastUsed, NextInTurn;
      if 100 >= o.maxCap {
        c := MinGet();
      } else {
        c := RoundGet();
      }
    }

    /** Picks a client and attaches it. When that fails and some client is connected, the
        picked one is handed out all the same: the connected one that is looked up is
        bound to a variable that goes out of scope. `k` is the slot that was picked. */
    method Get(now: int, dial: Dial) returns (c: Client?, err: Option<Error>, ghost k: nat)
      requires Valid() && now >= SECOND
      requires forall x <- all :: x.ref < MAX_INT64
      modifies this`pc2c, this`index, this`proper, all`client, all`conn, all`connTM, all`reqTM, all`err
      ensures Valid() && k < |cs| && cs[k] in all
      ensures if o.maxCap <= 100 then old(LeastUsed(k)) else old(NextInTurn(k))
      ensures index == if o.maxCap <= 100 || exists x <- cs[..o.initCap] :: x.ref <= 0 then old(index)
                       else (old(index) + 1) % TWO64
      ensures proper == (old(proper) && (old(cs[k].Dials(now)) ==> dial.Proper()))
      ensures err.Some? <==> c == null
      ensures c == null <==> old(cs[k].Outcome(now, dial)).Some? && old(pc2c) == map[]
      ensures c == null ==> err == old(cs[k].Outcome(now, dial))
      ensures c != null ==> c == cs[k]
      ensures cs[k].conn == old(cs[k].ConnAfter(now, dial))
      ensures pc2c == if old(cs[k].Dials(now)) && dial.err.None? then old(pc2c)[cs[k].tag := cs[k]] else old(pc2c)
      ensures old(proper) && old(cs[k].Dials(now)) ==> cs[k].tag !in old(pc2c)
      ensures proper ==> (c != null && !c.conn <==> !old(cs[k].Connects(now, dial)) && old(pc2c) != map[])
      ensures proper ==> (old(cs[k].Outcome(now, dial)).Some? <==> !old(cs[k].Connects(now, dial)))
      ensures forall x <- all :: x != cs[k] ==> x.conn == old(x.conn)
    {
      hide SlotsOk, TagsOk, SameClients, Apart, LeastUsed, NextInTurn, Connections, Structure;
      c := Pick();
      k := c.index;
      if proper {
        Succeeds(c, now, dial);
      }
      err := Attach(c, now, dial);
      if err.Some? {
        if pc2c == map[] {
          return null, err, k;
        }
      }
      err := None;
    }

    // ---- connecting the first slots --------------------------------------------------------

    /** A call of init_clients takes the flag, or returns at once when it is set. */
    method BeginInit() returns (entered: bool)
      requires Valid()
      modifies this`initting, this`initAt
      ensures Valid() && entered == !old(initting)
      ensures if entered then initting && initAt == Some(0) else unchanged(this)
    {
      entered := !initting;
      if entered {
        initting, initAt := true, Some(0);
      }
    }

    /** One turn of its loop. A connect that fails ends the call with the flag still set. */
    method InitSlot(now: int, dial: Dial) returns (err: Option<Error>)
      requires Valid() && initAt.Some? && initAt.value < o.initCap
      modifies this`initAt, this`pc2c, this`proper, all`client, all`conn, all`connTM, all`reqTM, all`err
      ensures Valid() && old(initAt.value) < |cs| && cs[old(initAt.value)] in all
      ensures var c := cs[old(initAt.value)];
              && err == old(cs[initAt.value].Outcome(now, dial))
              && c.conn == old(cs[initAt.value].ConnAfter(now, dial))
              && (old(cs[initAt.value].Dials(now)) ==> c.client == dial.client)
              && (forall x <- all :: x != c ==> unchanged(x))
              && proper == (old(proper) && (old(cs[initAt.value].Dials(now)) ==> dial.Proper()))
              && pc2c == (if old(cs[initAt.value].Dials(now)) && dial.err.None?
                          then old(pc2c)[c.tag := c] else old(pc2c))
      ensures initAt == if err.None? then Some(old(initAt.value) + 1) else None
    {
      hide SlotsOk, TagsOk, SameClients, Apart, Connections, Recycle.Valid;
      var i := initAt.value;
      err := None;
      if !cs[i].conn {
        err := Attach(cs[i], now, dial);
      }
      initAt := if err.None? then Some(i + 1) else None;
    }

    /** The end of the loop gives the flag back. */
    method EndInit()
      requires Valid() && initAt == Some(o.initCap)
      modifies this`initting, this`initAt
      ensures Valid() && !initting && initAt == None
    {
      initting, initAt := false, None;
    }

    /** A whole call that nothing comes between. */
    method InitClients(now: int, dials: seq<Dial>) returns (err: Option<Error>, ghost done: nat)
      requires Valid() && |dials| == o.initCap
      modifies this`initting, this`initAt, this`pc2c, this`proper
      modifies all`client, all`conn, all`connTM, all`reqTM, all`err
      ensures Valid() && initting == (old(initting) || err.Some?)
      ensures old(initting) ==> err.None? && unchanged(this) && unchanged(all)
      ensures !old(initting) ==> initAt == None && Reconnected(now, dials, err, done)
    {
      hide Valid, Kept, Client.Outcome, Client.ConnAfter, Client.Dials, Dial.Proper;
      done := 0;
      var entered := BeginInit();
      if !entered {
        return None, 0;
      }
      err, done := ConnectFirst(now, dials);
      if err.None? {
        EndInit();
      }
    }

    /** The first `n` slots have been tried, and nothing else has changed. */
    twostate predicate Tried(now: int, dials: seq<Dial>, n: nat)
      reads this, all
    {
      && n <= o.initCap == |dials| && o.initCap <= |cs| && cs == old(cs) && all == old(all)
      && (forall i :: 0 <= i < |cs| ==> cs[i] in all)
      && (forall i :: 0 <= i < n ==> cs[i].conn == old(cs[i].ConnAfter(now, dials[i])))
      && (forall i :: 0 <= i < n && old(cs[i].Dials(now)) ==> cs[i].client == dials[i].client)
      && (forall i :: n <= i < |cs| ==> unchanged(cs[i]))
      && (forall c <- all :: c !in cs ==> unchanged(c))
      && proper == (old(proper) && old(Kept(now, dials, n)))
    }

    /** The factory keeps its contract where the first `n` slots dial. */
    ghost predicate Kept(now: int, dials: seq<Dial>, n: nat)
      requires n <= |cs| && n <= |dials|
      reads this`cs, cs
    {
      forall i :: 0 <= i < n && cs[i].Dials(now) ==> dials[i].Proper()
    }

    lemma KeptOneMore(now: int, dials: seq<Dial>)
      requires |dials| <= |cs|
      ensures Kept(now, dials, 0)
      ensures forall n: nat :: n < |dials| ==>
                (Kept(now, dials, n + 1) <==> Kept(now, dials, n) && (cs[n].Dials(now) ==> dials[n].Proper()))
    {
    }

    /** The first InitCap slots up to and with the first whose connect fails have been
        tried, and the error is that failure. `done` is how many did not fail. */
    twostate predicate Reconnected(now: int, dials: seq<Dial>, new err: Option<Error>, done: nat)
      reads this, all
    {
      && done <= o.initCap && Tried(now, dials, if done < o.initCap then done + 1 else done)
      && (err.None? <==> done == o.initCap)
      && (forall i :: 0 <= i < done ==> old(cs[i].Outcome(now, dials[i])).None?)
      && (done < o.initCap ==> err == old(cs[done].Outcome(now, dials[done])))
    }

    /** The loop over the first InitCap slots, which ends at the first failure. */
    method ConnectFirst(now: int, dials: seq<Dial>) returns (err: Option<Error>, ghost done: nat)
      requires Valid() && |dials| == o.initCap && initAt == Some(0)
      modifies this`initAt, this`pc2c, this`proper, all`client, all`conn, all`connTM, all`reqTM, all`err
      ensures Valid() && Reconnected(now, dials, err, done)
      ensures initAt == if err.None? then Some(o.initCap) else None
    {
      hide Valid, Kept, Client.Outcome, Client.ConnAfter, Client.Dials, Dial.Proper;
      SlotFacts();
      KeptOneMore(now, dials);
      var i := 0;
      while i < o.initCap
        invariant Valid() && i <= o.initCap && initAt == Some(i) && Tried(now, dials, i)
        invariant forall j :: 0 <= j < i ==> old(cs[j].Outcome(now, dials[j])).None?
      {
        done := i;
        err := InitSlot(now, dials[i]);
        assert Tried(now, dials, i + 1);
        if err.Some? {
          return;
        }
        i := i + 1;
      }
      err, done := None, o.initCap;
    }

    lemma SlotFacts()
      requires Valid()
      ensures recycle != null && o.initCap <= |cs| == o.maxCap && forall i :: 0 <= i < |cs| ==> cs[i] in all
      ensures forall i, j :: 0 <= i < j < |cs| ==> cs[i] != cs[j]
    {
      SlotsDistinct(cs, pc2c);
    }

    // ---- taking a client out of its slot -------------------------------------------------------

    /** `c` has just left its slot; all else is as it should be. */
    ghost predicate Leaving(c: Client)
      reads this, recycle, all
    {
      && Structure() && InitOk() && Usable()
      && c in all && c !in cs && !Held(c) && c.tag !in recycle.mp && c !in InHand(recycle.phase)
      && (proper ==> LeavingConnected(c))
    }

    /** `c` is still connected, and no other connection is lost. */
    ghost predicate LeavingConnected(c: Client)
      requires recycle != null && c in all
      reads this, recycle, all
    {
      c.conn && c.client && forall x <- all :: x != c ==> Placed(x)
    }

    method Vacate(c: Client)
      requires Valid() && c in cs && (proper ==> c.conn)
      modifies this`cs, this`pc2c, this`lastTag, this`all
      ensures Leaving(c)
      ensures pc2c == old(pc2c) - {c.tag}
      ensures c.index < |cs| == |old(cs)| && cs == old(cs)[c.index := cs[c.index]]
      ensures fresh(cs[c.index]) && all == old(all) + {cs[c.index]}
      ensures cs[c.index].ref == 0 && !cs[c.index].conn
    {
      hide SlotsOk, TagsOk, SameClients, Apart, Recycle.Bounded;
      SlotEntry(cs, pc2c, c);
      OwnTag(cs, pc2c, all, lastTag, c);
      StaysApart(cs, recycle.li, recycle.phase);
      NotRecycled(recycle.li, recycle.mp, all, lastTag, c);
      var n := NewClient(c.index);
      SlotsReplaced(cs, pc2c, c, n);
      ApartAfter(cs, recycle.li, recycle.phase, c, n, recycle.li);
      pc2c := pc2c - {c.tag};
      cs := cs[c.index := n];
    }

    /** A client leaves its slot to a new one and goes to the recycler. */
    method Retire(c: Client, fails: bool)
      requires Valid() && c in cs && (proper ==> c.conn)
      modifies this`cs, this`pc2c, this`lastTag, this`all, recycle, all`conn
      ensures Valid() && recycle == old(recycle)
      ensures pc2c == old(pc2c) - {c.tag}
      ensures c.index < |cs| == |old(cs)| && cs == old(cs)[c.index := cs[c.index]]
      ensures fresh(cs[c.index]) && all == old(all) + {cs[c.index]}
      ensures cs[c.index].ref == 0 && !cs[c.index].conn
      ensures recycle.li == old(recycle.Pushed(c)) && recycle.phase == old(recycle.phase)
      ensures forall x <- old(cs) :: x != c ==> x.conn == old(x.conn)
    {
      hide SlotsOk, TagsOk, SameClients, Apart, Connections, Structure, Leaving, Recycle.Bounded;
      SlotsApart();
      Vacate(c);
      HandOver(c, fails);
    }

    lemma SlotsApart()
      requires Valid()
      ensures recycle != null && forall x <- cs :: x in all && x !in recycle.li
    {
    }

    /** The recycler takes the client that has left its slot, if it has a transport
        client. */
    method HandOver(c: Client, fails: bool)
      requires Leaving(c)
      modifies recycle, all`conn
      ensures Valid()
      ensures recycle.li == old(recycle.Pushed(c)) && recycle.phase == old(recycle.phase)
      ensures forall x <- all :: x != c && x !in old(recycle.li) ==> x.conn == old(x.conn)
      ensures forall x <- cs :: x.conn == old(x.conn)
    {
      hide SlotsOk, TagsOk, SameClients, Apart, Recycle.Valid;
      StaysApart(cs, recycle.li, recycle.phase);
      PushApart(cs, recycle.li, recycle.phase, c, recycle.Pushed(c));
      MapInSlots(cs, pc2c, all);
      recycle.Push(c, fails);
    }

    lemma EntryIsClean(c: Client)
      requires Valid() && c.tag in pc2c && pc2c[c.tag] == c && c in cs
      ensures (proper ==> c.conn && c.client) && c.tag !in recycle.mp
    {
      NotRecycled(recycle.li, recycle.mp, all, lastTag, c);
    }

    /** A bad client goes to the recycler if it is in its slot; it may be there already. */
    method MoveRecycle(tag: nat, fails: bool) returns (c: Client?)
      requires Valid()
      modifies this`cs, this`pc2c, this`lastTag, this`all, recycle, all`conn
      ensures Valid() && recycle == old(recycle) && old(all) <= all && fresh(all - old(all))
      ensures forall x <- all - old(all) :: x.ref == 0
      ensures c != null ==> c.tag == tag && c in old(all)
      ensures c == null <==> tag !in old(pc2c) && forall x <- old(recycle.li) :: x.tag != tag
      ensures pc2c == old(pc2c) - {tag}
      ensures tag in old(pc2c) ==>
                var x := old(pc2c[tag]);
                && x.index < |cs| && cs == old(cs)[x.index := cs[x.index]]
                && fresh(cs[x.index]) && !cs[x.index].conn
                && recycle.li == old(recycle.Pushed(x)) && (proper ==> old(x.client)) && x.tag !in old(recycle.mp)
      ensures tag !in old(pc2c) ==> unchanged(this) && unchanged(recycle) && forall x <- all :: x.conn == old(x.conn)
    {
      hide SlotsOk, TagsOk, SameClients, Apart, Connections, Recycle.Bounded;
      if tag in pc2c {
        c := pc2c[tag];
        MapEntry(cs, pc2c, tag);
        EntryIsClean(c);
        Retire(c, fails);
      } else {
        var found := recycle.Find(tag);
        c := if found.Some? then found.value else null;
      }
    }

    /** Closing a client that is in neither map. */
    method CloseStray(c: Client, fails: bool) returns (panicked: bool)
      requires Valid() && c in all && c.tag !in pc2c && forall x <- recycle.li :: x.tag != c.tag
      modifies c`conn
      ensures Valid() && panicked == !old(c.Closable()) && c.conn == panicked
      ensures panicked ==> !proper
    {
      var err;
      err, panicked := c.Close(fails);
      assert Structure();
    }

    // ---- the idle sweep -------------------------------------------------------------------

    /** Connected, not in use within the time a read and a write may take, and idle for
        longer than the idle timeout. */
    predicate Idle(c: Client, now: int)
      reads c`conn, c`ref, c`reqTM
    {
      && c.conn
      && !(0 < c.ref && now - c.reqTM <= o.read + o.write)
      && now - c.reqTM > o.idle
    }

    method RemoveClientIfIdleTimeOut(i: nat, now: int, fails: bool)
      requires Valid() && i < |cs|
      modifies this`cs, this`pc2c, this`lastTag, this`all, recycle, all`conn
      ensures Valid() && recycle == old(recycle) && old(all) <= all && fresh(all - old(all))
      ensures forall x <- all - old(all) :: x.ref == 0
      ensures |cs| == |old(cs)| && cs == old(cs)[i := cs[i]]
      ensures var c := old(cs[i]);
              if old(c.conn) && now - old(c.reqTM) > o.idle
                 && (old(c.ref) <= 0 || now - old(c.reqTM) > o.read + o.write)
              then fresh(cs[i]) && pc2c == old(pc2c) - {c.tag} && (proper ==> c.tag in old(pc2c))
                   && recycle.li == old(recycle.Pushed(cs[i]))
              else cs == old(cs) && pc2c == old(pc2c) && recycle.li == old(recycle.li)
      ensures old(Idle(cs[i], now)) <==> cs[i] != old(cs[i])
      ensures forall x <- old(cs) :: x != old(cs[i]) ==> x.conn == old(x.conn)
    {
      hide SlotsOk, TagsOk, SameClients, Apart, Connections, Recycle.Bounded;
      var c := cs[i];
      if !Idle(c, now) {
        return;
      }
      SlotEntry(cs, pc2c, c);
      if proper {
        ConnectedSlot(i);
      }
      Retire(c, fails);
    }

    /** A slot's client is connected exactly when the map holds it under its own tag. */
    lemma ConnectedSlot(i: nat)
      requires Valid() && proper && i < |cs|
      ensures cs[i].conn <==> cs[i].tag in pc2c && pc2c[cs[i].tag] == cs[i]
      ensures cs[i].conn <==> cs[i].tag in pc2c
      ensures cs[i].index == i
    {
      StaysApart(cs, recycle.li, recycle.phase);
      assert Placed(cs[i]);
      if cs[i].tag in pc2c {
        var x := pc2c[cs[i].tag];
        MapEntry(cs, pc2c, cs[i].tag);
        assert x in all && cs[i] in all;
      }
    }

    /** The sweep: slots from InitCap up, in order, until no more than InitCap clients are
        connected. It retires every idle client below the cut where it stopped and none
        above. */
    method ClearIdleTimeOutClient(now: int) returns (ghost cut: nat)
      requires Valid()
      modifies this`cs, this`pc2c, this`lastTag, this`all, recycle, all`conn
      ensures Valid() && recycle == old(recycle) && old(all) <= all && fresh(all - old(all))
      ensures forall x <- all - old(all) :: x.ref == 0
      ensures o.initCap <= cut <= o.maxCap == |cs| && (cut < o.maxCap ==> |pc2c| <= o.initCap)
      ensures forall i :: 0 <= i < |cs| ==>
                if o.initCap <= i < cut && old(cs[i].conn) && now - old(cs[i].reqTM) > o.idle
                   && (old(cs[i].ref) <= 0 || now - old(cs[i].reqTM) > o.read + o.write)
                then fresh(cs[i]) else cs[i] == old(cs[i])
      ensures |pc2c| >= old(|pc2c|) || |pc2c| >= o.initCap
    {
      hide Valid, Idle;
      SlotFacts();
      var i := o.initCap;
      cut := i;
      while i < o.maxCap
        invariant cut == i
        invariant Valid() && recycle == old(recycle) && old(all) <= all && fresh(all - old(all))
        invariant forall x <- all - old(all) :: x.ref == 0
        invariant o.initCap <= cut <= o.maxCap == |cs| == |old(cs)|
        invariant forall i :: 0 <= i < |cs| ==>
                    if o.initCap <= i < cut && old(cs[i].conn) && now - old(cs[i].reqTM) > o.idle
                       && (old(cs[i].ref) <= 0 || now - old(cs[i].reqTM) > o.read + o.write)
                    then fresh(cs[i]) else cs[i] == old(cs[i])
        invariant forall i :: cut <= i < |cs| ==> cs[i].conn == old(cs[i].conn)
        invariant |pc2c| >= old(|pc2c|) || |pc2c| >= o.initCap
      {
        if |pc2c| <= o.initCap {
          return;
        }
        ghost var c, m := cs[i], pc2c;
        SlotFacts();
        RemoveClientIfIdleTimeOut(i, now, false);
        OneFewer(m, c.tag);
        i := i + 1;
        cut := i;
      }
    }

    // ---- the recycling loop and shutting down -------------------------------------------------

    /** The next lock-protected operation of the recycling loop. A waiting loop is woken by
        a token or by its timer; `token` says which. */
    method RecyclerStep(token: bool, now: int, fails: bool)
      requires Valid()
      requires recycle.phase.Waiting? && token ==> recycle.tokens > 0
      modifies recycle, all`conn
      ensures Valid()
      ensures forall x <- cs :: x.conn == old(x.conn)
    {
      hide SlotsOk, TagsOk, SameClients, Recycle.Bounded;
      match recycle.phase {
        case Waiting =>
          if token {
            recycle.TakeToken();
          } else {
            recycle.Tick();
          }
        case Woken =>
          recycle.CheckLength();
        case Draining =>
          var _ := recycle.GetOneClient(now);
        case Picked(c) =>
          RecyclerRemove();
        case Removed(c) =>
          RecyclerClose(fails);
      }
    }

    method RecyclerRemove()
      requires Valid() && recycle.phase.Picked?
      modifies recycle
      ensures Valid()
    {
      hide SlotsOk, TagsOk, SameClients, Recycle.Bounded;
      TagIsOwn(recycle.li, recycle.mp, all, lastTag, recycle.phase.c);
      recycle.RemovePicked();
    }

    method RecyclerClose(fails: bool)
      requires Valid() && recycle.phase.Removed?
      modifies recycle, all`conn
      ensures Valid()
      ensures forall x <- cs :: x.conn == old(x.conn)
    {
      hide SlotsOk, TagsOk, SameClients, Recycle.Valid;
      NotInMap(cs, pc2c, recycle.phase.c);
      recycle.CloseRemoved(fails);
    }

    /** Every slot is destroyed up to the first whose connection reports an error, which
        ends the loop, or has no transport client, which makes the call panic. Without a
        panic the map is emptied, and the recycler closes what it holds, what its loop has
        in hand included. */
    method Close(fails: seq<bool>, now: int, wakes: seq<bool>)
      returns (err: Option<Error>, panicked: bool, ghost reached: nat)
      requires Valid() && |fails| == |cs|
      modifies this`isClose, this`pc2c, this`recycle, recycle, all`conn, all`bDestroy
      ensures isClose && Destroyed(fails, err, panicked, reached) && (old(proper) ==> !panicked)
      ensures if panicked then pc2c == old(pc2c) && recycle == old(recycle) else pc2c == map[] && recycle == null
      ensures !panicked ==> forall c | c in old(recycle.li) || c in old(InHand(recycle.phase)) :: !c.conn
    {
      hide SlotsOk, TagsOk, SameClients, Recycle.Bounded, Apart, Connections;
      LoopReady();
      ProperCloses();
      SlotsAside();
      isClose := true;
      err, panicked, reached := DestroySlots(fails);
      if panicked {
        return;
      }
      pc2c := map[];
      recycle.Close(now, wakes);
      recycle := null;
    }

    lemma SlotsAside()
      requires Valid()
      ensures |cs| > 0 && forall i :: 0 <= i < |cs| ==> cs[i] in all
      ensures forall i :: 0 <= i < |cs| ==> cs[i] !in recycle.li && cs[i] !in InHand(recycle.phase)
    {
      StaysApart(cs, recycle.li, recycle.phase);
    }

    lemma LoopReady()
      requires Valid()
      ensures recycle != null && recycle.Valid() && recycle.LoopOk()
    {
      if recycle.phase.Picked? {
        TagIsOwn(recycle.li, recycle.mp, all, lastTag, recycle.phase.c);
      }
    }

    lemma ProperCloses()
      requires Valid()
      ensures proper ==> forall c <- all :: c.Closable()
      ensures forall c <- all :: !c.bDestroy
    {
    }

    /** Slots are destroyed and closed one after another up to the one reached, where the
        closing panics, reports an error, or is the last. */
    twostate predicate Destroyed(fails: seq<bool>, new err: Option<Error>, panicked: bool, reached: nat)
      reads this, cs
    {
      && reached < |cs| == |fails| && cs == old(cs)
      && (forall i :: 0 <= i <= reached ==> cs[i].bDestroy && cs[i].conn == (panicked && i == reached))
      && (forall i :: reached < i < |cs| ==> !cs[i].bDestroy && cs[i].conn == old(cs[i].conn))
      && (forall i :: 0 <= i < reached ==> old(cs[i].Closable()) && !(old(cs[i].conn) && fails[i]))
      && panicked == !old(cs[reached].Closable())
      && (err.Some? <==> !panicked && old(cs[reached].conn) && fails[reached])
      && (!panicked && err.None? ==> reached == |cs| - 1)
    }

    method DestroySlots(fails: seq<bool>) returns (err: Option<Error>, panicked: bool, ghost reached: nat)
      requires SlotsOk(cs, pc2c) && |fails| == |cs| > 0
      requires forall c <- cs :: !c.bDestroy
      modifies cs`conn, cs`bDestroy
      ensures Destroyed(fails, err, panicked, reached)
    {
      SlotsDistinct(cs, pc2c);
      reached := 0;
      err, panicked := None, false;
      var i := 0;
      while i < |cs|
        invariant i <= |cs|
        invariant err.None? && !panicked && (i > 0 ==> reached == i - 1)
        invariant forall j :: 0 <= j < i ==> cs[j].bDestroy && !cs[j].conn
        invariant forall j :: 0 <= j < i ==> old(cs[j].Closable()) && !(old(cs[j].conn) && fails[j])
        invariant forall j :: i <= j < |cs| ==> !cs[j].bDestroy && cs[j].conn == old(cs[j].conn)
      {
        err, panicked := cs[i].Destroy(fails[i]);
        reached := i;
        if err.Some? || panicked {
          break;
        }
        i := i + 1;
      }
    }
  }

  lemma OwnEntries(all: set<Client>, lastTag: nat, c: Client)
    requires TagsOk(all, lastTag) && c in all
    ensures forall x <- all :: x.tag == c.tag ==> x == c
  {
  }

  lemma OwnTag(cs: seq<Client>, pc2c: map<nat, Client>, all: set<Client>, lastTag: nat, c: Client)
    requires SlotsOk(cs, pc2c) && TagsOk(all, lastTag) && c in cs && forall x <- cs :: x in all
    ensures c.tag in pc2c ==> pc2c[c.tag] == c
  {
    if c.tag in pc2c {
      MapEntry(cs, pc2c, c.tag);
    }
  }

  lemma TagIsOwn(li: seq<Client>, mp: map<nat, Client>, all: set<Client>, lastTag: nat, c: Client)
    requires SameClients(li, mp) && TagsOk(all, lastTag) && c in all && forall x <- li :: x in all
    ensures c.tag in mp ==> mp[c.tag] == c
  {
  }
}
