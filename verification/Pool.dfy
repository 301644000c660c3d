/** The pool: borrowing, returning, closing, and what holds over every run of an open
    pool with its sweep and its recycling loop. */
module Pool {
  import opened Options
  import opened PoolClient
  import opened Recycler
  import opened Slots
  import opened Words

  // ---- what holds in every state of an open pool ---------------------------------------

  ghost function TagsOf(cs: seq<Client>): (tags: set<nat>)
    ensures |tags| <= |cs|
    ensures forall c <- cs :: c.tag in tags
  {
    if cs == [] then {} else {cs[0].tag} + TagsOf(cs[1..])
  }

  /** Pooled connections never exceed MaxCap. */
  lemma ConnectedAtMostMaxCap(cs: seq<Client>, pc2c: map<nat, Client>)
    requires SlotsOk(cs, pc2c)
    ensures |pc2c| <= |cs|
  {
    forall t <- pc2c
      ensures t in TagsOf(cs)
    {
      assert pc2c[t] in cs;
    }
    SubsetSize(pc2c.Keys, TagsOf(cs));
    assert |pc2c.Keys| == |pc2c|;
  }

  lemma {:induction false} SubsetSize(a: set<nat>, b: set<nat>)
    requires a <= b
    ensures |a| <= |b|
  {
    if a != {} {
      var x :| x in a;
      SubsetSize(a - {x}, b - {x});
    }
  }

  /** Slot i holds a client of index i; every entry of the map is the client now in its
      slot; no tag is in both maps; both lists are bounded. While the factory keeps its
      contract, a slot is connected exactly when the map holds its client under its own
      tag, and every open connection is accounted for. */
  lemma OpenPoolInvariant(p: Clients)
    requires p.Valid()
    ensures |p.cs| == p.o.maxCap && forall i :: 0 <= i < |p.cs| ==> p.cs[i].index == i
    ensures forall t <- p.pc2c :: p.pc2c[t].tag == t && p.pc2c[t] in p.cs && p.cs[p.pc2c[t].index] == p.pc2c[t]
    ensures p.pc2c.Keys !! p.recycle.mp.Keys
    ensures |p.pc2c| <= p.o.maxCap
    ensures |p.recycle.li| <= p.o.maxCap + p.recycle.tokens + 1
    ensures |p.recycle.li| <= p.o.maxCap + (if p.o.maxCap * 10 <= 2000 then p.o.maxCap * 10 else 2000) + 1
    ensures p.proper ==> forall i :: 0 <= i < |p.cs| ==> (p.cs[i].conn <==> p.cs[i].tag in p.pc2c)
    ensures p.proper ==> forall t <- p.pc2c :: p.pc2c[t].conn
    ensures p.proper ==> forall c <- p.all :: c.conn ==>
              c.client && (c.tag in p.pc2c || c.tag in p.recycle.mp || p.recycle.phase == Removed(c))
  {
    ConnectedAtMostMaxCap(p.cs, p.pc2c);
    if p.proper {
      forall i | 0 <= i < |p.cs|
        ensures p.cs[i].conn <==> p.cs[i].tag in p.pc2c
      {
        p.ConnectedSlot(i);
      }
      assert forall c <- p.all :: p.Placed(c);
    }
    forall t <- p.pc2c
      ensures p.pc2c[t].tag == t && p.pc2c[t] in p.cs && t !in p.recycle.mp
    {
      MapEntry(p.cs, p.pc2c, t);
      NotRecycled(p.recycle.li, p.recycle.mp, p.all, p.lastTag, p.pc2c[t]);
    }
  }

  // ---- the history ----------------------------------------------------------------------

  datatype Event = Got(c: Client) | Returned(c: Client)

  /** Gets that handed out `c` less Puts made on it. */
  ghost function Net(log: seq<Event>, c: Client): int
  {
    multiset(log)[Got(c)] as int - multiset(log)[Returned(c)] as int
  }

  lemma {:induction false} CountAtMostLength(log: seq<Event>, e: Event)
    ensures multiset(log)[e] <= |log|
  {
    if log != [] {
      CountAtMostLength(log[1..], e);
      assert log == [log[0]] + log[1..];
    }
  }

  lemma Logged(log: seq<Event>, e: Event)
    ensures Net(log + [e], e.c) == Net(log, e.c) + (if e.Got? then 1 else -1)
    ensures forall x: Client | x != e.c :: Net(log + [e], x) == Net(log, x)
  {
  }

  lemma StrangersUncounted(log: seq<Event>, known: set<Client>, all: set<Client>)
    requires forall e <- log :: e.c in known
    ensures forall c <- all - known :: Net(log, c) == 0
  {
    forall c <- all - known
      ensures Net(log, c) == 0
    {
      assert Got(c) !in log && Returned(c) !in log;
    }
  }

  lemma OwnEntry(p: Clients, c: Client)
    requires p.Valid() && c in p.all
    ensures p.recycle != null
    ensures c.tag in p.pc2c ==> p.pc2c[c.tag] == c && c in p.cs && p.cs[c.index] == c
    ensures forall i :: 0 <= i < |p.cs| && p.cs[i] == c ==> i == c.index
  {
    if c.tag in p.pc2c {
      MapEntry(p.cs, p.pc2c, c.tag);
    }
  }

  /** Every Put follows a Get of the same client that no other Put has answered. */
  ghost predicate Matched(log: seq<Event>)
  {
    log == [] ||
    var before := log[..|log| - 1];
    Matched(before) && (log[|log| - 1].Returned? ==> Net(before, log[|log| - 1].c) > 0)
  }

  lemma {:induction false} NetNeverNegative(log: seq<Event>, c: Client)
    requires Matched(log)
    ensures Net(log, c) >= 0
  {
    if log != [] {
      var before := log[..|log| - 1];
      NetNeverNegative(before, c);
      assert log == before + [log[|log| - 1]];
    }
  }

  /** No reference count of an open pool is negative as long as every Put answers a Get. */
  lemma MatchedNeverNegative(p: Pool)
    requires p.Valid() && !p.closed && Matched(p.log)
    ensures forall c <- p.clients.all :: c.ref >= 0
  {
    forall c <- p.clients.all
      ensures c.ref >= 0
    {
      NetNeverNegative(p.log, c);
    }
  }

  /** Some reconnection has failed. */
  ghost predicate Failed(inits: seq<Option<Error>>)
  {
    exists r <- inits :: r.Some?
  }

  lemma FailedAfter(inits: seq<Option<Error>>, r: Option<Error>)
    ensures Failed(inits + [r]) <==> Failed(inits) || r.Some?
  {
    var after := inits + [r];
    if Failed(inits) {
      var x :| x in inits && x.Some?;
      assert x in after;
    }
    if r.Some? {
      assert after[|inits|] == r;
    }
  }

  class Pool {
    const clients: Clients
    var closed: bool
    ghost var log: seq<Event>
    ghost var inits: seq<Option<Error>>  // what the calls of init_clients returned

    /** Reference counts are conserved: each is the Gets less the Puts of its client. */
    ghost predicate Conserved()
      reads this`log, clients`all, clients.all`ref
    {
      && (forall c <- clients.all :: c.ref == Net(log, c))
      && (forall e <- log :: e.c in clients.all)
    }

    ghost predicate Valid()
      reads this, clients, clients.recycle, clients.all
    {
      !closed ==> clients.Valid() && Conserved() && Stuck()
    }

    /** The flag of init_clients is set exactly when a call is under way or has failed,
        which happens at most once and is the last thing that happens. */
    ghost predicate Stuck()
      reads this`inits, clients`initting, clients`initAt
    {
      && (clients.initting <==> Failed(inits) || clients.initAt.Some?)
      && (Failed(inits) ==> clients.initAt.None?)
      && (forall i, j :: 0 <= i < j < |inits| && inits[i].Some? ==> inits[j].None?)
    }

    constructor (o: Config)
      ensures Valid() && !closed && log == [] && inits == [] && clients.o == Settle(o)
      ensures fresh(clients) && fresh(clients.all) && fresh(clients.recycle)
      ensures clients.recycle.phase.Waiting? && clients.proper && !clients.initting && clients.initAt.None?
      ensures forall c <- clients.all :: c.ref == 0
      ensures forall c <- clients.cs :: c in clients.all && !c.conn && c.connTM == 0
    {
      clients := new Clients(Settle(o));
      closed, log, inits := false, [], [];
    }

    lemma RefsFit()
      requires !closed && Valid() && |log| < MAX_INT64
      ensures forall c <- clients.all :: c.ref < MAX_INT64
    {
      forall c <- clients.all
        ensures c.ref < MAX_INT64
      {
        CountAtMostLength(log, Got(c));
      }
    }

    /** Hands out a client, counts it, and stamps the request time. `k` is the slot that
        was picked. A failed connect still hands out its client when the map has an
        entry; while the factory keeps its contract, that client is unconnected, and only
        then is one handed out that is. */
    method Get(now: int, dial: Dial) returns (c: Client?, err: Option<Error>, ghost k: nat)
      requires Valid() && now >= SECOND && |log| < MAX_INT64
      modifies this`log, clients`pc2c, clients`index, clients`proper, clients.all
      ensures Valid() && (closed ==> err == Some(ErrClosed))
      ensures err.Some? <==> c == null
      ensures log == if c == null then old(log) else old(log) + [Got(c)]
      ensures forall x <- clients.all :: x.ref == old(x.ref) + (if x == c then 1 else 0)
      ensures c != null ==> !closed && c in clients.all && c.reqTM == now
      ensures !closed ==> k < |clients.cs| && clients.cs[k] in clients.all && (c != null ==> c == clients.cs[k])
      ensures !closed ==> clients.o.initCap <= |clients.cs| == clients.o.maxCap
      ensures !closed && (exists x <- clients.cs[..clients.o.initCap] :: old(x.ref) <= 0) ==>
                && k < clients.o.initCap && old(clients.cs[k].ref) <= 0
                && (forall x <- clients.cs[..k] :: old(x.ref) > 0) && clients.index == old(clients.index)
      ensures !closed && (forall x <- clients.cs[..clients.o.initCap] :: old(x.ref) > 0) ==>
                if clients.o.maxCap <= 100
                then (forall x <- clients.cs :: old(clients.cs[k].ref) <= old(x.ref))
                     && (forall x <- clients.cs[..k] :: old(clients.cs[k].ref) < old(x.ref))
                     && clients.index == old(clients.index)
                else k == old(clients.index) % |clients.cs| && clients.index == (old(clients.index) + 1) % TWO64
      ensures !closed ==> (c == null <==> old(clients.cs[k].Outcome(now, dial)).Some? && old(clients.pc2c) == map[])
      ensures !closed && c == null ==> err == old(clients.cs[k].Outcome(now, dial))
      ensures !closed ==> clients.proper == (old(clients.proper) && (old(clients.cs[k].Dials(now)) ==> dial.Proper()))
      ensures !closed && clients.proper ==> (c != null && !c.conn <==>
                !old(clients.cs[k].Connects(now, dial)) && old(clients.pc2c) != map[])
      ensures !closed ==> clients.cs[k].conn == old(clients.cs[k].ConnAfter(now, dial))
      ensures !closed ==> clients.pc2c == if old(clients.cs[k].Dials(now)) && dial.err.None?
                                          then old(clients.pc2c)[clients.cs[k].tag := clients.cs[k]]
                                          else old(clients.pc2c)
      ensures !closed && old(clients.proper) && old(clients.cs[k].Dials(now)) ==>
                clients.cs[k].tag !in old(clients.pc2c)
      ensures !closed ==> forall x <- clients.all :: x != clients.cs[k] ==> x.conn == old(x.conn)
    {
      hide Clients.Valid, Clients.LeastUsed, Clients.NextInTurn, Conserved, Stuck;
      hide Client.Dials, Client.Connects, Client.Outcome, Client.ConnAfter, Dial.Proper;
      if closed {
        return null, Some(ErrClosed), 0;
      }
      RefsFit();
      SlotCount(this);
      clients.PickMeans();
      c, err, k := clients.Get(now, dial);
      if err.Some? {
        return null, err, k;
      }
      Lend(c, now);
    }

    method Lend(c: Client, now: int)
      requires Conserved() && c in clients.all
      modifies this`log, c`ref, c`reqTM
      ensures Conserved() && log == old(log) + [Got(c)]
      ensures c.ref == old(c.ref) + 1 && c.reqTM == now
    {
      hide Net;
      c.AddRef(1);
      c.reqTM := now;
      Logged(log, Got(c));
      log := log + [Got(c)];
    }

    /** In neither map: its tag is unknown. */
    ghost predicate Stray(c: Client)
      requires !closed && Valid()
      reads this, clients, clients.recycle, clients.all
    {
      c.tag !in clients.pc2c && forall x <- clients.recycle.li :: x.tag != c.tag
    }

    /** Takes a client back. A bad one leaves its slot for the recycler; one that is in
        neither map is closed, which panics when it has a connection and no transport
        client. After Close nothing is counted any more. */
    method Put(c: Client, good: bool, fails: bool) returns (err: Option<Error>, panicked: bool)
      requires Valid() && c in clients.all
      modifies this`log, c`ref, clients`cs, clients`pc2c, clients`lastTag, clients`all
      modifies clients.recycle, clients.all`conn
      ensures Valid() && closed == old(closed)
      ensures !closed ==> clients.recycle == old(clients.recycle)
      ensures old(clients.all) <= clients.all && fresh(clients.all - old(clients.all))
      ensures forall x <- clients.all - old(clients.all) :: x.ref == 0
      ensures panicked == (!old(c.Closable()) && (closed || (!good && old(Stray(c)))))
      ensures !closed && panicked ==> !clients.proper
      ensures closed ==> err == Some(ErrClosed) && c.conn == panicked && log == old(log) && c.ref == old(c.ref)
      ensures !closed ==> err == None && log == old(log) + [Returned(c)] && c.ref == old(c.ref) - 1
      ensures !closed && !good ==> c.tag !in clients.pc2c && clients.pc2c == old(clients.pc2c) - {c.tag}
      ensures !closed && !good && old(Stray(c)) ==> c.conn == panicked && clients.cs == old(clients.cs)
      ensures !closed && !good && c.tag !in old(clients.pc2c)
              && (forall x <- old(clients.recycle.li) :: x.tag != c.tag) ==>
                c.conn == panicked && panicked == (old(c.conn) && !old(c.client))
      ensures !closed && !good && c.tag in old(clients.pc2c) ==>
                && c !in clients.cs && clients.recycle.li == old(clients.recycle.Pushed(c))
                && c.index < |clients.cs| && clients.cs == old(clients.cs)[c.index := clients.cs[c.index]]
                && fresh(clients.cs[c.index]) && !clients.cs[c.index].conn
      ensures !closed && good ==> clients.pc2c == old(clients.pc2c) && clients.cs == old(clients.cs)
    {
      hide Clients.Valid, Net, Stuck;
      err, panicked := None, false;
      if closed {
        err, panicked := c.Close(fails);
        return Some(ErrClosed), panicked;
      }
      OwnEntry(clients, c);
      c.AddRef(-1);
      Logged(log, Returned(c));
      log := log + [Returned(c)];
      if !good {
        panicked := PutBad(c, fails);
      }
    }

    method PutBad(c: Client, fails: bool) returns (panicked: bool)
      requires !closed && Valid() && c in clients.all
      modifies clients`cs, clients`pc2c, clients`lastTag, clients`all, clients.recycle, clients.all`conn
      ensures Valid() && clients.recycle == old(clients.recycle)
      ensures old(clients.all) <= clients.all && fresh(clients.all - old(clients.all))
      ensures forall x <- clients.all - old(clients.all) :: x.ref == 0
      ensures panicked == (!old(c.Closable()) && old(Stray(c))) && (panicked ==> !clients.proper)
      ensures c.tag !in clients.pc2c && clients.pc2c == old(clients.pc2c) - {c.tag}
      ensures old(Stray(c)) ==> c.conn == panicked && clients.cs == old(clients.cs)
      ensures c.tag in old(clients.pc2c) ==>
                && c !in clients.cs && clients.recycle.li == old(clients.recycle.Pushed(c))
                && c.index < |clients.cs| && clients.cs == old(clients.cs)[c.index := clients.cs[c.index]]
                && fresh(clients.cs[c.index]) && !clients.cs[c.index].conn
    {
      hide Clients.Valid, Net, Stuck;
      OwnEntry(clients, c);
      panicked := false;
      var moved := clients.MoveRecycle(c.tag, fails);
      if moved == null {
        panicked := clients.CloseStray(c, fails);
      }
      StrangersUncounted(log, old(clients.all), clients.all);
    }

    // ---- what runs in the background --------------------------------------------------------

    method Sweep(now: int)
      requires Valid() && !closed
      modifies clients`cs, clients`pc2c, clients`lastTag, clients`all, clients.recycle, clients.all`conn
      ensures Valid() && clients.recycle == old(clients.recycle)
      ensures old(clients.all) <= clients.all && fresh(clients.all - old(clients.all))
      ensures forall x <- clients.all - old(clients.all) :: x.ref == 0
    {
      hide Clients.Valid, Net, Stuck;
      ghost var _ := clients.ClearIdleTimeOutClient(now);
      StrangersUncounted(log, old(clients.all), clients.all);
    }

    /** What the sweep does to one slot, at any time after it has counted. */
    method SweepSlot(i: nat, now: int, fails: bool)
      requires Valid() && !closed && i < clients.o.maxCap
      modifies clients`cs, clients`pc2c, clients`lastTag, clients`all, clients.recycle, clients.all`conn
      ensures Valid() && clients.recycle == old(clients.recycle)
      ensures old(clients.all) <= clients.all && fresh(clients.all - old(clients.all))
      ensures forall x <- clients.all - old(clients.all) :: x.ref == 0
      ensures old(|clients.pc2c|) - 1 <= |clients.pc2c| <= old(|clients.pc2c|)
    {
      hide Clients.Valid, Net, Stuck, Clients.Idle;
      SlotCount(this);
      OneFewer(clients.pc2c, clients.cs[i].tag);
      clients.RemoveClientIfIdleTimeOut(i, now, fails);
      StrangersUncounted(log, old(clients.all), clients.all);
    }

    /** A reconnection of the first InitCap slots that nothing comes between. It does what
        it is for unless one has failed or is under way, and nothing otherwise. */
    method Init(now: int, dials: seq<Dial>) returns (err: Option<Error>, ghost done: nat)
      requires Valid() && !closed && now >= SECOND && |dials| == clients.o.initCap
      modifies this`inits, clients`pc2c, clients`initting, clients`initAt, clients`proper
      modifies clients.all`client, clients.all`conn, clients.all`connTM, clients.all`reqTM, clients.all`err
      ensures Valid() && inits == old(inits) + [err]
      ensures old(clients.initting) <==> Failed(old(inits)) || old(clients.initAt).Some?
      ensures old(clients.initting) ==> err.None? && unchanged(clients) && unchanged(clients.all)
      ensures !old(clients.initting) ==> clients.initAt.None? && clients.Reconnected(now, dials, err, done)
      ensures |clients.cs| >= |dials|
      ensures !old(clients.initting) && clients.proper ==>
                forall i :: 0 <= i < |clients.cs| ==> clients.cs[i].conn == (i < done || old(clients.cs[i].conn))
      ensures clients.proper && (forall i :: 0 <= i < |dials| ==> old(clients.cs[i].Connects(now, dials[i]))) ==>
                ((forall i :: 0 <= i < |dials| ==> clients.cs[i].conn) <==>
                 !old(clients.initting) || forall i :: 0 <= i < |dials| ==> old(clients.cs[i].conn))
    {
      hide Clients.Valid, Net, Dial.Proper, Client.Outcome;
      SlotCount(this);
      if clients.proper {
        clients.SlotsSucceed(now, dials);
      }
      err, done := clients.InitClients(now, dials);
      FailedAfter(inits, err);
      inits := inits + [err];
    }

    /** The steps of a reconnection that other operations may come between: the flag is
        taken, a slot is tried, or the flag is given back. */
    method InitBegin() returns (entered: bool)
      requires Valid() && !closed
      modifies this`inits, clients`initting, clients`initAt
      ensures Valid() && entered == !(Failed(old(inits)) || old(clients.initAt).Some?)
      ensures if entered then clients.initAt == Some(0) && inits == old(inits)
              else unchanged(clients) && inits == old(inits) + [None]
    {
      hide Clients.Valid, Net;
      entered := clients.BeginInit();
      if !entered {
        FailedAfter(inits, None);
        inits := inits + [None];
      }
    }

    method InitStep(now: int, dial: Dial) returns (err: Option<Error>)
      requires Valid() && !closed && clients.initAt.Some?
      modifies this`inits, clients`pc2c, clients`initting, clients`initAt, clients`proper
      modifies clients.all`client, clients.all`conn, clients.all`connTM, clients.all`reqTM, clients.all`err
      ensures Valid() && (old(clients.proper) && dial.Proper() ==> clients.proper)
      ensures if clients.initAt.Some? then inits == old(inits) && err.None?
                                           && clients.initAt == Some(old(clients.initAt.value) + 1)
              else inits == old(inits) + [err] && (err.None? <==> old(clients.initAt.value) == clients.o.initCap)
    {
      hide Clients.Valid, Net, Dial.Proper;
      InitInRange(this);
      if clients.initAt.value == clients.o.initCap {
        clients.EndInit();
        err := None;
      } else {
        err := clients.InitSlot(now, dial);
      }
      if clients.initAt.None? {
        FailedAfter(inits, err);
        inits := inits + [err];
      }
    }

    method Recycling(token: bool, now: int, fails: bool)
      requires Valid() && !closed && (clients.recycle.phase.Waiting? && token ==> clients.recycle.tokens > 0)
      modifies clients.recycle, clients.all`conn
      ensures Valid()
    {
      hide Clients.Valid, Net, Stuck;
      clients.RecyclerStep(token, now, fails);
    }

    /** Only the first Close does anything; the lock it takes is never given back. The
        recycling loop may be anywhere when it comes. */
    method Close(fails: seq<bool>, now: int, wakes: seq<bool>) returns (panicked: bool, ghost reached: nat)
      requires Valid() && (!closed ==> |fails| == |clients.cs|)
      modifies this`closed, clients`isClose, clients`pc2c, clients`recycle, clients.recycle
      modifies clients.all`conn, clients.all`bDestroy
      ensures Valid() && closed
      ensures old(closed) ==> !panicked && unchanged(clients) && unchanged(clients.all)
      ensures !old(closed) ==> reached < |clients.cs| && panicked == !old(clients.cs[reached].Closable())
      ensures !old(closed) && old(clients.proper) ==> !panicked
      ensures !old(closed) && !panicked ==> clients.pc2c == map[]
      ensures !old(closed) && !panicked ==>
                forall c | c in old(clients.recycle.li) || c in old(InHand(clients.recycle.phase)) :: !c.conn
      ensures !old(closed) ==> forall i :: 0 <= i < |clients.cs| ==>
                clients.cs[i].conn == (old(clients.cs[i].conn) && (i > reached || (i == reached && panicked)))
      ensures !old(closed) && !panicked && reached < |clients.cs| - 1 ==>
                old(clients.cs[reached].conn) && fails[reached]
      ensures !old(closed) ==> forall i :: 0 <= i < reached ==>
                old(clients.cs[i].Closable()) && !(old(clients.cs[i].conn) && fails[i])
    {
      hide Clients.Valid;
      reached, panicked := 0, false;
      if closed {
        return;
      }
      closed := true;
      var err;
      err, panicked, reached := clients.Close(fails, now, wakes);
    }
  }

  lemma InitInRange(p: Pool)
    requires p.Valid() && !p.closed && p.clients.initAt.Some?
    ensures p.clients.initAt.value <= p.clients.o.initCap
  {
  }

  /** A new pool with its first InitCap slots connected, or none: options that are refused
      make no pool, and when a slot cannot be connected the pool that was made is closed
      again, which may panic. */
  method NewPool(c: Config, now: int, dials: seq<Dial>, fails: seq<bool>, wakes: seq<bool>)
    returns (p: Pool?, err: Option<Error>, panicked: bool, ghost made: Pool?)
    requires now >= SECOND && |dials| == Settle(c).initCap && |fails| == Settle(c).maxCap
    ensures made == null <==> Refused(c)
    ensures p == if err.None? then made else null
    ensures Refused(c) ==> err == Some(ErrInvalid) && !panicked
    ensures !Refused(c) ==> (err.None? <==> forall d <- dials :: d.err.None?)
    ensures !Refused(c) && err.Some? ==> exists i :: 0 <= i < |dials| && dials[i].err == err
                                                     && forall j :: 0 <= j < i ==> dials[j].err.None?
    ensures made != null ==> fresh(made) && fresh(made.clients) && fresh(made.clients.all)
    ensures made != null ==> made.Valid() && made.clients.o == Settle(c) && |made.clients.cs| == Settle(c).maxCap
    ensures p != null ==> !p.closed && !panicked && p.log == [] && p.inits == [None] && p.clients.initAt.None?
    ensures p != null ==> fresh(p.clients.recycle) && forall x <- p.clients.all :: x.ref == 0
    ensures p != null ==> (p.clients.proper <==> forall d <- dials :: d.Proper())
    ensures p != null ==> forall i :: 0 <= i < |p.clients.cs| ==>
              p.clients.cs[i].conn == (i < |dials| && dials[i].conn)
    ensures made != null && err.Some? ==> made.closed && (panicked <==> ClosingPanics(dials, fails))
    ensures made != null && err.Some? && !panicked && (forall f <- fails :: !f) ==>
              forall x <- made.clients.cs :: !x.conn
  {
    if Refused(c) {
      return null, Some(ErrInvalid), false, null;
    }
    var pool;
    ghost var n;
    pool, err, n := FirstInit(c, now, dials);
    p, panicked, made := pool, false, pool;
    if err.Some? {
      SlotCount(pool);
      ghost var reached;
      panicked, reached := pool.Close(fails, now, wakes);
      ClosedAgain(dials, fails, n, reached, panicked);
      assert fails[reached] in fails;
      p := null;
    }
  }

  /** Closing what the dials up to the first failure have connected comes, before a
      connection that reports an error, to one without a transport client. */
  ghost predicate ClosingPanics(dials: seq<Dial>, fails: seq<bool>)
    requires |dials| <= |fails|
  {
    exists j :: 0 <= j < |dials| && dials[j].conn && !dials[j].client
                && forall i :: 0 <= i < j ==> dials[i].err.None? && !(dials[i].conn && fails[i])
  }

  lemma ClosedAgain(dials: seq<Dial>, fails: seq<bool>, n: nat, reached: nat, panicked: bool)
    requires |dials| <= |fails| && n < |dials| && dials[n].err.Some?
    requires forall i :: 0 <= i < n ==> dials[i].err.None?
    requires reached < |fails| && panicked == (reached <= n && dials[reached].conn && !dials[reached].client)
    requires forall i :: 0 <= i < reached && i <= n ==>
               (dials[i].conn ==> dials[i].client) && !(dials[i].conn && fails[i])
    requires !panicked && reached < |fails| - 1 ==> reached <= n && dials[reached].conn && fails[reached]
    ensures panicked <==> ClosingPanics(dials, fails)
  {
  }

  /** A new pool and its first init_clients. `n` is how many slots did not fail. */
  method FirstInit(c: Config, now: int, dials: seq<Dial>) returns (p: Pool, err: Option<Error>, ghost n: nat)
    requires now >= SECOND && |dials| == Settle(c).initCap
    ensures fresh(p) && fresh(p.clients) && fresh(p.clients.all) && fresh(p.clients.recycle)
    ensures p.Valid() && !p.closed && p.clients.o == Settle(c) && |p.clients.cs| == Settle(c).maxCap
    ensures p.log == [] && p.inits == [err] && p.clients.initAt.None?
    ensures n <= |dials| && (forall i :: 0 <= i < n ==> dials[i].err.None?)
    ensures if n < |dials| then err.Some? && dials[n].err == err else err.None?
    ensures forall x <- p.clients.all :: x.ref == 0
    ensures forall i :: 0 <= i < |p.clients.cs| ==>
              p.clients.cs[i].conn == (i <= n && i < |dials| && dials[i].conn)
    ensures forall i :: 0 <= i < |dials| && i <= n ==> p.clients.cs[i].client == dials[i].client
    ensures p.clients.proper <==> forall i :: 0 <= i <= n && i < |dials| ==> dials[i].Proper()
  {
    hide Pool.Valid, Settle, Dial.Proper;
    p := new Pool(c);
    SlotCount(p);
    err, n := p.Init(now, dials);
    SlotCount(p);
  }

  lemma SlotCount(p: Pool)
    requires p.Valid() && !p.closed
    ensures |p.clients.cs| == p.clients.o.maxCap >= p.clients.o.initCap && p.clients.recycle != null
    ensures forall c <- p.clients.cs :: c in p.clients.all
  {
  }

  /** Close leaves a connection of a slot open exactly when some slot's connection reported
      an error and a later slot was connected, or a slot's connection has no transport
      client. */
  method CloseLeaks(p: Pool, fails: seq<bool>, now: int, wakes: seq<bool>) returns (ghost leaked: bool)
    requires p.Valid() && !p.closed && |fails| == |p.clients.cs|
    modifies p, p.clients, p.clients.recycle, p.clients.all
    ensures leaked <==> exists i :: 0 <= i < |p.clients.cs| && p.clients.cs[i].conn
    ensures leaked <==> (exists i, j :: 0 <= i < j < |fails| && old(p.clients.cs[i].conn) && fails[i]
                                        && old(p.clients.cs[j].conn))
                        || exists i :: 0 <= i < |fails| && !old(p.clients.cs[i].Closable())
  {
    hide Pool.Valid;
    var panicked;
    ghost var reached;
    panicked, reached := p.Close(fails, now, wakes);
    leaked := exists i :: 0 <= i < |p.clients.cs| && p.clients.cs[i].conn;
    if leaked {
      ghost var j :| 0 <= j < |p.clients.cs| && p.clients.cs[j].conn;
      assert panicked || (old(p.clients.cs[reached].conn) && fails[reached] && old(p.clients.cs[j].conn));
    }
    if i, j :| 0 <= i < j < |fails| && old(p.clients.cs[i].conn) && fails[i] && old(p.clients.cs[j].conn) {
      assert p.clients.cs[if panicked then reached else j].conn;
    }
    if i :| 0 <= i < |fails| && !old(p.clients.cs[i].Closable()) {
      assert p.clients.cs[if panicked then reached else i].conn;
    }
  }

  // ---- a factory that breaks its contract -----------------------------------------------------

  /** A Get leaves a slot connected that the map does not know exactly when its dial gives
      a connection and an error, and an unconnected client in the map exactly when it
      gives neither. */
  method GetFromBadFactory(p: Pool, now: int, dial: Dial) returns (ghost k: nat)
    requires p.Valid() && !p.closed && p.clients.proper && now >= SECOND && |p.log| < MAX_INT64
    modifies p`log, p.clients`pc2c, p.clients`index, p.clients`proper, p.clients.all
    ensures k < |p.clients.cs|
    ensures (exists i :: 0 <= i < |p.clients.cs| && p.clients.cs[i].conn && p.clients.cs[i].tag !in p.clients.pc2c)
            <==> old(p.clients.cs[k].Dials(now)) && dial.conn && dial.err.Some?
    ensures (exists t <- p.clients.pc2c :: !p.clients.pc2c[t].conn)
            <==> old(p.clients.cs[k].Dials(now)) && !dial.conn && dial.err.None?
  {
    hide Pool.Valid, Clients.LeastUsed, Clients.NextInTurn, Pool.Conserved, Client.Outcome;
    SlotTags(p);
    var c, err;
    c, err, k := p.Get(now, dial);
    ghost var x := p.clients.cs[k];
    if !x.conn && x.tag in p.clients.pc2c {
      assert !p.clients.pc2c[x.tag].conn;
    }
  }

  lemma SlotTags(p: Pool)
    requires p.Valid() && !p.closed && p.clients.proper
    ensures forall i :: 0 <= i < |p.clients.cs| ==>
              p.clients.cs[i] in p.clients.all && p.clients.cs[i].index == i
              && (p.clients.cs[i].conn <==> p.clients.cs[i].tag in p.clients.pc2c)
    ensures forall t <- p.clients.pc2c :: p.clients.pc2c[t].conn && p.clients.pc2c[t] in p.clients.all
                                          && p.clients.pc2c[t].tag == t
  {
    OpenPoolInvariant(p.clients);
  }

  // ---- runs that show what goes wrong --------------------------------------------------------

  const GOOD_DIAL := Dial(true, true, None)
  const BAD_DIAL := Dial(false, false, Some(ErrDial(0)))
  const HALF_OPEN_DIAL := Dial(false, true, Some(ErrDial(0)))

  /** Options with the capacities and every timeout set. */
  function Sized(initCap: int, maxCap: int): (c: Config)
    ensures !Refused(c)
  {
    Config(initCap, maxCap, SECOND, SECOND, SECOND, SECOND, true)
  }

  /** A reconnection fails once; the next one could connect the slot, returns no error,
      and leaves it unconnected. */
  method StuckReconnection() returns (p: Pool, first: Option<Error>, second: Option<Error>)
    ensures p.Valid() && !p.closed && p.clients.proper
    ensures first.Some? && second == None
    ensures |p.clients.cs| == 1 && !p.clients.cs[0].conn
  {
    hide Pool.Valid;
    p := EmptySlot();
    ghost var done;
    first, done := p.Init(2 * SECOND, [BAD_DIAL]);
    second, done := p.Init(10 * SECOND, [GOOD_DIAL]);
  }

  /** A pool of one slot, whose client was borrowed and put back as bad. */
  method EmptySlot() returns (p: Pool)
    ensures fresh(p) && fresh(p.clients) && fresh(p.clients.all) && p.Valid() && !p.closed && p.clients.proper
    ensures |p.clients.cs| == p.clients.o.initCap == 1 && !p.clients.cs[0].conn && p.clients.cs[0] in p.clients.all
    ensures p.inits == [None] && !p.clients.initting
  {
    hide Pool.Valid, ClosingPanics, Pool.Stray;
    var pool, err, panicked;
    ghost var made, k;
    pool, err, panicked, made := NewPool(Sized(1, 1), SECOND, [GOOD_DIAL], [false], []);
    p := pool;
    SlotTags(p);
    var c;
    c, err, k := p.Get(SECOND, BAD_DIAL);
    assert k == 0 && p.clients.cs[0].index == 0;
    err, panicked := p.Put(c, false, false);
    SlotCount(p);
    FlagOf(p);
  }

  lemma FlagOf(p: Pool)
    requires p.Valid() && !p.closed
    ensures p.Stuck()
  {
  }

  /** The second of two borrowers gets a client that is not connected, though the pool
      has a connected one. */
  method UnconnectedHandOut() returns (p: Pool, c: Client?, err: Option<Error>)
    ensures p.Valid() && !p.closed && p.clients.proper
    ensures err == None && c != null && !c.conn && c in p.clients.cs
    ensures exists x <- p.clients.cs :: x.conn
  {
    hide Pool.Valid, ClosingPanics;
    var pool, panicked;
    ghost var made, k;
    pool, err, panicked, made := NewPool(Sized(1, 2), SECOND, [GOOD_DIAL], [false, false], []);
    p := pool;
    SlotTags(p);
    assert p.clients.cs[0].ref == 0;
    c, err, k := p.Get(SECOND, BAD_DIAL);
    assert k == 0;
    assert p.clients.cs[0].ref == 1 && p.clients.cs[1].ref == 0;
    SlotTags(p);
    c, err, k := p.Get(SECOND, BAD_DIAL);
    assert k == 1;
    assert p.clients.cs[0].conn;
  }

  /** Closing the first of two connected slots reports an error, and the second stays
      open. */
  method CloseLeakExample() returns (p: Pool)
    ensures p.closed && |p.clients.cs| == 2 && p.clients.cs[1].conn
  {
    hide Pool.Valid, ClosingPanics;
    var pool, err, panicked;
    ghost var made, reached;
    pool, err, panicked, made := NewPool(Sized(2, 2), SECOND, [GOOD_DIAL, GOOD_DIAL], [false, false], []);
    p := pool;
    var fails := [true, false];
    SlotCount(p);
    assert p.clients.cs[0].conn && p.clients.cs[1].conn && fails[0];
    panicked, reached := p.Close(fails, SECOND, []);
  }

  /** A factory that returns a connection, an error and no transport client makes NewPool
      panic instead of returning the error. */
  method NewPoolPanics() returns (panicked: bool)
    ensures panicked
  {
    var p, err;
    ghost var made;
    var dials := [HALF_OPEN_DIAL];
    assert dials[0].err.Some? && ClosingPanics(dials, [false]);
    p, err, panicked, made := NewPool(Sized(1, 1), SECOND, dials, [false], []);
  }

  // ---- every run ------------------------------------------------------------------------------

  /** One thing that can happen to an open pool. A Put names a client by its place among
      those that are lent out. Sweeps and reconnections come whole, or step by step with
      anything in between. */
  datatype Op =
    | DoGet(now: int, dial: Dial)
    | DoPut(k: nat, good: bool, fails: bool)
    | DoSweep(now: int)
    | DoSweepSlot(i: nat, now: int, fails: bool)
    | DoInit(now: int, dials: seq<Dial>)
    | DoInitBegin
    | DoInitStep(now: int, dial: Dial)
    | DoRecycling(token: bool, now: int, fails: bool)
  {
    predicate Possible(o: Limits)
    {
      match this
      case DoGet(now, _) => now >= SECOND
      case DoSweepSlot(i, _, _) => o.initCap <= i < o.maxCap
      case DoInit(now, dials) => now >= SECOND && |dials| == o.initCap
      case _ => true
    }

    /** The factory keeps its contract. */
    predicate Proper()
    {
      match this
      case DoGet(_, dial) => dial.Proper()
      case DoInit(_, dials) => forall d <- dials :: d.Proper()
      case DoInitStep(_, dial) => dial.Proper()
      case _ => true
    }
  }

  /** Every client's reference count is the number of times it is lent out. */
  ghost predicate Lending(p: Pool, lent: seq<Client>)
    reads p, p.clients, p.clients.recycle, p.clients.all
  {
    && !p.closed && p.Valid()
    && (forall c <- p.clients.all :: c.ref == multiset(lent)[c])
    && (forall c <- lent :: c in p.clients.all)
  }

  lemma NewNotLent(lent: seq<Client>, known: set<Client>, all: set<Client>)
    requires forall c <- lent :: c in known
    ensures forall c <- all - known :: multiset(lent)[c] == 0
  {
    forall c <- all - known
      ensures multiset(lent)[c] == 0
    {
      assert c !in lent;
    }
  }

  method PutLent(p: Pool, lent: seq<Client>, k: nat, good: bool, fails: bool)
    returns (rest: seq<Client>, panicked: bool)
    requires Lending(p, lent) && k < |lent|
    modifies p`log, p.clients`cs, p.clients`pc2c, p.clients`lastTag, p.clients`all
    modifies p.clients.recycle, p.clients.all`conn, p.clients.all`ref
    ensures Lending(p, rest) && rest == lent[..k] + lent[k + 1..]
    ensures p.clients.recycle == old(p.clients.recycle) && |p.log| == old(|p.log|) + 1
    ensures old(p.clients.all) <= p.clients.all && fresh(p.clients.all - old(p.clients.all))
    ensures panicked == (!good && old(lent[k] in p.clients.all && !lent[k].Closable() && p.Stray(lent[k])))
    ensures panicked ==> !old(p.clients.proper)
  {
    hide Pool.Valid;
    var c := lent[k];
    assert lent == lent[..k] + [c] + lent[k + 1..];
    rest := lent[..k] + lent[k + 1..];
    assert multiset(lent) == multiset(rest) + multiset{c};
    var err;
    err, panicked := p.Put(c, good, fails);
    NewNotLent(rest, old(p.clients.all), p.clients.all);
  }

  /** How many calls of init_clients a run has. */
  function Calls(ops: seq<Op>): nat
  {
    if ops == [] then 0
    else
      var op := ops[|ops| - 1];
      Calls(ops[..|ops| - 1]) + (if op.DoInit? || op.DoInitBegin? then 1 else 0)
  }

  /** Any run, from a new pool on, of Gets, Puts of lent clients, sweeps, reconnections
      and recycling steps in any order and with any factory, as far as it goes: only
      a bad Put of a client with a connection and no transport client ends it early, and
      the factory must have broken its contract for that. The invariant holds at every
      step, every client's reference count is the number of times it is lent out,
      wherever the client is, the recycler's list is bounded, at most one reconnection
      fails, and the flag that stops all later ones is set exactly when one has failed or
      is under way. */
  method Run(c: Config, ops: seq<Op>) returns (p: Pool, lent: seq<Client>, n: nat, panicked: bool)
    requires !Refused(c) && |ops| < MAX_INT64 && forall op <- ops :: op.Possible(Settle(c))
    ensures fresh(p) && !p.closed && p.Valid() && p.clients.o == Settle(c)
    ensures forall c <- p.clients.all :: c.ref == multiset(lent)[c] >= 0
    ensures forall c <- lent :: c in p.clients.all
    ensures n <= |ops| && (panicked <==> n < |ops|) && (panicked ==> ops[n].DoPut? && !ops[n].good)
    ensures (forall op <- ops[..n] :: op.Proper()) ==> p.clients.proper && !panicked
    ensures |p.clients.pc2c| <= Settle(c).maxCap && p.clients.recycle != null
    ensures |p.clients.recycle.li| <= 11 * Settle(c).maxCap + 1 && |p.clients.recycle.li| <= Settle(c).maxCap + 2001
    ensures Begun(p) == Calls(ops[..n])
    ensures p.clients.initting <==> Failed(p.inits) || p.clients.initAt.Some?
    ensures forall i, j :: 0 <= i < j < |p.inits| && p.inits[i].Some? ==> p.inits[j].None?
  {
    hide Pool.Valid, Op.Proper, Settle;
    p := new Pool(c);
    lent, n, panicked := [], 0, false;
    while n < |ops|
      invariant fresh(p) && fresh(p.clients) && fresh(p.clients.all) && p.clients.recycle != null
      invariant fresh(p.clients.recycle) && !panicked
      invariant p.clients.o == Settle(c) && n <= |ops| && |p.log| <= n && Lending(p, lent)
      invariant Begun(p) == Calls(ops[..n])
      invariant (forall op <- ops[..n] :: op.Proper()) ==> p.clients.proper
      decreases |ops| - n
    {
      assert ops[n].Possible(Settle(c));
      assert ops[..n + 1][..n] == ops[..n] && ops[..n + 1] == ops[..n] + [ops[n]];
      lent, panicked := Perform(p, lent, ops[n]);
      if panicked {
        break;
      }
      n := n + 1;
    }
    RunBounds(p);
  }

  lemma RunBounds(p: Pool)
    requires p.Valid() && !p.closed
    ensures p.Stuck() && p.clients.recycle != null && |p.clients.pc2c| <= p.clients.o.maxCap
    ensures |p.clients.recycle.li| <= 11 * p.clients.o.maxCap + 1 && |p.clients.recycle.li| <= p.clients.o.maxCap + 2001
  {
    OpenPoolInvariant(p.clients);
  }

  method PerformInit(p: Pool, now: int, dials: seq<Dial>)
    requires p.Valid() && !p.closed && now >= SECOND && |dials| == p.clients.o.initCap
    modifies p`inits, p.clients`pc2c, p.clients`initting, p.clients`initAt, p.clients`proper
    modifies p.clients.all`client, p.clients.all`conn, p.clients.all`connTM, p.clients.all`reqTM, p.clients.all`err
    ensures p.Valid() && |p.inits| == old(|p.inits|) + 1
    ensures p.clients.initAt.Some? <==> old(p.clients.initAt).Some?
    ensures old(p.clients.proper) && (forall d <- dials :: d.Proper()) ==> p.clients.proper
  {
    hide Pool.Valid, Dial.Proper;
    var err;
    ghost var done;
    err, done := p.Init(now, dials);
  }

  /** One step of a run. */
  method Perform(p: Pool, lent: seq<Client>, op: Op) returns (lent': seq<Client>, panicked: bool)
    requires Lending(p, lent) && op.Possible(p.clients.o) && |p.log| < MAX_INT64
    modifies p, p.clients, p.clients.recycle, p.clients.all
    ensures Lending(p, lent') && p.clients.recycle == old(p.clients.recycle)
    ensures old(p.clients.all) <= p.clients.all && fresh(p.clients.all - old(p.clients.all))
    ensures |p.log| <= old(|p.log|) + 1
    ensures panicked ==> op.DoPut? && !op.good && !old(p.clients.proper)
    ensures old(p.clients.proper) && op.Proper() ==> p.clients.proper
    ensures panicked ==> Begun(p) == old(Begun(p))
    ensures Begun(p) == old(Begun(p)) + if op.DoInit? || op.DoInitBegin? then 1 else 0
  {
    hide Pool.Valid;
    lent', panicked := lent, false;
    match op {
      case DoGet(now, dial) =>
        var c, err;
        ghost var k;
        c, err, k := p.Get(now, dial);
        if c != null {
          lent' := lent + [c];
        }
      case DoPut(k, good, fails) =>
        if k < |lent| {
          lent', panicked := PutLent(p, lent, k, good, fails);
        }
      case _ =>
        PerformBackground(p, lent, op);
    }
  }

  /** The calls of init_clients that have returned, and the one that is under way. */
  ghost function Begun(p: Pool): nat
    reads p`inits, p.clients`initAt
  {
    |p.inits| + if p.clients.initAt.Some? then 1 else 0
  }

  method PerformBackground(p: Pool, ghost lent: seq<Client>, op: Op)
    requires Lending(p, lent) && op.Possible(p.clients.o) && !op.DoGet? && !op.DoPut?
    modifies p`inits, p.clients, p.clients.recycle
    modifies p.clients.all`client, p.clients.all`conn, p.clients.all`connTM, p.clients.all`reqTM, p.clients.all`err
    ensures Lending(p, lent) && p.clients.recycle == old(p.clients.recycle)
    ensures old(p.clients.all) <= p.clients.all && fresh(p.clients.all - old(p.clients.all))
    ensures old(p.clients.proper) && op.Proper() ==> p.clients.proper
    ensures Begun(p) == old(Begun(p)) + if op.DoInit? || op.DoInitBegin? then 1 else 0
  {
    hide Pool.Valid;
    match op {
      case DoSweep(now) =>
        p.Sweep(now);
        NewNotLent(lent, old(p.clients.all), p.clients.all);
      case DoSweepSlot(i, now, fails) =>
        p.SweepSlot(i, now, fails);
        NewNotLent(lent, old(p.clients.all), p.clients.all);
      case DoInit(now, dials) =>
        PerformInit(p, now, dials);
      case DoInitBegin =>
        var entered := p.InitBegin();
      case DoInitStep(now, dial) =>
        if p.clients.initAt.Some? {
          var err := p.InitStep(now, dial);
        }
      case DoRecycling(token, now, fails) =>
        SlotCount(p);
        if !(token && p.clients.recycle.tokens == 0) {
          p.Recycling(token, now, fails);
        }
    }
  }
}
