/** The endpoint cache: snapshots of instances are reconciled with live endpoints, and
    after an error the endpoints stay good until a deadline. */
module EndpointCache {
  import opened Options
  import opened Ordering
  import opened Sequences

  type Error = int

  /** What the factory returns for one instance: an error, or an endpoint that may have
      a closer. */
  datatype Made = Failed | Made(hasCloser: bool)

  class Endpoint {
    const instance: string
    const hasCloser: bool
    ghost var closings: nat

    constructor (instance: string, hasCloser: bool)
      ensures this.instance == instance && this.hasCloser == hasCloser && closings == 0
    {
      this.instance, this.hasCloser, closings := instance, hasCloser, 0;
    }

    method Close()
      modifies this`closings
      ensures closings == old(closings) + 1
    {
      closings := closings + 1;
    }
  }

  // ---- where every endpoint ever created is -------------------------------------------------

  ghost predicate Owned(m: map<string, Endpoint>, e: Endpoint)
  {
    e.instance in m && m[e.instance] == e
  }

  ghost predicate OwnsCreated(m: map<string, Endpoint>, created: set<Endpoint>)
  {
    forall k <- m :: m[k] in created && m[k].instance == k
  }

  /** Every endpoint is in exactly one of the two maps, the removed and the leaked. */
  ghost predicate Split(created: set<Endpoint>, a: map<string, Endpoint>, b: map<string, Endpoint>,
                        removed: set<Endpoint>, leaked: set<Endpoint>)
  {
    && OwnsCreated(a, created) && OwnsCreated(b, created) && a.Keys !! b.Keys
    && removed <= created && leaked <= created && removed !! leaked
    && (forall e <- removed :: !Owned(a, e) && !Owned(b, e))
    && (forall e <- leaked :: !Owned(a, e) && !Owned(b, e))
    && (forall e <- created :: Owned(a, e) || Owned(b, e) || e in removed || e in leaked)
  }

  lemma SplitSwap(created: set<Endpoint>, b: map<string, Endpoint>, removed: set<Endpoint>, leaked: set<Endpoint>)
    requires Split(created, b, map[], removed, leaked)
    ensures Split(created, map[], b, removed, leaked)
  {
  }

  lemma OwnedLess(m: map<string, Endpoint>, k: string)
    requires k in m && m[k].instance == k
    ensures forall e: Endpoint :: Owned(m, e) <==> e == m[k] || Owned(m - {k}, e)
  {
  }

  lemma OwnedNone()
    ensures forall e: Endpoint :: !Owned(map[], e)
  {
  }

  lemma SplitMember(created: set<Endpoint>, a: map<string, Endpoint>, b: map<string, Endpoint>,
                    removed: set<Endpoint>, leaked: set<Endpoint>, k: string)
    requires Split(created, a, b, removed, leaked) && k in b
    ensures b[k] in created && b[k].instance == k
  {
  }

  lemma SplitCopy(created: set<Endpoint>, a: map<string, Endpoint>, b: map<string, Endpoint>,
                  removed: set<Endpoint>, leaked: set<Endpoint>, k: string)
    requires Split(created, a, b, removed, leaked) && k in b
    ensures Split(created, a[k := b[k]], b - {k}, removed, leaked)
  {
  }

  lemma SplitNew(created: set<Endpoint>, a: map<string, Endpoint>, b: map<string, Endpoint>,
                 removed: set<Endpoint>, leaked: set<Endpoint>, e: Endpoint)
    requires Split(created, a, b, removed, leaked) && e !in created && e.instance !in b
    ensures var k := e.instance;
            && Split(created + {e}, a[k := e], b, removed, if k in a then leaked + {a[k]} else leaked)
            && (k in a ==> a[k] !in leaked)
  {
  }

  lemma SplitRemove(created: set<Endpoint>, a: map<string, Endpoint>, b: map<string, Endpoint>,
                    removed: set<Endpoint>, leaked: set<Endpoint>, k: string)
    requires Split(created, a, b, removed, leaked) && k in b
    ensures Split(created, a, b - {k}, removed + {b[k]}, leaked)
    ensures b[k] !in removed && b[k] !in leaked
  {
  }

  // ---- what a snapshot asks for ------------------------------------------------------------------

  /** After the first `n` instances, an endpoint for `k` has been carried over or made. */
  ghost predicate Obtained(xs: seq<string>, made: seq<Made>, keys: set<string>, n: nat, k: string)
    requires n <= |xs| == |made|
  {
    exists j :: 0 <= j < n && xs[j] == k && (k in keys || made[j].Made?)
  }

  /** The i-th instance repeats one that has an endpoint by then, and the factory makes
      another, which takes the place of the first. */
  ghost predicate Overwrites(xs: seq<string>, made: seq<Made>, keys: set<string>, i: nat)
    requires i < |xs| == |made|
  {
    made[i].Made? && Obtained(xs, made, keys, i, xs[i])
  }

  ghost predicate NoOverwrites(xs: seq<string>, made: seq<Made>, keys: set<string>, n: nat)
    requires n <= |xs| == |made|
  {
    forall i :: 0 <= i < n ==> !Overwrites(xs, made, keys, i)
  }

  /** A snapshot without repeats overwrites nothing; when the factory never fails, that is
      the only kind of snapshot that does not. */
  lemma RepeatsOverwrite(xs: seq<string>, made: seq<Made>, keys: set<string>)
    requires |xs| == |made|
    ensures Distinct(xs) ==> NoOverwrites(xs, made, keys, |xs|)
    ensures (forall m <- made :: m.Made?) ==> (NoOverwrites(xs, made, keys, |xs|) <==> Distinct(xs))
  {
    if forall m <- made :: m.Made? {
      if i, j :| 0 <= i < j < |xs| && xs[i] == xs[j] {
        assert made[i].Made? && made[j].Made?;
        assert Overwrites(xs, made, keys, j);
      }
    }
  }

  lemma ObtainedOnce(xs: seq<string>, made: seq<Made>, keys: set<string>)
    requires |xs| == |made| && Distinct(xs)
    ensures forall j :: 0 <= j < |xs| ==>
              (Obtained(xs, made, keys, |xs|, xs[j]) <==> xs[j] in keys || made[j].Made?)
  {
  }

  lemma ObtainedNext(xs: seq<string>, made: seq<Made>, keys: set<string>, n: nat)
    requires n < |xs| == |made|
    ensures forall k :: Obtained(xs, made, keys, n + 1, k) <==>
              Obtained(xs, made, keys, n, k) || (k == xs[n] && (k in keys || made[n].Made?))
    ensures NoOverwrites(xs, made, keys, n + 1) <==> NoOverwrites(xs, made, keys, n) && !Overwrites(xs, made, keys, n)
    ensures forall k :: k in xs[..n] && k in keys ==> Obtained(xs, made, keys, n, k)
    ensures forall k :: Obtained(xs, made, keys, n, k) ==> k in xs[..n]
    ensures xs[..n + 1] == xs[..n] + [xs[n]]
  {
    forall k | Obtained(xs, made, keys, n, k)
      ensures k in xs[..n]
    {
      var j :| 0 <= j < n && xs[j] == k && (k in keys || made[j].Made?);
      assert xs[..n][j] == k;
    }
  }

  /** Every new endpoint is what the factory returned for one of the first `n` instances. */
  ghost predicate FromFactory(xs: seq<string>, made: seq<Made>, n: nat, known: set<Endpoint>, created: set<Endpoint>)
    requires n <= |xs| == |made|
  {
    forall e <- created :: e in known || exists j :: 0 <= j < n && xs[j] == e.instance && made[j] == Made(e.hasCloser)
  }

  lemma FromFactoryNext(xs: seq<string>, made: seq<Made>, n: nat, known: set<Endpoint>, created: set<Endpoint>,
                        e: Endpoint)
    requires n < |xs| == |made| && FromFactory(xs, made, n, known, created)
    ensures FromFactory(xs, made, n + 1, known, created)
    ensures xs[n] == e.instance && made[n] == Made(e.hasCloser) ==> FromFactory(xs, made, n + 1, known, created + {e})
  {
  }

  /** How far the building of the new map has come after `n` instances: which keys each
      map has, what was leaked, and which endpoints are the old ones. */
  ghost predicate Built(xs: seq<string>, made: seq<Made>, was: map<string, Endpoint>, known: set<Endpoint>, n: nat,
                        next: map<string, Endpoint>, rest: map<string, Endpoint>,
                        leaked0: set<Endpoint>, leaked: set<Endpoint>)
    requires n <= |xs| == |made|
  {
    && (forall k :: k in rest <==> k in was && k !in xs[..n])
    && (forall k <- rest :: rest[k] == was[k])
    && (forall k :: k in next <==> Obtained(xs, made, was.Keys, n, k))
    && leaked0 <= leaked
    && (leaked == leaked0 <==> NoOverwrites(xs, made, was.Keys, n))
    && (NoOverwrites(xs, made, was.Keys, n) ==>
          forall k <- next :: if k in was then next[k] == was[k] else next[k] !in known)
  }

  lemma RestIsVanished(was: map<string, Endpoint>, rest: map<string, Endpoint>, xs: seq<string>)
    requires forall k :: k in rest <==> k in was && k !in xs[..|xs|]
    requires forall k <- rest :: rest[k] == was[k]
    ensures forall e: Endpoint :: Owned(rest, e) <==> Owned(was, e) && e.instance !in xs
  {
    assert xs[..|xs|] == xs;
  }

  lemma BuiltNothing(xs: seq<string>, made: seq<Made>, was: map<string, Endpoint>, known: set<Endpoint>,
                     leaked: set<Endpoint>)
    requires |xs| == |made|
    ensures Built(xs, made, was, known, 0, map[], was, leaked, leaked)
  {
  }

  lemma BuiltCopy(xs: seq<string>, made: seq<Made>, was: map<string, Endpoint>, known: set<Endpoint>, n: nat,
                  next: map<string, Endpoint>, rest: map<string, Endpoint>,
                  leaked0: set<Endpoint>, leaked: set<Endpoint>)
    requires n < |xs| == |made| && Built(xs, made, was, known, n, next, rest, leaked0, leaked) && xs[n] in rest
    ensures Built(xs, made, was, known, n + 1, next[xs[n] := rest[xs[n]]], rest - {xs[n]}, leaked0, leaked)
  {
    hide Obtained, NoOverwrites;
    ObtainedNext(xs, made, was.Keys, n);
  }

  lemma BuiltFailed(xs: seq<string>, made: seq<Made>, was: map<string, Endpoint>, known: set<Endpoint>, n: nat,
                    next: map<string, Endpoint>, rest: map<string, Endpoint>,
                    leaked0: set<Endpoint>, leaked: set<Endpoint>)
    requires n < |xs| == |made| && Built(xs, made, was, known, n, next, rest, leaked0, leaked)
    requires xs[n] !in rest && made[n].Failed?
    ensures Built(xs, made, was, known, n + 1, next, rest, leaked0, leaked)
  {
    hide Obtained, NoOverwrites;
    ObtainedNext(xs, made, was.Keys, n);
  }

  lemma BuiltMade(xs: seq<string>, made: seq<Made>, was: map<string, Endpoint>, known: set<Endpoint>, n: nat,
                  next: map<string, Endpoint>, rest: map<string, Endpoint>,
                  leaked0: set<Endpoint>, leaked: set<Endpoint>, e: Endpoint)
    requires n < |xs| == |made| && Built(xs, made, was, known, n, next, rest, leaked0, leaked)
    requires xs[n] !in rest && made[n].Made? && e !in known && (xs[n] in next ==> next[xs[n]] !in leaked)
    ensures Built(xs, made, was, known, n + 1, next[xs[n] := e], rest, leaked0,
                  if xs[n] in next then leaked + {next[xs[n]]} else leaked)
  {
    hide Obtained, NoOverwrites;
    ObtainedNext(xs, made, was.Keys, n);
  }

  /** The endpoints of the instances that have one, in the order of the instances. */
  ghost function Published(xs: seq<string>, m: map<string, Endpoint>): (r: seq<Endpoint>)
  {
    if xs == [] then []
    else
      var x := xs[|xs| - 1];
      Published(xs[..|xs| - 1], m) + (if x in m then [m[x]] else [])
  }

  ghost function Names(es: seq<Endpoint>): (r: seq<string>)
    ensures |r| == |es| && forall i :: 0 <= i < |es| ==> r[i] == es[i].instance
  {
    seq(|es|, i requires 0 <= i < |es| => es[i].instance)
  }

  /** The instances of the list that are in the set, in order. */
  ghost function Present(xs: seq<string>, keys: set<string>): seq<string>
  {
    if xs == [] then []
    else
      var x := xs[|xs| - 1];
      Present(xs[..|xs| - 1], keys) + (if x in keys then [x] else [])
  }

  lemma {:induction false} PublishedNames(xs: seq<string>, m: map<string, Endpoint>)
    requires forall k <- m :: m[k].instance == k
    ensures Names(Published(xs, m)) == Present(xs, m.Keys)
  {
    if xs != [] {
      PublishedNames(xs[..|xs| - 1], m);
    }
  }

  lemma {:induction false} PublishedMembers(xs: seq<string>, m: map<string, Endpoint>)
    ensures forall e <- Published(xs, m) :: exists x <- xs :: x in m && m[x] == e
    ensures forall x <- xs :: x in m ==> m[x] in Published(xs, m)
  {
    if xs != [] {
      var t := xs[..|xs| - 1];
      PublishedMembers(t, m);
      assert xs == t + [xs[|xs| - 1]];
    }
  }

  /** From a sorted snapshot without repeats the published list names its instances in
      strictly increasing order. */
  lemma {:induction false} PublishedInOrder(xs: seq<string>, m: map<string, Endpoint>)
    requires StrictlyIncreasing(xs) && forall k <- m :: m[k].instance == k
    ensures StrictlyIncreasing(Names(Published(xs, m)))
  {
    if xs != [] {
      var t, x := xs[..|xs| - 1], xs[|xs| - 1];
      PublishedInOrder(t, m);
      PublishedMembers(t, m);
      var p := Published(t, m);
      if x in m {
        forall i | 0 <= i < |p|
          ensures Leq(p[i].instance, x) && p[i].instance != x
        {
          assert p[i] in p;
          var y :| y in t && y in m && m[y] == p[i];
          var j :| 0 <= j < |t| && t[j] == y;
          assert xs[j] == y && xs[|xs| - 1] == x;
        }
      }
    }
  }

  // ---- the history of updates ---------------------------------------------------------------------

  /** A good snapshot and what was published for it, or an error and its time. */
  datatype Entry<T> = Good(published: seq<T>) | Bad(error: Error, at: int)

  datatype Fault = Fault(error: Error, at: int)

  ghost function LastGood<T>(h: seq<Entry<T>>): seq<T>
  {
    if h == [] then []
    else if h[|h| - 1].Good? then h[|h| - 1].published
    else LastGood(h[..|h| - 1])
  }

  /** The first error since the last good snapshot. */
  ghost function FirstError<T>(h: seq<Entry<T>>): Option<Fault>
  {
    if h == [] || h[|h| - 1].Good? then None
    else
      var before := FirstError(h[..|h| - 1]);
      if before.Some? then before else Some(Fault(h[|h| - 1].error, h[|h| - 1].at))
  }

  /** Which error that is: one with only errors after it and a good snapshot, or nothing,
      just before it. */
  lemma {:induction false} FirstErrorMeans<T>(h: seq<Entry<T>>, i: nat)
    requires i <= |h| && (forall j :: i <= j < |h| ==> h[j].Bad?) && (i == 0 || h[i - 1].Good?)
    ensures FirstError(h) == if i == |h| then None else Some(Fault(h[i].error, h[i].at))
    ensures LastGood(h) == if i == 0 then [] else h[i - 1].published
    decreases |h|
  {
    if i < |h| {
      var t := h[..|h| - 1];
      if i < |h| - 1 {
        FirstErrorMeans(t, i);
      } else if i > 0 {
        assert t[|t| - 1] == h[i - 1];
      }
    }
  }

  /** What callers are promised at time `now`: the last good endpoints, until the first
      error since then is older than the timeout; from then on that error. */
  ghost function Promised<T>(h: seq<Entry<T>>, invalidate: bool, timeout: int, now: int): (seq<T>, Option<Error>)
  {
    var e := FirstError(h);
    if !invalidate || e.None? || now < e.value.at + timeout then (LastGood(h), None)
    else ([], Some(e.value.error))
  }

  /** What that is, for a history in which the last good snapshot is just before `i`. */
  lemma PromisedMeans<T>(h: seq<Entry<T>>, i: nat, invalidate: bool, timeout: int, now: int)
    requires i <= |h| && (forall j :: i <= j < |h| ==> h[j].Bad?) && (i == 0 || h[i - 1].Good?)
    ensures var (eps, err) := Promised(h, invalidate, timeout, now);
            if invalidate && i < |h| && now - h[i].at >= timeout
            then eps == [] && err == Some(h[i].error)
            else eps == (if i == 0 then [] else h[i - 1].published) && err == None
  {
    FirstErrorMeans(h, i);
  }

  /** The history with instances for endpoints. */
  ghost function Named(h: seq<Entry<Endpoint>>): (r: seq<Entry<string>>)
    ensures |r| == |h|
  {
    if h == [] then []
    else
      var e := h[|h| - 1];
      Named(h[..|h| - 1]) + [if e.Good? then Good(Names(e.published)) else Bad(e.error, e.at)]
  }

  lemma {:induction false} NamedPromise(h: seq<Entry<Endpoint>>)
    ensures LastGood(Named(h)) == Names(LastGood(h)) && FirstError(Named(h)) == FirstError(h)
  {
    if h != [] {
      NamedPromise(h[..|h| - 1]);
      assert Named(h)[..|h| - 1] == Named(h[..|h| - 1]);
    }
  }

  lemma NamedNext(h: seq<Entry<Endpoint>>, e: Entry<Endpoint>)
    ensures Named(h + [e]) == Named(h) + [if e.Good? then Good(Names(e.published)) else Bad(e.error, e.at)]
  {
    assert (h + [e])[..|h|] == h;
  }

  class Cache {
    const invalidateOnError: bool
    const invalidateTimeout: int
    var cache: map<string, Endpoint>
    var endpoints: seq<Endpoint>
    var err: Option<Error>
    var invalidateDeadline: int
    ghost var created: set<Endpoint>
    ghost var removed: set<Endpoint>
    ghost var leaked: set<Endpoint>
    ghost var history: seq<Entry<Endpoint>>
    ghost var clock: int

    /** An endpoint with a closer has been closed once if it was removed, and never
        otherwise. */
    ghost predicate ClosedWhenRemoved()
      reads this`created, this`removed, created`closings
    {
      forall e <- created :: e.closings == if e in removed && e.hasCloser then 1 else 0
    }

    ghost predicate Accounted()
      reads this`cache, this`created, this`removed, this`leaked, created`closings
    {
      Split(created, cache, map[], removed, leaked) && ClosedWhenRemoved()
    }

    /** The error state follows the history; once the deadline has passed the endpoints
        may have been given up. */
    ghost predicate Follows()
      reads this
    {
      var first := FirstError(history);
      && err == (if invalidateOnError && first.Some? then Some(first.value.error) else None)
      && (err.Some? ==> invalidateDeadline == first.value.at + invalidateTimeout)
      && (endpoints == LastGood(history) || (err.Some? && endpoints == [] && invalidateDeadline <= clock))
    }

    ghost predicate Valid()
      reads this, created`closings
    {
      Accounted() && Follows()
    }

    constructor (invalidateOnError: bool, invalidateTimeout: int, clock: int)
      ensures Valid() && history == [] && cache == map[] && created == {} && leaked == {} && this.clock == clock
      ensures this.invalidateOnError == invalidateOnError && this.invalidateTimeout == invalidateTimeout
    {
      this.invalidateOnError, this.invalidateTimeout := invalidateOnError, invalidateTimeout;
      cache, endpoints, err, invalidateDeadline := map[], [], None, 0;
      created, removed, leaked, history, this.clock := {}, {}, {}, [], clock;
    }

    /** The first loop: endpoints are carried over from the old map, which loses them, or
        made. What is left in the old map has disappeared from the snapshot. */
    method Build(xs: seq<string>, made: seq<Made>) returns (next: map<string, Endpoint>)
      requires |xs| == |made| && Accounted()
      modifies this`cache, this`created, this`leaked
      ensures Split(created, next, cache, removed, leaked)
      ensures ClosedWhenRemoved() && old(created) <= created && fresh(created - old(created))
      ensures Built(xs, made, old(cache), old(created), |xs|, next, cache, old(leaked), leaked)
      ensures FromFactory(xs, made, |xs|, old(created), created)
    {
      hide Split, Built;
      ghost var was, known, leaked0 := cache, created, leaked;
      next := map[];
      SplitSwap(created, cache, removed, leaked);
      BuiltNothing(xs, made, was, known, leaked);
      for i := 0 to |xs|
        invariant Split(created, next, cache, removed, leaked)
        invariant ClosedWhenRemoved() && old(created) <= created && fresh(created - old(created))
        invariant Built(xs, made, was, known, i, next, cache, leaked0, leaked)
        invariant FromFactory(xs, made, i, known, created)
      {
        var x := xs[i];
        if x in cache {
          SplitCopy(created, next, cache, removed, leaked, x);
          BuiltCopy(xs, made, was, known, i, next, cache, leaked0, leaked);
          next := next[x := cache[x]];
          cache := cache - {x};
        } else if made[i].Made? {
          next := MakeOne(x, made[i].hasCloser, next, xs, made, was, known, i, leaked0);
        } else {
          BuiltFailed(xs, made, was, known, i, next, cache, leaked0, leaked);
        }
      }
    }

    /** A new endpoint takes the key; an endpoint that had it is lost without a close. */
    method MakeOne(x: string, hasCloser: bool, next: map<string, Endpoint>, ghost xs: seq<string>,
                   ghost made: seq<Made>, ghost was: map<string, Endpoint>, ghost known: set<Endpoint>,
                   ghost i: nat, ghost leaked0: set<Endpoint>)
      returns (next': map<string, Endpoint>)
      requires Split(created, next, cache, removed, leaked) && ClosedWhenRemoved()
      requires i < |xs| == |made| && x == xs[i] && x !in cache && made[i] == Made(hasCloser)
      requires FromFactory(xs, made, i, known, created)
      requires Built(xs, made, was, known, i, next, cache, leaked0, leaked) && known <= created
      modifies this`created, this`leaked
      ensures Split(created, next', cache, removed, leaked) && ClosedWhenRemoved()
      ensures old(created) <= created && fresh(created - old(created))
      ensures Built(xs, made, was, known, i + 1, next', cache, leaked0, leaked)
      ensures FromFactory(xs, made, i + 1, known, created)
    {
      hide Built, FromFactory;
      var e := new Endpoint(x, hasCloser);
      FromFactoryNext(xs, made, i, known, created, e);
      SplitNew(created, next, cache, removed, leaked, e);
      BuiltMade(xs, made, was, known, i, next, cache, leaked0, leaked, e);
      created := created + {e};
      if x in next {
        leaked := leaked + {next[x]};
      }
      next' := next[x := e];
    }

    /** The second loop: what is left of the old map is closed, in any order. */
    method CloseLeftovers(ghost next: map<string, Endpoint>)
      requires Split(created, next, cache, removed, leaked) && ClosedWhenRemoved()
      modifies this`removed, created`closings
      ensures Split(created, next, map[], removed, leaked) && ClosedWhenRemoved()
      ensures forall e <- created :: e in removed <==> e in old(removed) || Owned(cache, e)
    {
      hide Split, Owned, ClosedWhenRemoved;
      var rest := cache;
      assert rest.Keys <= cache.Keys;
      while rest != map[]
        invariant Split(created, next, rest, removed, leaked) && ClosedWhenRemoved()
        invariant forall k <- rest :: k in cache && rest[k] == cache[k]
        invariant forall e <- created :: e in removed || Owned(rest, e) <==> e in old(removed) || Owned(cache, e)
        decreases |rest|
      {
        var k :| k in rest;
        var sc := rest[k];
        SplitRemove(created, next, rest, removed, leaked, k);
        SplitMember(created, next, rest, removed, leaked, k);
        OwnedLess(rest, k);
        RemoveOne(sc);
        rest := rest - {k};
      }
      OwnedNone();
    }

    method RemoveOne(sc: Endpoint)
      requires ClosedWhenRemoved() && sc in created && sc !in removed
      modifies this`removed, sc`closings
      ensures ClosedWhenRemoved() && removed == old(removed) + {sc}
    {
      if sc.hasCloser {
        sc.Close();
      }
      removed := removed + {sc};
    }

    /** The third loop: the published list. */
    method Publish(xs: seq<string>, m: map<string, Endpoint>) returns (r: seq<Endpoint>)
      ensures r == Published(xs, m)
    {
      r := [];
      for i := 0 to |xs|
        invariant r == Published(xs[..i], m)
      {
        assert xs[..i + 1][..i] == xs[..i];
        if xs[i] in m {
          r := r + [m[xs[i]]];
        }
      }
      assert xs[..|xs|] == xs;
    }

    /** Reconciles the endpoints with a snapshot. */
    method UpdateCache(instances: seq<string>, made: seq<Made>)
      requires |instances| == |made| && Accounted()
      modifies this`cache, this`endpoints, this`created, this`removed, this`leaked, created`closings
      ensures Accounted() && old(created) <= created && fresh(created - old(created))
      ensures Reconciled(Sort(instances), made, old(cache), old(created), old(removed), old(leaked))
      ensures FromFactory(Sort(instances), made, |instances|, old(created), created)
    {
      hide Split, Owned, NoOverwrites, Obtained, Published, Sort, ClosedWhenRemoved, FromFactory;
      var xs := Sort(instances);
      ghost var was := cache;
      var next := Build(xs, made);
      RestIsVanished(was, cache, xs);
      CloseLeftovers(next);
      endpoints := Publish(xs, next);
      cache := next;
    }

    /** What reconciling does: which instances have an endpoint, which endpoints are the
        old ones, which were removed, what was leaked, and what is published. */
    ghost predicate Reconciled(xs: seq<string>, made: seq<Made>, was: map<string, Endpoint>, known: set<Endpoint>,
                               removed0: set<Endpoint>, leaked0: set<Endpoint>)
      reads this`cache, this`endpoints, this`created, this`removed, this`leaked
      requires |xs| == |made|
    {
      var keys := was.Keys;
      && (forall k :: k in cache <==> Obtained(xs, made, keys, |xs|, k))
      && leaked0 <= leaked
      && (leaked == leaked0 <==> NoOverwrites(xs, made, keys, |xs|))
      && (NoOverwrites(xs, made, keys, |xs|) ==>
            forall k <- cache :: if k in was then cache[k] == was[k] else cache[k] !in known)
      && (forall e <- created :: e in removed <==> e in removed0 || (Owned(was, e) && e.instance !in xs))
      && endpoints == Published(xs, cache)
    }

    /** A good snapshot is reconciled and ends any error; an error matters only with
        invalidation on, and only the first since the last good snapshot. */
    method UpdateGood(instances: seq<string>, made: seq<Made>)
      requires Valid() && |instances| == |made|
      modifies this`cache, this`endpoints, this`created, this`removed, this`leaked, this`err, this`history
      modifies created`closings
      ensures Valid() && old(created) <= created && fresh(created - old(created))
      ensures Reconciled(Sort(instances), made, old(cache), old(created), old(removed), old(leaked))
      ensures FromFactory(Sort(instances), made, |instances|, old(created), created)
      ensures history == old(history) + [Good(endpoints)] && clock == old(clock) && err == None
    {
      hide Accounted, Reconciled, FromFactory;
      UpdateCache(instances, made);
      err := None;
      history := history + [Good(endpoints)];
    }

    method UpdateError(error: Error, now: int)
      requires Valid() && now >= clock
      modifies this`err, this`invalidateDeadline, this`history, this`clock
      ensures Valid() && history == old(history) + [Bad(error, now)] && clock == now
      ensures if invalidateOnError && old(err).None?
              then err == Some(error) && invalidateDeadline == now + invalidateTimeout
              else err == old(err) && invalidateDeadline == old(invalidateDeadline)
    {
      hide Accounted;
      ErrorAdds(history, error, now);
      history := history + [Bad(error, now)];
      clock := now;
      if !invalidateOnError {
        return;
      }
      if err.Some? {
        return;
      }
      err := Some(error);
      invalidateDeadline := now + invalidateTimeout;
    }

    /** Yields what the history promises; past the deadline every endpoint is removed. */
    method Endpoints(now: int) returns (eps: seq<Endpoint>, e: Option<Error>)
      requires Valid() && now >= clock
      modifies this`cache, this`endpoints, this`created, this`removed, this`leaked, this`clock, created`closings
      ensures Valid() && clock == now && history == old(history)
      ensures old(created) <= created && fresh(created - old(created))
      ensures (eps, e) == Promised(history, invalidateOnError, invalidateTimeout, now)
      ensures e == if now < invalidateDeadline then None else old(err)
      ensures eps == if e.None? then old(endpoints) else []
      ensures if e.Some?
              then cache == map[] && leaked == old(leaked)
                   && forall x <- created :: x in removed <==>
                        x in old(removed) || (x.instance in old(cache) && old(cache)[x.instance] == x)
              else cache == old(cache) && removed == old(removed) && leaked == old(leaked)
    {
      hide Split, Reconciled, LastGood, FirstError;
      clock := now;
      if err.None? || now < invalidateDeadline {
        return endpoints, None;
      }
      ghost var was, known, removed0, leaked0 := cache, created, removed, leaked;
      UpdateCache([], []);
      NothingKept(was, known, removed0, leaked0);
      return [], err;
    }

    lemma NothingKept(was: map<string, Endpoint>, known: set<Endpoint>, removed0: set<Endpoint>, leaked0: set<Endpoint>)
      requires Reconciled([], [], was, known, removed0, leaked0)
      ensures cache == map[] && leaked == leaked0 && endpoints == []
      ensures forall x <- created :: x in removed <==> x in removed0 || Owned(was, x)
    {
    }
  }

  /** What a snapshot without repeats does: nothing is leaked, the instances that were
      known or could be made have endpoints, survivors are the same objects, exactly the
      vanished ones are removed, and the list names the cached endpoints in strictly
      increasing order. */
  lemma SnapshotWithoutRepeats(c: Cache, instances: seq<string>, made: seq<Made>, was: map<string, Endpoint>,
                               known: set<Endpoint>, removed0: set<Endpoint>, leaked0: set<Endpoint>)
    requires |instances| == |made| && Distinct(instances)
    requires c.Accounted() && c.Reconciled(Sort(instances), made, was, known, removed0, leaked0)
    ensures c.leaked == leaked0
    ensures forall k <- instances :: k in was ==> k in c.cache && c.cache[k] == was[k]
    ensures forall j :: 0 <= j < |instances| ==>
              (Sort(instances)[j] in c.cache <==> Sort(instances)[j] in was || made[j].Made?)
    ensures forall k <- c.cache :: k in instances && (k !in was ==> c.cache[k] !in known)
    ensures forall e <- c.created :: e in c.removed <==> e in removed0 || (Owned(was, e) && e.instance !in instances)
    ensures StrictlyIncreasing(Names(c.endpoints))
    ensures forall e <- c.endpoints :: Owned(c.cache, e)
    ensures forall k <- c.cache :: c.cache[k] in c.endpoints
  {
    hide Split, Sort, Sorted, Distinct, StrictlyIncreasing, NoOverwrites, Published, Owned;
    var xs := Sort(instances);
    SortedSnapshot(instances);
    RepeatsOverwrite(xs, made, was.Keys);
    ObtainedOnce(xs, made, was.Keys);
    CacheKeys(c);
    forall k <- instances | k in was
      ensures Obtained(xs, made, was.Keys, |xs|, k)
    {
      assert k in xs;
    }
    forall k <- c.cache
      ensures k in xs
    {
      assert Obtained(xs, made, was.Keys, |xs|, k);
    }
    PublishedInOrder(xs, c.cache);
    PublishedMembers(xs, c.cache);
    OwnedByKey(c.cache);
  }

  lemma SortedSnapshot(instances: seq<string>)
    requires Distinct(instances)
    ensures Distinct(Sort(instances)) && StrictlyIncreasing(Sort(instances))
  {
    hide Sort;
    SortSorts(instances);
    SameRepeats(Sort(instances), instances);
  }

  lemma CacheKeys(c: Cache)
    requires c.Accounted()
    ensures forall k <- c.cache :: c.cache[k].instance == k
  {
  }

  lemma OwnedByKey(m: map<string, Endpoint>)
    requires forall k <- m :: m[k].instance == k
    ensures forall k <- m :: Owned(m, m[k])
  {
  }

  /** A repeated instance leaks: of the two endpoints made for "a" one is in no map and
      open, and as `leaked` and `removed` never meet it stays so; the other is published
      twice. */
  method RepeatLeaks() returns (c: Cache, ghost lost: Endpoint)
    ensures c.Valid() && lost in c.leaked && lost.instance == "a" && lost.hasCloser
    ensures !Owned(c.cache, lost) && lost !in c.removed && lost.closings == 0
    ensures "a" in c.cache && c.endpoints == [c.cache["a"], c.cache["a"]]
  {
    hide Cache.Follows, Cache.Accounted, NoOverwrites, Obtained, Owned, Sort, Published;
    c := new Cache(true, 0, 0);
    assert c.cache.Keys == {};
    NamedTwice();
    c.UpdateGood(["a", "a"], [Made(true), Made(true)]);
    PublishedTwice(c.cache);
    lost :| lost in c.leaked;
    LeakedIsLost(c, lost);
  }

  lemma NamedTwice()
    ensures var xs, made := ["a", "a"], [Made(true), Made(true)];
            Sort(xs) == xs && Obtained(xs, made, {}, 2, "a") && !NoOverwrites(xs, made, {}, 2)
  {
    var xs, made := ["a", "a"], [Made(true), Made(true)];
    assert xs[0] == xs[1] == "a" && made[0].Made?;
    assert Overwrites(xs, made, {}, 1);
  }

  lemma PublishedTwice(m: map<string, Endpoint>)
    requires "a" in m
    ensures Published(["a", "a"], m) == [m["a"], m["a"]]
  {
    var two, one := ["a", "a"], ["a"];
    assert two[..1] == one && one[..0] == [];
    assert Published(one, m) == [m["a"]];
  }

  lemma LeakedIsLost(c: Cache, e: Endpoint)
    requires c.Accounted() && e in c.leaked
    ensures e in c.created && !Owned(c.cache, e) && e !in c.removed && e.closings == 0
  {
  }

  // ---- every run ----------------------------------------------------------------------------------

  datatype Event =
    | Snapshot(instances: seq<string>, made: seq<Made>)
    | Failure(error: Error, now: int)
    | Ask(now: int)

  /** The clock of a run never goes back, and the factory answers for every instance. */
  ghost predicate Possible(es: seq<Event>, clock: int)
    decreases |es|
  {
    es == [] ||
    match es[0]
    case Snapshot(instances, made) => |instances| == |made| && Possible(es[1..], clock)
    case Failure(_, now) => now >= clock && Possible(es[1..], now)
    case Ask(now) => now >= clock && Possible(es[1..], now)
  }

  ghost predicate WithoutRepeats(e: Event)
  {
    e.Snapshot? ==> Distinct(e.instances)
  }

  /** The run as a story of names alone: what has been published and which errors came,
      and which instances have an endpoint. */
  datatype Story = Story(entries: seq<Entry<string>>, instances: set<string>)

  ghost function Next(s: Story, e: Event, invalidate: bool, timeout: int): Story
    requires e.Snapshot? ==> |e.instances| == |e.made|
  {
    match e
    case Snapshot(instances, made) =>
      var xs := Sort(instances);
      var now := set k | k in xs && Obtained(xs, made, s.instances, |xs|, k);
      Story(s.entries + [Good(Present(xs, now))], now)
    case Failure(error, now) =>
      s.(entries := s.entries + [Bad(error, now)])
    case Ask(now) =>
      if Promised(s.entries, invalidate, timeout, now).1.Some? then s.(instances := {}) else s
  }

  ghost function Tell(es: seq<Event>, invalidate: bool, timeout: int): Story
    requires forall e <- es :: e.Snapshot? ==> |e.instances| == |e.made|
  {
    if es == [] then Story([], {})
    else Next(Tell(es[..|es| - 1], invalidate, timeout), es[|es| - 1], invalidate, timeout)
  }

  ghost predicate Tells(c: Cache, s: Story)
    reads c`history, c`cache
  {
    Named(c.history) == s.entries && c.cache.Keys == s.instances
  }

  datatype Answer = Silence | Answer(endpoints: seq<Endpoint>, err: Option<Error>)

  /** The answer to an event that a story makes callers expect. */
  ghost predicate Expected(a: Answer, s: Story, e: Event, invalidate: bool, timeout: int)
  {
    if e.Ask? then
      a.Answer? && (Names(a.endpoints), a.err) == Promised(s.entries, invalidate, timeout, e.now)
    else a.Silence?
  }

  lemma TellNext(c: Cache, s: Story, e: Event, was: seq<Entry<Endpoint>>, had: map<string, Endpoint>,
                 known: set<Endpoint>, removed0: set<Endpoint>, leaked0: set<Endpoint>)
    requires e.Snapshot? && |e.instances| == |e.made|
    requires Named(was) == s.entries && had.Keys == s.instances
    requires c.Accounted() && c.history == was + [Good(c.endpoints)]
    requires c.Reconciled(Sort(e.instances), e.made, had, known, removed0, leaked0)
    ensures Tells(c, Next(s, e, c.invalidateOnError, c.invalidateTimeout))
  {
    hide Split, Sort, NoOverwrites, Owned;
    var xs := Sort(e.instances);
    forall k | Obtained(xs, e.made, had.Keys, |xs|, k)
      ensures k in xs
    {
    }
    var next := Next(s, e, c.invalidateOnError, c.invalidateTimeout);
    assert c.cache.Keys == next.instances;
    NamedNext(was, Good(c.endpoints));
    CacheKeys(c);
    PublishedNames(xs, c.cache);
  }

  /** One event of a run: the cache goes on telling the story, and answers as it says. */
  method Perform(c: Cache, e: Event, ghost s: Story) returns (a: Answer)
    requires c.Valid() && Tells(c, s)
    requires if e.Snapshot? then |e.instances| == |e.made| else e.now >= c.clock
    modifies c, c.created`closings
    ensures c.Valid() && c.clock == if e.Snapshot? then old(c.clock) else e.now
    ensures old(c.created) <= c.created && fresh(c.created - old(c.created))
    ensures Tells(c, Next(s, e, c.invalidateOnError, c.invalidateTimeout))
    ensures Expected(a, s, e, c.invalidateOnError, c.invalidateTimeout)
    ensures WithoutRepeats(e) ==> c.leaked == old(c.leaked)
  {
    hide Cache.Follows, Cache.Reconciled, Sort, Split, FromFactory, Obtained, Present, FirstError, LastGood;
    a := Silence;
    match e {
      case Snapshot(instances, made) =>
        c.UpdateGood(instances, made);
        TellNext(c, s, e, old(c.history), old(c.cache), old(c.created), old(c.removed), old(c.leaked));
        if WithoutRepeats(e) {
          SnapshotWithoutRepeats(c, instances, made, old(c.cache), old(c.created), old(c.removed), old(c.leaked));
        }
      case Failure(error, now) =>
        NamedNext(c.history, Bad(error, now));
        c.UpdateError(error, now);
      case Ask(now) =>
        NamedPromise(c.history);
        var eps, err := c.Endpoints(now);
        a := Answer(eps, err);
    }
  }

  /** Any run keeps the cache valid, and every answer in it names what the story of the
      events before it promises. Without repeated instances every endpoint ever created is
      in the cache and open, or was removed and, if it has a closer, closed once. */
  method Run(es: seq<Event>, invalidate: bool, timeout: int, clock: int) returns (c: Cache, answers: seq<Answer>)
    requires Possible(es, clock)
    ensures c.Valid() && |answers| == |es|
    ensures forall e <- es :: e.Snapshot? ==> |e.instances| == |e.made|
    ensures forall i :: 0 <= i < |es| ==>
              Expected(answers[i], Tell(es[..i], invalidate, timeout), es[i], invalidate, timeout)
    ensures (forall e <- es :: WithoutRepeats(e)) ==> c.leaked == {}
    ensures (forall e <- es :: WithoutRepeats(e)) ==>
              forall e <- c.created ::
                if Owned(c.cache, e) then e.closings == 0 && e !in c.removed
                else e in c.removed && e.closings == if e.hasCloser then 1 else 0
  {
    hide Cache.Valid, Cache.Accounted, Next, Expected, WithoutRepeats, Possible, Tell, Tells;
    PossibleMade(es, clock);
    c := new Cache(invalidate, timeout, clock);
    answers := [];
    Untold(c, invalidate, timeout);
    assert es[0..] == es && es[..0] == [];
    for i := 0 to |es|
      invariant fresh(c) && fresh(c.created) && c.Valid() && Possible(es[i..], c.clock)
      invariant c.invalidateOnError == invalidate && c.invalidateTimeout == timeout
      invariant |answers| == i && Tells(c, Tell(es[..i], invalidate, timeout))
      invariant forall j :: 0 <= j < i ==>
                  Expected(answers[j], Tell(es[..j], invalidate, timeout), es[j], invalidate, timeout)
      invariant (forall e <- es[..i] :: WithoutRepeats(e)) ==> c.leaked == {}
    {
      PossibleNext(es, i, c.clock);
      TellOneMore(es, i, invalidate, timeout);
      var a := Perform(c, es[i], Tell(es[..i], invalidate, timeout));
      answers := answers + [a];
    }
    assert es[..|es|] == es;
    if forall e <- es :: WithoutRepeats(e) {
      AllPlaced(c);
    }
  }

  lemma Untold(c: Cache, invalidate: bool, timeout: int)
    requires c.history == [] && c.cache == map[]
    ensures Tells(c, Tell([], invalidate, timeout))
  {
  }

  lemma TellOneMore(es: seq<Event>, i: nat, invalidate: bool, timeout: int)
    requires i < |es| && forall e <- es :: e.Snapshot? ==> |e.instances| == |e.made|
    ensures Tell(es[..i + 1], invalidate, timeout)
            == Next(Tell(es[..i], invalidate, timeout), es[i], invalidate, timeout)
    ensures es[..i + 1] == es[..i] + [es[i]]
  {
    assert es[..i + 1][..i] == es[..i];
  }

  lemma PossibleNext(es: seq<Event>, i: nat, clock: int)
    requires i < |es| && Possible(es[i..], clock)
    ensures if es[i].Snapshot? then Possible(es[i + 1..], clock) && |es[i].instances| == |es[i].made|
            else es[i].now >= clock && Possible(es[i + 1..], es[i].now)
  {
    assert es[i..][1..] == es[i + 1..];
  }

  lemma {:induction false} PossibleMade(es: seq<Event>, clock: int)
    requires Possible(es, clock)
    ensures forall e <- es :: e.Snapshot? ==> |e.instances| == |e.made|
    decreases |es|
  {
    if es != [] {
      PossibleMade(es[1..], if es[0].Snapshot? then clock else es[0].now);
      assert es == [es[0]] + es[1..];
    }
  }

  lemma AllPlaced(c: Cache)
    requires c.Valid() && c.leaked == {}
    ensures forall e <- c.created ::
              if Owned(c.cache, e) then e.closings == 0 && e !in c.removed
              else e in c.removed && e.closings == if e.hasCloser then 1 else 0
  {
  }

  lemma ErrorAdds<T>(h: seq<Entry<T>>, error: Error, at: int)
    ensures LastGood(h + [Bad(error, at)]) == LastGood(h)
    ensures FirstError(h + [Bad(error, at)]) == if FirstError(h).Some? then FirstError(h) else Some(Fault(error, at))
  {
    assert (h + [Bad(error, at)])[..|h|] == h;
  }
}
