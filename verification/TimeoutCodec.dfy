/** The timeout codec: a queue of pending requests kept as a list and a map, read
    deadlines, and timeout responses made up without losing the place in the stream. */
module TimeoutCodec {
  import opened Options
  import opened Sequences
  import opened Words

  const YEAR := 365 * 24 * 3600 * 1_000_000_000
  const MAX_UINT64: int := TWO64 - 1

  // ---- the codec as a state machine -----------------------------------------------------

  datatype Pending = Pending(num: nat, time: int, timedOut: bool)

  /** Where the one reading goroutine stands. */
  datatype Reader =
    | Idle
    | ReadingHeader
    | Synthesised(num: nat)  // a timeout response was made up
    | HaveHeader(num: nat)   // a header was read from the inner codec
    | ReadingBody
    | Failed

  /** What has been read from the inner codec. */
  datatype Inner = InnerHeader | InnerBody

  datatype State = State(
    rt: int,              // the read timeout
    queue: seq<Pending>,
    used: set<nat>,       // every sequence number ever written
    left: seq<nat>,       // those that left the queue, in order
    reader: Reader,
    inner: seq<Inner>,
    clock: int,
    readDeadline: int)

  datatype Event =
    | Write(num: nat, now: int)
    | WriteFailed(num: nat, now: int)
    | HeaderStart(now: int)
    | HeaderDone(num: nat)
    | HeaderError
    | BodyStart(bodyIsNil: bool, now: int)
    | BodyDone(ok: bool)

  ghost function Init(rt: int, clock: int): State
  {
    State(rt, [], {}, [], Idle, [], clock, 0)
  }

  ghost predicate IsPending(q: seq<Pending>, num: nat)
  {
    exists p <- q :: p.num == num
  }

  ghost function RemoveNum(q: seq<Pending>, num: nat): (r: seq<Pending>)
    ensures |r| <= |q| && forall p <- r :: p in q && p.num != num
    ensures forall p <- q :: p.num != num ==> p in r
  {
    if q == [] then []
    else if q[0].num == num then RemoveNum(q[1..], num)
    else [q[0]] + RemoveNum(q[1..], num)
  }

  ghost function Leave(s: State, num: nat): (s': State)
    ensures s' == s.(queue := s'.queue, left := s'.left)
  {
    if IsPending(s.queue, num)
    then s.(queue := RemoveNum(s.queue, num), left := s.left + [num])
    else s
  }

  /** A pending request gets a deadline of the read timeout; with none pending the
      deadline is put off, unless a body is being read. */
  ghost function SetDeadline(s: State, now: int): State
  {
    if s.queue != [] then s.(readDeadline := now + s.rt)
    else if s.reader.ReadingBody? then s
    else s.(readDeadline := now + YEAR)
  }

  /** Only the front of the queue is looked at. */
  ghost predicate FrontOverdue(s: State, now: int)
  {
    s.queue != [] && now - s.queue[0].time > s.rt
  }

  /** What the reader may count on: net/rpc never repeats a sequence number, reads a body
      after every header, and passes a nil body for an error response. */
  ghost predicate Enabled(s: State, e: Event)
  {
    match e
    case Write(num, now) => num !in s.used && now >= s.clock
    case WriteFailed(num, now) => num in s.used && now >= s.clock
    case HeaderStart(now) => s.reader.Idle? && now >= s.clock
    case HeaderDone(_) => s.reader.ReadingHeader?
    case HeaderError => s.reader.ReadingHeader?
    case BodyStart(bodyIsNil, now) =>
      now >= s.clock && (s.reader.HaveHeader? || (s.reader.Synthesised? && bodyIsNil))
    case BodyDone(_) => s.reader.ReadingBody?
  }

  ghost function BodyOf(s: State, bodyIsNil: bool, now: int): State
    requires s.reader.Synthesised? || s.reader.HaveHeader?
  {
    var num := s.reader.num;
    var s' := Leave(s, num).(clock := now);
    if bodyIsNil && exists p <- s.queue :: p.num == num && p.timedOut
    then s'.(reader := Idle)
    else s'.(reader := ReadingBody, inner := s.inner + [InnerBody], readDeadline := now + s.rt)
  }

  ghost function Next(s: State, e: Event): State
    requires Enabled(s, e)
  {
    match e
    case Write(num, now) =>
      SetDeadline(s.(queue := s.queue + [Pending(num, now, false)], used := s.used + {num}, clock := now), now)
    case WriteFailed(num, now) => SetDeadline(Leave(s, num).(clock := now), now)
    case HeaderStart(now) =>
      if FrontOverdue(s, now)
      then s.(queue := s.queue[0 := s.queue[0].(timedOut := true)], reader := Synthesised(s.queue[0].num), clock := now)
      else SetDeadline(s.(reader := ReadingHeader, clock := now), now)
    case HeaderDone(num) => s.(reader := HaveHeader(num), inner := s.inner + [InnerHeader])
    case HeaderError => s.(reader := Failed)
    case BodyStart(bodyIsNil, now) => BodyOf(s, bodyIsNil, now)
    case BodyDone(ok) => s.(reader := if ok then Idle else Failed)
  }

  // ---- the invariant of the queue ---------------------------------------------------------

  ghost predicate DistinctNums(q: seq<Pending>)
  {
    forall i, j :: 0 <= i < j < |q| ==> q[i].num != q[j].num
  }

  ghost predicate ByTime(q: seq<Pending>)
  {
    forall i, j :: 0 <= i < j < |q| ==> q[i].time <= q[j].time
  }

  /** Every request ever written is pending or has left, once and not both; the queue is
      in order of request time; a pending request is marked exactly while its made-up
      response waits for its body; and a pending request keeps a deadline. */
  ghost predicate Inv(s: State)
  {
    && DistinctNums(s.queue) && ByTime(s.queue) && Distinct(s.left)
    && (forall p <- s.queue :: p.num in s.used && p.num !in s.left && p.time <= s.clock)
    && (forall n <- s.left :: n in s.used)
    && (forall n <- s.used :: n in s.left || IsPending(s.queue, n))
    && (forall p <- s.queue :: p.timedOut <==> s.reader == Synthesised(p.num))
    && (s.reader.Synthesised? ==> s.reader.num in s.used)
    && (s.queue != [] || s.reader.ReadingBody? ==> s.readDeadline <= s.clock + s.rt)
  }

  lemma PrependKeepsOrder(p: Pending, q: seq<Pending>)
    requires DistinctNums(q) && ByTime(q)
    requires forall x <- q :: x.num != p.num && p.time <= x.time
    ensures DistinctNums([p] + q) && ByTime([p] + q)
  {
  }

  lemma TailInOrder(q: seq<Pending>)
    requires DistinctNums(q) && ByTime(q) && q != []
    ensures DistinctNums(q[1..]) && ByTime(q[1..])
    ensures forall x <- q[1..] :: x.num != q[0].num && q[0].time <= x.time
  {
  }

  lemma {:induction false} RemoveKeepsOrder(q: seq<Pending>, num: nat)
    requires DistinctNums(q) && ByTime(q)
    ensures DistinctNums(RemoveNum(q, num)) && ByTime(RemoveNum(q, num))
  {
    if q != [] {
      TailInOrder(q);
      hide DistinctNums, ByTime;
      RemoveKeepsOrder(q[1..], num);
      PrependKeepsOrder(q[0], RemoveNum(q[1..], num));
    } else {
      assert RemoveNum(q, num) == q;
    }
  }

  lemma LeaveKeepsInv(s: State, num: nat)
    requires Inv(s)
    ensures var s' := Leave(s, num);
            && DistinctNums(s'.queue) && ByTime(s'.queue) && Distinct(s'.left)
            && (forall p <- s'.queue :: p in s.queue && p.num !in s'.left)
            && (forall n <- s'.left :: n in s.used)
            && (forall n <- s.used :: n in s'.left || IsPending(s'.queue, n))
            && !IsPending(s'.queue, num)
  {
    RemoveKeepsOrder(s.queue, num);
    var s' := Leave(s, num);
    forall n <- s.used
      ensures n in s'.left || IsPending(s'.queue, n)
    {
      if n !in s.left && n != num {
        var p :| p in s.queue && p.num == n;
        assert p in s'.queue;
      } else if n == num && IsPending(s.queue, num) {
        assert s'.left[|s.left|] == num;
      }
    }
  }

  lemma StepKeepsInv(s: State, e: Event)
    requires Inv(s) && Enabled(s, e)
    ensures Inv(Next(s, e))
  {
    match e {
      case Write(num, now) => WriteKeepsInv(s, num, now);
      case WriteFailed(num, now) => LeaveKeepsInv(s, num);
      case HeaderStart(now) => HeaderKeepsInv(s, now);
      case BodyStart(bodyIsNil, now) => BodyKeepsInv(s, bodyIsNil, now);
      case _ =>
    }
  }

  lemma WriteKeepsInv(s: State, num: nat, now: int)
    requires Inv(s) && Enabled(s, Write(num, now))
    ensures Inv(Next(s, Write(num, now)))
  {
    var p := Pending(num, now, false);
    var q := s.queue + [p];
    assert q[|s.queue|] == p;
    forall n <- s.used
      ensures n in s.left || IsPending(q, n)
    {
      if n !in s.left {
        var x :| x in s.queue && x.num == n;
        assert x in q;
      }
    }
  }

  lemma HeaderKeepsInv(s: State, now: int)
    requires Inv(s) && Enabled(s, HeaderStart(now))
    ensures Inv(Next(s, HeaderStart(now)))
  {
    if FrontOverdue(s, now) {
      var q := s.queue[0 := s.queue[0].(timedOut := true)];
      forall n <- s.used
        ensures n in s.left || IsPending(q, n)
      {
        if n !in s.left {
          var i :| 0 <= i < |s.queue| && s.queue[i].num == n;
          assert q[i].num == n;
        }
      }
    }
  }

  lemma BodyKeepsInv(s: State, bodyIsNil: bool, now: int)
    requires Inv(s) && Enabled(s, BodyStart(bodyIsNil, now))
    ensures Inv(Next(s, BodyStart(bodyIsNil, now)))
  {
    LeaveKeepsInv(s, s.reader.num);
  }

  /** Looking only at the front finds an overdue request exactly when there is one, and
      the one found has waited longest. */
  lemma FrontDecides(s: State, now: int)
    requires Inv(s)
    ensures FrontOverdue(s, now) <==> exists p <- s.queue :: now - p.time > s.rt
    ensures s.queue != [] ==> forall p <- s.queue :: s.queue[0].time <= p.time
  {
    if p :| p in s.queue && now - p.time > s.rt {
      assert s.queue[0].time <= p.time;
    }
  }

  /** A body call takes the request of its header out, if it is still pending, and no
      other. */
  lemma BodyTakesOut(s: State, bodyIsNil: bool, now: int)
    requires Inv(s) && Enabled(s, BodyStart(bodyIsNil, now))
    ensures var s' := Next(s, BodyStart(bodyIsNil, now));
            && !IsPending(s'.queue, s.reader.num)
            && (forall p <- s.queue :: p.num != s.reader.num ==> p in s'.queue)
            && s'.left == (if IsPending(s.queue, s.reader.num) then s.left + [s.reader.num] else s.left)
  {
    LeaveKeepsInv(s, s.reader.num);
  }

  // ---- alignment with the stream ------------------------------------------------------------

  /** Each header that was read is followed by exactly one body; the last one may still
      wait for it. */
  ghost predicate Aligned(inner: seq<Inner>)
  {
    forall k :: 0 <= k < |inner| ==> inner[k] == if k % 2 == 0 then InnerHeader else InnerBody
  }

  ghost predicate InPlace(s: State)
  {
    Aligned(s.inner) && (|s.inner| % 2 == 1 <==> s.reader.HaveHeader?)
  }

  /** The made-up response's request has been taken out of the queue by its own failed
      write before the body call. */
  ghost predicate Raced(s: State)
  {
    s.reader.Synthesised? && !IsPending(s.queue, s.reader.num)
  }

  /** One step keeps the place in the stream exactly when it is not the body call of a
      raced response. */
  lemma StepKeepsPlace(s: State, e: Event)
    requires Inv(s) && InPlace(s) && Enabled(s, e)
    ensures !(e.BodyStart? && Raced(s)) ==> InPlace(Next(s, e))
    ensures e.BodyStart? && Raced(s) ==> !Aligned(Next(s, e).inner)
  {
    if e.BodyStart? {
      var num := s.reader.num;
      if s.reader.Synthesised? && IsPending(s.queue, num) {
        var p :| p in s.queue && p.num == num;
        assert p.timedOut;
      } else if Raced(s) {
        assert Next(s, e).inner[|s.inner|] == InnerBody;
      }
    }
  }

  /** A response becomes raced exactly by a failed write of the very request while its
      made-up response waits for the body call. */
  lemma OnlyFailedWritesRace(s: State, e: Event)
    requires Inv(s) && Enabled(s, e) && !Raced(s)
    ensures Raced(Next(s, e)) <==> e.WriteFailed? && s.reader == Synthesised(e.num)
  {
    var s' := Next(s, e);
    if s'.reader.Synthesised? && !(e.WriteFailed? && s.reader == Synthesised(e.num)) {
      var num := s'.reader.num;
      if e.HeaderStart? {
        assert s'.queue[0].num == num;
      } else {
        var p :| p in s.queue && p.num == num;
        assert p in s'.queue;
      }
    }
  }

  // ---- every run ----------------------------------------------------------------------------

  ghost predicate Possible(s: State, es: seq<Event>)
    decreases |es|
  {
    es == [] || (Enabled(s, es[0]) && Possible(Next(s, es[0]), es[1..]))
  }

  ghost function RunFrom(s: State, es: seq<Event>): State
    requires Possible(s, es)
    decreases |es|
  {
    if es == [] then s else RunFrom(Next(s, es[0]), es[1..])
  }

  /** Somewhere in the run a body call is made for a raced response. */
  ghost predicate HasRace(s: State, es: seq<Event>)
    requires Possible(s, es)
    decreases |es|
  {
    es != [] && ((es[0].BodyStart? && Raced(s)) || HasRace(Next(s, es[0]), es[1..]))
  }

  lemma {:induction false} RunInvariant(s: State, es: seq<Event>)
    requires Inv(s) && Possible(s, es)
    ensures Inv(RunFrom(s, es))
    decreases |es|
  {
    if es != [] {
      StepKeepsInv(s, es[0]);
      RunInvariant(Next(s, es[0]), es[1..]);
    }
  }

  lemma {:induction false} LogOnlyGrows(s: State, es: seq<Event>)
    requires Possible(s, es)
    ensures s.inner <= RunFrom(s, es).inner
    decreases |es|
  {
    if es != [] {
      LogOnlyGrows(Next(s, es[0]), es[1..]);
    }
  }

  /** Over every run the stream stays aligned if and only if no body call is made for a
      raced response. */
  lemma {:induction false} RunAligned(s: State, es: seq<Event>)
    requires Inv(s) && InPlace(s) && Possible(s, es)
    ensures Aligned(RunFrom(s, es).inner) <==> !HasRace(s, es)
    ensures !HasRace(s, es) ==> InPlace(RunFrom(s, es))
    decreases |es|
  {
    if es != [] {
      var s' := Next(s, es[0]);
      StepKeepsInv(s, es[0]);
      StepKeepsPlace(s, es[0]);
      if es[0].BodyStart? && Raced(s) {
        LogOnlyGrows(s', es[1..]);
        var k :| 0 <= k < |s'.inner| && s'.inner[k] != if k % 2 == 0 then InnerHeader else InnerBody;
        assert RunFrom(s, es).inner[k] == s'.inner[k];
      } else {
        RunAligned(s', es[1..]);
      }
    }
  }

  /** From a new codec: every request written is pending or left exactly once, and the
      stream is aligned unless a timed-out request's own write failed before its body
      call. */
  lemma EveryRun(rt: int, clock: int, es: seq<Event>)
    requires Possible(Init(rt, clock), es)
    ensures Inv(RunFrom(Init(rt, clock), es))
    ensures Aligned(RunFrom(Init(rt, clock), es).inner) <==> !HasRace(Init(rt, clock), es)
  {
    RunInvariant(Init(rt, clock), es);
    RunAligned(Init(rt, clock), es);
  }

  // ---- the deadline while a header is awaited -------------------------------------------------

  /** While a header is awaited the read deadline lies a year, or with requests pending the
      read timeout, after some time from `since` on. */
  ghost predicate WaitsSince(s: State, since: int)
  {
    s.reader.ReadingHeader? ==>
      since + (if s.queue == [] then YEAR else s.rt) <= s.readDeadline <= s.clock + if s.queue == [] then YEAR else s.rt
  }

  lemma {:induction false} StillWaits(s: State, since: int, es: seq<Event>)
    requires Possible(s, es) && since <= s.clock && WaitsSince(s, since)
    requires forall e <- es :: !e.HeaderStart?
    ensures WaitsSince(RunFrom(s, es), since) && RunFrom(s, es).rt == s.rt
    decreases |es|
  {
    if es != [] {
      StillWaits(Next(s, es[0]), since, es[1..]);
    }
  }

  /** From a header call that asks the inner codec, over any run up to the next one: as
      long as the header is awaited, the read deadline is a year, or with requests pending
      the read timeout, after some time between that call and now. */
  lemma HeaderDeadline(s: State, now: int, es: seq<Event>)
    requires Inv(s) && Enabled(s, HeaderStart(now)) && forall p <- s.queue :: now - p.time <= s.rt
    requires Possible(Next(s, HeaderStart(now)), es) && forall e <- es :: !e.HeaderStart?
    ensures var f := RunFrom(Next(s, HeaderStart(now)), es);
            f.reader.ReadingHeader? ==>
              && (f.queue == [] ==> now + YEAR <= f.readDeadline <= f.clock + YEAR)
              && (f.queue != [] ==> now + s.rt <= f.readDeadline <= f.clock + s.rt)
  {
    FrontDecides(s, now);
    StillWaits(Next(s, HeaderStart(now)), now, es);
  }

  /** The race happens: one request, written at 0, overdue at 2, whose write then fails. */
  lemma RaceExample()
    ensures var s := Init(1, 0);
            var es := [Write(7, 0), HeaderStart(2), WriteFailed(7, 2), BodyStart(true, 2)];
            Possible(s, es) && RunFrom(s, es).inner == [InnerBody]
  {
    var s0 := Init(1, 0);
    var s1 := Next(s0, Write(7, 0));
    assert s1.queue == [Pending(7, 0, false)];
    var s2 := Next(s1, HeaderStart(2));
    assert s2.queue[0].num == 7;
    var s3 := Next(s2, WriteFailed(7, 2));
    assert s3.queue == [] by {
      assert RemoveNum(s2.queue, 7) == [];
    }
    var e3 := [BodyStart(true, 2)];
    var e2 := [WriteFailed(7, 2)] + e3;
    var e1 := [HeaderStart(2)] + e2;
    var e0 := [Write(7, 0)] + e1;
    assert e3[1..] == [] && e2[1..] == e3 && e1[1..] == e2 && e0[1..] == e1;
    assert e0 == [Write(7, 0), HeaderStart(2), WriteFailed(7, 2), BodyStart(true, 2)];
  }

  // ---- the codec itself ------------------------------------------------------------------------

  class Req {
    const num: nat
    const service: string
    const time: int
    var timedOut: bool  // err is ErrTimeout

    constructor (num: nat, service: string, time: int)
      ensures this.num == num && this.service == service && this.time == time && !timedOut
    {
      this.num, this.service, this.time, timedOut := num, service, time, false;
    }
  }

  function WithoutNum(li: seq<Req>, num: nat): (r: seq<Req>)
    ensures |r| <= |li|
    ensures (forall x <- r :: x in li && x.num != num) && (forall x <- li :: x.num != num ==> x in r)
  {
    if li == [] then []
    else if li[0].num == num then WithoutNum(li[1..], num)
    else [li[0]] + WithoutNum(li[1..], num)
  }

  ghost predicate SameList(li: seq<Req>, q: seq<Pending>)
    reads li
  {
    |li| == |q| && forall i :: 0 <= i < |li| ==> q[i] == Pending(li[i].num, li[i].time, li[i].timedOut)
  }

  lemma {:induction false} RemoveLinked(li: seq<Req>, q: seq<Pending>, num: nat)
    requires SameList(li, q)
    ensures SameList(WithoutNum(li, num), RemoveNum(q, num))
  {
    hide SameList;
    SameHeads(li, q);
    if li != [] {
      RemoveLinked(li[1..], q[1..], num);
      SameWithHead(li[0], q[0], WithoutNum(li[1..], num), RemoveNum(q[1..], num));
    }
  }

  lemma SameHeads(li: seq<Req>, q: seq<Pending>)
    requires SameList(li, q)
    ensures |li| == |q|
    ensures li != [] ==> q[0] == Pending(li[0].num, li[0].time, li[0].timedOut) && SameList(li[1..], q[1..])
  {
  }

  lemma SameWithHead(r: Req, p: Pending, li: seq<Req>, q: seq<Pending>)
    requires p == Pending(r.num, r.time, r.timedOut) && SameList(li, q)
    ensures SameList([r] + li, [p] + q)
  {
  }

  ghost predicate MapsList(m: map<nat, Req>, li: seq<Req>)
  {
    && (forall r <- li :: r.num in m && m[r.num] == r)
    && (forall n <- m :: m[n].num == n && m[n] in li)
  }

  lemma SameWithLast(li: seq<Req>, q: seq<Pending>, r: Req)
    requires SameList(li, q)
    ensures SameList(li + [r], q + [Pending(r.num, r.time, r.timedOut)])
  {
  }

  lemma MapWithLast(m: map<nat, Req>, li: seq<Req>, r: Req)
    requires MapsList(m, li) && r.num !in m
    ensures MapsList(m[r.num := r], li + [r])
  {
  }

  lemma Unused(s: State, num: nat)
    requires Inv(s) && num !in s.used
    ensures !IsPending(s.queue, num)
  {
  }

  lemma MapWithout(m: map<nat, Req>, li: seq<Req>, num: nat)
    requires MapsList(m, li)
    ensures MapsList(m - {num}, WithoutNum(li, num))
  {
  }

  class Codec {
    var seq2em: map<nat, Req>
    var liRpcReq: seq<Req>
    var headerSeq: nat
    var isReadingBody: bool
    var readDeadline: int
    var writeDeadline: int
    const readTimeout: int
    const writeTimeout: int
    ghost var s: State

    /** The list is the abstract queue, and the map holds the same requests by number. */
    ghost predicate Linked()
      reads this, liRpcReq
    {
      && SameList(liRpcReq, s.queue)
      && MapsList(seq2em, liRpcReq)
    }

    ghost predicate Valid()
      reads this, liRpcReq
    {
      && Inv(s) && Linked()
      && s.rt == readTimeout && s.readDeadline == readDeadline
      && (isReadingBody <==> s.reader.ReadingBody?)
      && (s.reader.Synthesised? || s.reader.HaveHeader? ==> headerSeq == s.reader.num)
    }

    constructor (readTimeout: int, writeTimeout: int, clock: int)
      ensures Valid() && s == Init(readTimeout, clock)
    {
      this.readTimeout, this.writeTimeout := readTimeout, writeTimeout;
      seq2em, liRpcReq, headerSeq, isReadingBody := map[], [], MAX_UINT64, false;
      readDeadline, writeDeadline := 0, 0;
      s := Init(readTimeout, clock);
    }

    method SetDeadlines(now: int)
      modifies this`readDeadline, this`writeDeadline
      ensures readDeadline == if liRpcReq != [] then now + readTimeout
                              else if isReadingBody then old(readDeadline) else now + YEAR
      ensures writeDeadline == now + if liRpcReq != [] then writeTimeout else YEAR
    {
      if 0 < |liRpcReq| {
        readDeadline := now + readTimeout;
        writeDeadline := now + writeTimeout;
      } else {
        if !isReadingBody {
          readDeadline := now + YEAR;
        }
        writeDeadline := now + YEAR;
      }
    }

    /** The first half of WriteRequest: the request is pushed before it is written. */
    method PushReq(num: nat, service: string, now: int)
      requires Valid() && Enabled(s, Write(num, now))
      modifies this
      ensures Valid() && s == Next(old(s), Write(num, now))
      ensures |liRpcReq| == |old(liRpcReq)| + 1 && liRpcReq[..|old(liRpcReq)|] == old(liRpcReq)
      ensures var r := liRpcReq[|old(liRpcReq)|];
              && fresh(r) && r.num == num && r.service == service && r.time == now && !r.timedOut
              && seq2em == old(seq2em)[num := r]
      ensures readDeadline == now + readTimeout && writeDeadline == now + writeTimeout
      ensures headerSeq == old(headerSeq) && isReadingBody == old(isReadingBody)
    {
      hide Inv, SameList, MapsList, IsPending;
      WriteKeepsInv(s, num, now);
      Unused(s, num);
      PendingInMap(num);
      var rq := new Req(num, service, now);
      SameWithLast(liRpcReq, s.queue, rq);
      MapWithLast(seq2em, liRpcReq, rq);
      liRpcReq := liRpcReq + [rq];
      seq2em := seq2em[num := rq];
      s := Next(s, Write(num, now));
      SetDeadlines(now);
    }

    /** Takes a request out of the list and the map. */
    method RemoveReq(num: nat) returns (rq: Req?)
      requires Linked()
      modifies this`liRpcReq, this`seq2em, this`s
      ensures s == Leave(old(s), num) && Linked()
      ensures if num in old(seq2em) then rq == old(seq2em)[num] else rq == null
      ensures seq2em == old(seq2em) - {num}
      ensures rq != null <==> IsPending(old(s.queue), num)
      ensures forall r <- liRpcReq :: r in old(liRpcReq)
      ensures forall r <- old(liRpcReq) :: r in liRpcReq <==> r.num != num
    {
      hide SameList, MapsList, WithoutNum, RemoveNum, IsPending;
      PendingInMap(num);
      rq := null;
      if num in seq2em {
        rq := seq2em[num];
        RemoveLinked(liRpcReq, s.queue, num);
        MapWithout(seq2em, liRpcReq, num);
        liRpcReq := WithoutNum(liRpcReq, num);
        seq2em := seq2em - {num};
      }
      s := Leave(s, num);
    }

    lemma PendingInMap(num: nat)
      requires Linked()
      ensures IsPending(s.queue, num) <==> num in seq2em
      ensures num !in seq2em ==> forall r <- liRpcReq :: r.num != num
    {
      if num in seq2em {
        var i :| 0 <= i < |liRpcReq| && liRpcReq[i] == seq2em[num];
        assert s.queue[i].num == num;
      }
    }

    /** The second half of WriteRequest when the inner codec could not write. */
    method FailWrite(num: nat, now: int)
      requires Valid() && Enabled(s, WriteFailed(num, now))
      modifies this
      ensures Valid() && s == Next(old(s), WriteFailed(num, now))
      ensures (forall r <- liRpcReq :: r in old(liRpcReq)) && seq2em == old(seq2em) - {num}
      ensures forall r <- old(liRpcReq) :: r in liRpcReq <==> r.num != num
      ensures readDeadline == if liRpcReq != [] then now + readTimeout
                              else if isReadingBody then old(readDeadline) else now + YEAR
      ensures writeDeadline == now + if liRpcReq != [] then writeTimeout else YEAR
      ensures headerSeq == old(headerSeq) && isReadingBody == old(isReadingBody)
    {
      hide Inv, Leave, MapsList, WithoutNum;
      StepKeepsInv(s, WriteFailed(num, now));
      ghost var s' := Next(s, WriteFailed(num, now));
      var _ := RemoveReq(num);
      SetDeadlines(now);
      s := s';
    }

    /** The first half of ReadResponseHeader: a response is made up for the request at
        the front if it is overdue, else the inner codec is asked. */
    method StartHeader(now: int) returns (madeUp: Req?)
      requires Valid() && Enabled(s, HeaderStart(now))
      modifies this, liRpcReq
      ensures Valid() && s == Next(old(s), HeaderStart(now)) && liRpcReq == old(liRpcReq)
      ensures madeUp != null <==> exists p <- old(s.queue) :: now - p.time > readTimeout
      ensures madeUp != null ==> madeUp in liRpcReq && s.reader == Synthesised(madeUp.num)
      ensures madeUp != null ==> forall r <- liRpcReq :: madeUp.time <= r.time
      ensures madeUp != null ==> madeUp.timedOut && headerSeq == madeUp.num
      ensures madeUp != null ==> readDeadline == old(readDeadline) && writeDeadline == old(writeDeadline)
      ensures madeUp == null ==> headerSeq == old(headerSeq)
      ensures madeUp == null ==> readDeadline == now + if liRpcReq != [] then readTimeout else YEAR
      ensures madeUp == null ==> writeDeadline == now + if liRpcReq != [] then writeTimeout else YEAR
      ensures forall r <- liRpcReq :: r != madeUp ==> r.timedOut == old(r.timedOut)
      ensures seq2em == old(seq2em) && isReadingBody == old(isReadingBody)
    {
      hide Inv, MapsList;
      FrontDecides(s, now);
      HeaderKeepsInv(s, now);
      ListByTime();
      ghost var s' := Next(s, HeaderStart(now));
      madeUp := null;
      if |liRpcReq| != 0 && now - liRpcReq[0].time > readTimeout {
        madeUp := liRpcReq[0];
        madeUp.timedOut := true;
        headerSeq := madeUp.num;
      } else {
        SetDeadlines(now);
      }
      s := s';
    }

    lemma ListByTime()
      requires Valid()
      ensures liRpcReq != [] ==> forall r <- liRpcReq :: liRpcReq[0].time <= r.time
      ensures forall i, j :: 0 <= i < j < |liRpcReq| ==> liRpcReq[i] != liRpcReq[j]
    {
      forall r <- liRpcReq
        ensures liRpcReq[0].time <= r.time
      {
        var i :| 0 <= i < |liRpcReq| && liRpcReq[i] == r;
        assert s.queue[0].time <= s.queue[i].time;
      }
      forall i, j | 0 <= i < j < |liRpcReq|
        ensures liRpcReq[i] != liRpcReq[j]
      {
        assert s.queue[i].num != s.queue[j].num;
      }
    }

    /** The second half: the inner codec read a header, or failed. */
    method FinishHeader(header: Option<nat>)
      requires Valid() && s.reader.ReadingHeader?
      modifies this`headerSeq, this`s
      ensures Valid()
      ensures s == Next(old(s), if header.Some? then HeaderDone(header.value) else HeaderError)
      ensures headerSeq == if header.Some? then header.value else old(headerSeq)
    {
      if header.Some? {
        headerSeq := header.value;
        s := Next(s, HeaderDone(header.value));
      } else {
        s := Next(s, HeaderError);
      }
    }

    /** ReadResponseBody up to the inner read: the request is taken out, and the body of a
        made-up response is not read. */
    method StartBody(bodyIsNil: bool, now: int) returns (readsInner: bool)
      requires Valid() && Enabled(s, BodyStart(bodyIsNil, now))
      modifies this
      ensures Valid() && s == Next(old(s), BodyStart(bodyIsNil, now))
      ensures readsInner <==> s.reader.ReadingBody?
      ensures readsInner <==> !(bodyIsNil && headerSeq in old(seq2em) && old(seq2em)[headerSeq].timedOut)
      ensures (forall r <- liRpcReq :: r in old(liRpcReq)) && seq2em == old(seq2em) - {headerSeq}
      ensures forall r <- old(liRpcReq) :: r in liRpcReq <==> r.num != headerSeq
      ensures readDeadline == if readsInner then now + readTimeout else old(readDeadline)
      ensures isReadingBody == readsInner && headerSeq == old(headerSeq) && writeDeadline == old(writeDeadline)
    {
      hide Inv, Leave, MapsList, SameList, IsPending;
      BodyKeepsInv(s, bodyIsNil, now);
      MarkedIsPending(headerSeq);
      ghost var s' := Next(s, BodyStart(bodyIsNil, now));
      var rq := RemoveReq(headerSeq);
      if rq != null && bodyIsNil && rq.timedOut {
        readsInner := false;
      } else {
        isReadingBody := true;
        readDeadline := now + readTimeout;
        readsInner := true;
      }
      s := s';
    }

    lemma MarkedIsPending(num: nat)
      requires Inv(s) && Linked()
      ensures (exists p <- s.queue :: p.num == num && p.timedOut) <==> num in seq2em && seq2em[num].timedOut
    {
      if num in seq2em {
        var i :| 0 <= i < |liRpcReq| && liRpcReq[i] == seq2em[num];
        assert s.queue[i] == Pending(num, seq2em[num].time, seq2em[num].timedOut);
      }
    }

    method FinishBody(ok: bool)
      requires Valid() && s.reader.ReadingBody?
      modifies this`isReadingBody, this`s
      ensures Valid() && s == Next(old(s), BodyDone(ok)) && !isReadingBody
    {
      isReadingBody := false;
      s := Next(s, BodyDone(ok));
    }
  }
}
