/** One pooled client: its connection, its reference count and its clocks. Times are
    nanoseconds since the zero time. */
module PoolClient {
  import opened Options

  datatype Error = ErrClosed | ErrInvalid | ErrDial(code: int) | ErrClose

  const SECOND := 1_000_000_000

  /** What the factory returns: a client or nil, a connection or nil, an error or nil. */
  datatype Dial = Dial(client: bool, conn: bool, err: Option<Error>)
  {
    /** The factory's contract: both on success, no connection on failure. */
    predicate Proper()
    {
      if err.None? then client && conn else !conn
    }
  }

  /** The options as the caller gives them. */
  datatype Config = Config(initCap: int, maxCap: int, dial: int, idle: int, read: int, write: int, factory: bool)

  /** The options as the pool uses them. */
  datatype Limits = Limits(initCap: nat, maxCap: nat, idle: int, read: int, write: int)
  {
    predicate Proper()
    {
      1 <= initCap <= maxCap
    }
  }

  /** The capacities NewPool settles on: InitCap at least one, and a MaxCap below it
      replaced by ten times InitCap up to 32, or by InitCap. */
  function Settle(c: Config): (r: Limits)
    ensures r.Proper() && (r.idle, r.read, r.write) == (c.idle, c.read, c.write)
    ensures r.initCap == c.initCap || c.initCap < 1 == r.initCap
    ensures c.maxCap >= r.initCap ==> r.maxCap == c.maxCap
    ensures c.maxCap < r.initCap ==>
              r.maxCap == if r.initCap <= 3 then 10 * r.initCap else if r.initCap <= 32 then 32 else r.initCap
  {
    var initCap := if c.initCap < 1 then 1 else c.initCap;
    var ten := if initCap * 10 < 32 then initCap * 10 else 32;
    var maxCap := if c.maxCap < initCap then (if ten > initCap then ten else initCap) else c.maxCap;
    Limits(initCap, maxCap, c.idle, c.read, c.write)
  }

  /** What validate refuses once the capacities are settled. */
  predicate Refused(c: Config): (r: bool)
    ensures r <==> c.dial == 0 || c.read == 0 || c.write == 0 || !c.factory
  {
    var l := Settle(c);
    || l.initCap <= 0 || l.maxCap <= 0 || l.initCap > l.maxCap
    || c.dial == 0 || c.read == 0 || c.write == 0 || !c.factory
  }

  class Client {
    const tag: nat
    const index: nat
    var client: bool  // the transport client is not nil
    var conn: bool    // the connection is not nil
    var connTM: int
    var reqTM: int
    var ref: int
    var bDestroy: bool
    var err: Option<Error>

    constructor (tag: nat, index: nat)
      ensures this.tag == tag && this.index == index
      ensures !client && !conn && !bDestroy && ref == 0 && err == None
      ensures connTM == 0 && reqTM == 0
    {
      this.tag, this.index := tag, index;
      client, conn, bDestroy, ref, err, connTM, reqTM := false, false, false, 0, None, 0, 0;
    }

    /** Connect goes to the factory. */
    predicate Dials(now: int)
      reads this`conn, this`connTM
    {
      !conn && now - connTM >= SECOND
    }

    /** Connected, or connected by the next Connect. */
    predicate Connects(now: int, dial: Dial)
      reads this`conn, this`connTM
    {
      conn || (Dials(now) && dial.err.None?)
    }

    /** What Connect returns, unless the client is destroyed. */
    ghost function Outcome(now: int, dial: Dial): Option<Error>
      reads this`conn, this`connTM, this`err
    {
      if conn then None else if Dials(now) then dial.err else err
    }

    /** Whether the client has a connection after Connect, unless it is destroyed. */
    predicate ConnAfter(now: int, dial: Dial)
      reads this`conn, this`connTM
    {
      if Dials(now) then dial.conn else conn
    }

    /** Closing does not go through a nil transport client. */
    predicate Closable()
      reads this`conn, this`client
    {
      conn ==> client
    }

    /** No new dial within a second of the last one; a failure then repeats the last
        error. */
    method Connect(now: int, dial: Dial) returns (bNewConn: bool, e: Option<Error>)
      modifies this`client, this`conn, this`connTM, this`reqTM, this`err
      ensures bNewConn == (!old(conn) && !bDestroy && now - old(connTM) >= SECOND && dial.err.None?)
      ensures bDestroy ==> e == Some(ErrClosed)
      ensures !bDestroy && old(conn) ==> e == None
      ensures !bDestroy && !old(conn) ==>
                e == if now - old(connTM) < SECOND then old(err) else dial.err
      ensures if bDestroy || old(conn) || now - old(connTM) < SECOND
              then unchanged(this)
              else client == dial.client && conn == dial.conn && err == dial.err && connTM == now
                   && reqTM == if dial.err.None? then now else old(reqTM)
    {
      if bDestroy {
        return false, Some(ErrClosed);
      }
      if conn {
        return false, None;
      }
      if now - connTM < SECOND {
        return false, err;
      }
      connTM := now;
      client, conn, err := dial.client, dial.conn, dial.err;
      if err.Some? {
        return false, err;
      }
      reqTM := now;
      return true, None;
    }

    method AddRef(delta: int)
      modifies this`ref
      ensures ref == old(ref) + delta
    {
      ref := ref + delta;
    }

    /** `fails` is what closing the transport client reports. A connection without a
        transport client makes the call panic, and nothing is closed. */
    method Close(fails: bool) returns (e: Option<Error>, panicked: bool)
      modifies this`conn
      ensures panicked == !old(Closable())
      ensures conn == panicked && e == if old(conn) && fails && !panicked then Some(ErrClose) else None
    {
      e := None;
      if conn {
        if !client {
          return None, true;
        }
        if fails {
          e := Some(ErrClose);
        }
      }
      conn := false;
      panicked := false;
    }

    method Destroy(fails: bool) returns (e: Option<Error>, panicked: bool)
      modifies this`conn, this`bDestroy
      ensures bDestroy && panicked == !old(Closable())
      ensures conn == panicked && e == if old(conn) && fails && !panicked then Some(ErrClose) else None
    {
      bDestroy := true;
      e, panicked := Close(fails);
    }
  }

  /** A factory that returns a connection with its error leaves a client that counts as
      connected though Connect failed, and that Connect then reports as good. */
  method HalfOpenDial(c: Client, now: int, dial: Dial) returns (e: Option<Error>, again: Option<Error>)
    requires !c.conn && !c.bDestroy && now - c.connTM >= SECOND
    requires dial.err.Some?
    modifies c
    ensures e == dial.err
    ensures again == if dial.conn then None else dial.err
    ensures c.conn <==> !dial.Proper()
  {
    var bNew;
    bNew, e := c.Connect(now, dial);
    bNew, again := c.Connect(now, dial);
  }
}
