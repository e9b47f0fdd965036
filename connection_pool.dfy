/** internal::ConnectionPool: idle HTTP connections kept per (host, port)
    in a deque. Get takes the most recently returned one, Put returns one
    to the back, and when a deque grows past the per-host maximum Put
    queues a single Cleanup on the event loop, which trims every deque
    from the front. */
module Pool {

  import opened Basics
  import opened Urls
  import opened LibEvent

  /** HostPortPair */
  datatype HostPort = HostPort(host: string, port: nat)

  /** ConnectionPool::Connection: an evhtp connection, known by its handle,
      and the (host, port) it leads to. */
  datatype Connection = Connection(handle: nat, otherEnd: HostPort)

  type Table = map<HostPort, seq<Connection>>

  /** The default of --url_fetcher_max_conn_per_host_port. */
  const DefaultMaxConnPerHostPort := 4

  /** The port Get uses when the URL names none. */
  const DefaultHttpPort := 80

  /** The key Get looks up for a URL. */
  function KeyOf(url: Url): (k: HostPort)
    ensures k.host == url.host
    ensures url.port != 0 ==> k.port == url.port
    ensures url.port == 0 ==> k.port == DefaultHttpPort
  {
    HostPort(url.host, if url.port != 0 then url.port else DefaultHttpPort)
  }

  /** The deque for a key; a key the map lacks reads as an empty deque. */
  function Entry(conns: Table, k: HostPort): seq<Connection>
  {
    if k in conns then conns[k] else []
  }

  /** What Get does to the table and returns, given the connection a cache
      miss would open. */
  function Take(conns: Table, k: HostPort, newConn: Connection): (r: (Connection, Table))
    ensures Entry(conns, k) == [] ==> r == (newConn, conns)
    ensures Entry(conns, k) != [] ==> Entry(conns, k) == Entry(r.1, k) + [r.0]
    ensures forall k' :: k' != k ==> Entry(r.1, k') == Entry(conns, k')
    ensures r.1.Keys == conns.Keys
  {
    var e := Entry(conns, k);
    if e == [] then (newConn, conns) else (e[|e| - 1], conns[k := e[..|e| - 1]])
  }

  /** What Put does to the table: the connection goes to the back of its
      key's deque. */
  function Return(conns: Table, c: Connection): (r: Table)
    ensures Entry(r, c.otherEnd) == Entry(conns, c.otherEnd) + [c]
    ensures forall k :: k != c.otherEnd ==> Entry(r, k) == Entry(conns, k)
    ensures r.Keys == conns.Keys + {c.otherEnd}
  {
    conns[c.otherEnd := Entry(conns, c.otherEnd) + [c]]
  }

  /** The last `max` elements of a deque, in their order (all of it when
      it is no longer than that). */
  function Newest(s: seq<Connection>, max: nat): (r: seq<Connection>)
    ensures |r| == if |s| <= max then |s| else max
    ensures r == s[|s| - |r|..]
  {
    if |s| <= max then s else s[|s| - max..]
  }

  /** What Cleanup does to the table. */
  function Trimmed(conns: Table, max: nat): (r: Table)
    ensures r.Keys == conns.Keys
    ensures forall k :: k in r ==> r[k] == Newest(conns[k], max)
  {
    map k | k in conns :: Newest(conns[k], max)
  }

  /** LIFO: a Get right after a Put on the same key hands back the
      connection just returned, and leaves every deque as it was before
      the Put. */
  lemma GetAfterPut(conns: Table, c: Connection, newConn: Connection)
    ensures Take(Return(conns, c), c.otherEnd, newConn).0 == c
    ensures forall k :: Entry(Take(Return(conns, c), c.otherEnd, newConn).1, k) == Entry(conns, k)
  {
    var r := Take(Return(conns, c), c.otherEnd, newConn);
    assert Entry(Return(conns, c), c.otherEnd) == Entry(r.1, c.otherEnd) + [r.0];
  }

  /** Putting back what Get took restores the table, except that a miss
      leaves the opened connection in its key's deque. The deque for `k`
      holds connections to `k` only, as the pool keeps it. */
  lemma PutAfterGet(conns: Table, k: HostPort, newConn: Connection)
    requires newConn.otherEnd == k
    requires forall i :: 0 <= i < |Entry(conns, k)| ==> Entry(conns, k)[i].otherEnd == k
    ensures Take(conns, k, newConn).0.otherEnd == k
    ensures var (c, t) := Take(conns, k, newConn);
      Entry(conns, k) != [] ==> forall k' :: Entry(Return(t, c), k') == Entry(conns, k')
    ensures var (c, t) := Take(conns, k, newConn);
      Entry(conns, k) == [] ==> c == newConn && Entry(Return(t, c), k) == [newConn]
  {
    var e := Entry(conns, k);
    if e != [] {
      assert Take(conns, k, newConn).0 == e[|e| - 1];
    }
  }

  /** After a Cleanup no deque is longer than the maximum, a deque within
      it is untouched, and trimming again changes nothing. */
  lemma TrimmedBounded(conns: Table, max: nat)
    ensures forall k :: |Entry(Trimmed(conns, max), k)| <= max
    ensures forall k :: k in conns && |conns[k]| <= max ==> Trimmed(conns, max)[k] == conns[k]
    ensures Trimmed(Trimmed(conns, max), max) == Trimmed(conns, max)
  {
  }

  class ConnectionPool {
    const base: Base
    /** --url_fetcher_max_conn_per_host_port */
    const maxConns: int
    /** The closure id of this pool's Cleanup on the Base's queue. */
    const cleanupClosure: Closure
    /** conns_ */
    var conns: Table
    /** cleanup_scheduled_: a Cleanup has been queued and has not run. */
    var cleanupScheduled: bool

    /** Each deque holds connections to its own key only; while no Cleanup
        is pending, no deque is over the maximum. */
    ghost predicate Valid()
      reads this, base
    {
      base.Valid()
      && (forall k, i :: k in conns && 0 <= i < |conns[k]| ==> conns[k][i].otherEnd == k)
      && (cleanupScheduled ==> maxConns >= 0)
      && (!cleanupScheduled ==> forall k :: k in conns ==> |conns[k]| <= maxConns)
    }

    constructor (base: Base, maxConns: int, cleanupClosure: Closure)
      requires base.Valid()
      ensures Valid() && this.base == base && this.maxConns == maxConns
      ensures this.cleanupClosure == cleanupClosure
      ensures conns == map[] && !cleanupScheduled
    {
      this.base, this.maxConns, this.cleanupClosure := base, maxConns, cleanupClosure;
      conns := map[];
      cleanupScheduled := false;
    }

    /** ConnectionPool::Get: the newest idle connection for the URL's
        (host, port), or a new one when there is none. */
    method Get(url: Url) returns (c: Connection)
      requires Valid() && url.protocol == "http"
      modifies this, base
      ensures Valid()
      ensures (c, conns) == Take(old(conns), KeyOf(url), Connection(old(base.connectionsMade), KeyOf(url)))
      ensures c.otherEnd == KeyOf(url)
      ensures base.connectionsMade == old(base.connectionsMade) + (if Entry(old(conns), KeyOf(url)) == [] then 1 else 0)
      ensures base.closures == old(base.closures) && base.ran == old(base.ran)
      ensures old(base.dns) != null ==> base.dns == old(base.dns)
      ensures cleanupScheduled == old(cleanupScheduled)
    {
      var key := HostPort(url.host, if url.port != 0 then url.port else DefaultHttpPort);
      if key !in conns || conns[key] == [] {
        var handle := base.HttpConnectionNew(key.host, key.port);
        return Connection(handle, key);
      }
      var entry := conns[key];
      c := entry[|entry| - 1];
      conns := conns[key := entry[..|entry| - 1]];
      assert forall k :: k in conns ==> |conns[k]| <= |old(conns)[k]|;
      assert c in Entry(old(conns), key);
    }

    /** ConnectionPool::Put: a null connection is ignored; otherwise it goes
        to the back of its deque, and a Cleanup is queued if none is and the
        deque is now over the maximum. */
    method Put(conn: Option<Connection>)
      requires Valid() && (conn.Some? ==> maxConns >= 0)
      modifies this, base
      ensures Valid()
      ensures conn.None? ==> conns == old(conns) && cleanupScheduled == old(cleanupScheduled)
                             && base.closures == old(base.closures)
      ensures conn.Some? ==> conns == Return(old(conns), conn.value)
      ensures var schedules := conn.Some? && !old(cleanupScheduled)
                               && |Entry(old(conns), conn.value.otherEnd)| + 1 > maxConns;
        cleanupScheduled == (old(cleanupScheduled) || schedules)
        && base.closures == old(base.closures) + (if schedules then [cleanupClosure] else [])
      ensures base.connectionsMade == old(base.connectionsMade) && base.dns == old(base.dns)
      ensures base.ran == old(base.ran)
    {
      if conn.None? {
        return;
      }
      var c := conn.value;
      var key := c.otherEnd;
      var entry := if key in conns then conns[key] else [];
      entry := entry + [c];
      conns := conns[key := entry];
      if !cleanupScheduled && |entry| > maxConns {
        cleanupScheduled := true;
        base.Add(cleanupClosure);
      }
    }

    /** ConnectionPool::Cleanup, run as the closure Put queued: clears the
        flag, then drops connections from the front of every deque until
        it is within the maximum. */
    method Cleanup()
      requires Valid() && cleanupScheduled
      modifies this
      ensures Valid() && !cleanupScheduled
      ensures maxConns >= 0 && conns == Trimmed(old(conns), maxConns)
    {
      cleanupScheduled := false;
      var max: nat := maxConns;
      var todo := conns.Keys;
      while todo != {}
        invariant todo <= conns.Keys && conns.Keys == old(conns).Keys
        invariant forall k :: k in todo ==> conns[k] == old(conns)[k]
        invariant forall k :: k in conns && k !in todo ==> conns[k] == Newest(old(conns)[k], max)
        invariant !cleanupScheduled
        decreases todo
      {
        var key :| key in todo;
        var entry := DropOldest(conns[key], max);
        conns := conns[key := entry];
        todo := todo - {key};
      }
    }
  }

  /** The inner loop of Cleanup: pop connections off the front of a deque
      until at most `max` are left. */
  method DropOldest(s: seq<Connection>, max: nat) returns (r: seq<Connection>)
    ensures r == Newest(s, max)
  {
    r := s;
    while |r| > max
      invariant |r| >= max || r == s
      invariant r == s[|s| - |r|..]
    {
      r := r[1..];
    }
  }
}
