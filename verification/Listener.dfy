/** The TCP servers: a parent takes connections while it has room and, in two of the three
    servers, while the address's rate allows; it forks a child for each, and the child tries
    the configured peers on what it reads. */
module Listener {
  import opened Bytes
  import opened Replay
  import opened Handshake
  import RL = RateLimit

  /** The peer that was authenticated, and the answer to it. */
  datatype Accepted = Accepted(peer: nat, answer: Answer)

  /** Peers i and on, each on the next message of the stream: a failed attempt has consumed
      its message, and a rest that is too short for one fails them all. */
  function TryFrom(c: Suite, sk: bytes, peers: seq<bytes>, i: nat, stream: bytes, hs: seq<Chance>, fifo: seq<Entry>): Option<Accepted>
    requires Digests(c) && i <= |peers| == |hs| && |fifo| == SLOTS
    decreases |peers| - i
  {
    if i == |peers| || |stream| < HS_LEN then None
    else
      var w := stream[..HS_LEN];
      match Serve(Tcp, c, sk, peers[i], w, hs[i], fifo)
      case Some(a) => Some(Accepted(i, a))
      case None =>
        TryFrom(c, sk, peers, i + 1, stream[HS_LEN..], hs,
                CacheAfter(fifo, Open(Tcp, w, ServerInitKey(c, sk, peers[i], w)), hs[i].now, Eph(w)))
  }

  /** The loop over the configured peers, in a process with its own replay cache. */
  method TryHandshake(p: TcpPeer, c: Suite, sk: bytes, peers: seq<bytes>, stream: bytes, hs: seq<Chance>)
    returns (r: Option<Accepted>)
    requires Digests(c) && |peers| == |hs| && p.cache.Valid()
    modifies p.cache, p.cache.slots
    ensures p.cache.Valid() && r == TryFrom(c, sk, peers, 0, stream, hs, old(p.cache.Fifo()))
  {
    hide Serve, Open, CacheAfter;
    ghost var goal := TryFrom(c, sk, peers, 0, stream, hs, p.cache.Fifo());
    var i, left := 0, stream;
    while i < |peers|
      invariant i <= |peers| && p.cache.Valid()
      invariant TryFrom(c, sk, peers, i, left, hs, p.cache.Fifo()) == goal
    {
      var answer, rest := p.ServerHandshake(c, sk, peers[i], left, hs[i]);
      if answer.Some? {
        return Some(Accepted(i, answer.value));
      }
      i, left := i + 1, rest;
    }
    r := None;
  }

  /** A connection: where it comes from and when the parent takes it, whether forking works,
      what arrives on it, and what each attempt on it meets. */
  datatype Connection = Connection(ip: string, time: int, forks: bool, stream: bytes, hs: seq<Chance>)

  /** The outcome of a connection for a child forked from a parent with this cache. */
  function Child(c: Suite, sk: bytes, peers: seq<bytes>, conn: Connection, parent: seq<Entry>): Option<Accepted>
    requires Digests(c) && |conn.hs| == |peers| && |parent| == SLOTS
  {
    TryFrom(c, sk, peers, 0, conn.stream, conn.hs, parent)
  }

  // ---- The accept loop ----

  /** What stays fixed: keys, peers, the connection limit, and whether the server checks
      rates, which the TUN server does not. */
  datatype Setup = Setup(suite: Suite, sk: bytes, peers: seq<bytes>, maxConns: int, checksRate: bool)

  /** The parent's memory: its replay cache, its rate table and the children it counts. */
  datatype Parent = Parent(cache: seq<Entry>, rates: RL.Limiter, active: int)

  ghost predicate WellFormed(u: Setup, p: Parent) {
    Digests(u.suite) && |p.cache| == SLOTS && RL.WellFormed(p.rates)
  }

  datatype Event = Connect(conn: Connection) | ChildEnded

  ghost predicate EventOk(u: Setup, e: Event) {
    e.Connect? ==> |e.conn.hs| == |u.peers|
  }

  /** A free place comes first; only then is the rate table asked, and charged. */
  predicate HasPlace(u: Setup, p: Parent) {
    p.active < u.maxConns
  }

  function Rated(u: Setup, p: Parent, conn: Connection): (RL.Limiter, bool)
    requires RL.WellFormed(p.rates)
  {
    if u.checksRate then RL.Check(p.rates, conn.ip, conn.time) else (p.rates, true)
  }

  /** One turn: the parent afterwards, and what a child made of the connection. */
  function Turn(u: Setup, p: Parent, e: Event): (Parent, Option<Accepted>)
    requires WellFormed(u, p) && EventOk(u, e)
  {
    match e
    case ChildEnded => (p.(active := p.active - 1), None)
    case Connect(conn) =>
      if !HasPlace(u, p) then (p, None)
      else
        var (rates, ok) := Rated(u, p, conn);
        if !ok || !conn.forks then (p.(rates := rates), None)
        else (p.(rates := rates, active := p.active + 1), Child(u.suite, u.sk, u.peers, conn, p.cache))
  }

  class Listener {
    const parent: TcpPeer
    const rates: RL.RateTable
    var active: int

    ghost predicate Valid()
      reads this, rates, parent, parent.cache
    {
      parent.cache.Valid() && rates.Valid()
    }

    ghost function Value(): Parent
      requires Valid()
      reads this, rates, rates.table, parent, parent.cache, parent.cache.slots
    {
      Parent(parent.cache.Fifo(), rates.Value(), active)
    }

    constructor ()
      ensures Valid() && Value() == JustStarted()
      ensures fresh(rates) && fresh(rates.table) && fresh(parent.cache) && fresh(parent.cache.slots)
    {
      parent := new TcpPeer();
      rates := new RL.RateTable();
      active := 0;
    }

    /** One turn of the accept loop. The child works on its copy of the parent's memory, so no
        connection leaves a trace in the parent's replay cache. */
    method Accept(u: Setup, conn: Connection) returns (r: Option<Accepted>)
      requires Valid() && Digests(u.suite) && |conn.hs| == |u.peers|
      modifies this`active, rates, rates.table
      ensures Valid() && (Value(), r) == Turn(u, old(Value()), Connect(conn))
    {
      if active >= u.maxConns {
        return None;
      }
      if u.checksRate {
        var ok := rates.RateCheck(conn.ip, conn.time);
        if !ok {
          return None;
        }
      }
      if !conn.forks {
        return None;
      }
      var child := new TcpPeer.Fork(parent);
      r := TryHandshake(child, u.suite, u.sk, u.peers, conn.stream, conn.hs);
      active := active + 1;
    }

    /** The handler of a child's end. */
    method OnChildEnd(u: Setup)
      requires Valid() && Digests(u.suite)
      modifies this`active
      ensures Valid() && Value() == Turn(u, old(Value()), ChildEnded).0
    {
      active := active - 1;
    }
  }

  /** The parent of a server that has just started. */
  function JustStarted(): Parent {
    Parent(seq(SLOTS, _ => ZERO_ENTRY), RL.Empty(), 0)
  }

  // ---- Runs of the accept loop ----

  ghost predicate EventsOk(u: Setup, events: seq<Event>) {
    forall i :: 0 <= i < |events| ==> EventOk(u, events[i])
  }

  function Serving(u: Setup, p: Parent, events: seq<Event>): (r: Parent)
    requires WellFormed(u, p) && EventsOk(u, events)
    ensures WellFormed(u, r) && r.cache == p.cache
  {
    if events == [] then p else Turn(u, Serving(u, p, events[..|events| - 1]), events[|events| - 1]).0
  }

  /** What came of the i-th event. */
  function ResultOf(u: Setup, p: Parent, events: seq<Event>, i: nat): Option<Accepted>
    requires WellFormed(u, p) && EventsOk(u, events) && i < |events|
  {
    Turn(u, Serving(u, p, events[..i]), events[i]).1
  }

  /** A message accepted once is accepted again from the same cache exactly when it is still
      fresh and nothing fails on the server's side. */
  lemma SameMessageAgain(c: Suite, sk: bytes, peer: bytes, w: bytes, h: Chance, h': Chance, fifo: seq<Entry>)
    requires Digests(c) && |w| == HS_LEN
    requires Serve(Tcp, c, sk, peer, w, h, fifo).Some?
    ensures var its := Open(Tcp, w, ServerInitKey(c, sk, peer, w));
            && its.Some?
            && (Serve(Tcp, c, sk, peer, w, h', fifo).Some? <==>
                Fresh(h'.now, its.value) && h'.eph.Some? && h'.sent && h'.ts >= 0)
  {
    hide Open, Message, Fresh;
  }

  /** Some connection of a run was accepted with the first peer. */
  ghost predicate AcceptedBefore(u: Setup, p: Parent, events: seq<Event>, i: nat)
    requires WellFormed(u, p) && EventsOk(u, events)
  {
    i < |events| && var r := ResultOf(u, p, events, i); r.Some? && r.value.peer == 0
  }

  /** The exact condition for a repeated first message, in every run: it is accepted again if
      and only if there is a place, the rate allows the address, forking works, it is still
      fresh, and nothing fails in the child. What the earlier child recorded plays no part. */
  lemma RepeatedConnection(u: Setup, p: Parent, events: seq<Event>, i: nat, again: Connection)
    requires WellFormed(u, p) && EventsOk(u, events) && AcceptedBefore(u, p, events, i)
    requires |again.hs| == |u.peers| && |again.stream| >= HS_LEN
    requires again.stream[..HS_LEN] == FirstMessage(events[i])
    ensures |u.peers| > 0
    ensures var w, h, q := FirstMessage(events[i]), again.hs[0], Serving(u, p, events);
            var its := Open(Tcp, w, ServerInitKey(u.suite, u.sk, u.peers[0], w));
            var r := Turn(u, q, Connect(again)).1;
            && its.Some?
            && ((r.Some? && r.value.peer == 0) <==>
                && HasPlace(u, q) && Rated(u, q, again).1 && again.forks
                && FreshEnough(h, its.value))
  {
    hide Serve, Open, CacheAfter, Fresh, Rated, Serving;
    var q := Serving(u, p, events[..i]);
    var conn := events[i].conn;
    FirstTry(u.suite, u.sk, u.peers, conn, q.cache);
    SameMessageAgain(u.suite, u.sk, u.peers[0], conn.stream[..HS_LEN], conn.hs[0], again.hs[0], q.cache);
    FirstOrLater(u.suite, u.sk, u.peers, again, q.cache);
  }

  /** The first message on a connection. */
  function FirstMessage(e: Event): bytes {
    if e.Connect? && |e.conn.stream| >= HS_LEN then e.conn.stream[..HS_LEN] else []
  }

  predicate FreshEnough(h: Chance, its: int) {
    Fresh(h.now, its) && h.eph.Some? && h.sent && h.ts >= 0
  }

  /** A child authenticates the first peer exactly when the first attempt succeeds. */
  lemma FirstOrLater(c: Suite, sk: bytes, peers: seq<bytes>, conn: Connection, parent: seq<Entry>)
    requires Digests(c) && |conn.hs| == |peers| > 0 && |parent| == SLOTS && |conn.stream| >= HS_LEN
    ensures var r := Child(c, sk, peers, conn, parent);
            (r.Some? && r.value.peer == 0) <==> Serve(Tcp, c, sk, peers[0], conn.stream[..HS_LEN], conn.hs[0], parent).Some?
  {
    hide Serve, Open, CacheAfter;
    var w := conn.stream[..HS_LEN];
    TriesInOrder(c, sk, peers, 1, conn.stream[HS_LEN..], conn.hs,
                 CacheAfter(parent, Open(Tcp, w, ServerInitKey(c, sk, peers[0], w)), conn.hs[0].now, Eph(w)));
  }

  lemma {:induction false} TriesInOrder(c: Suite, sk: bytes, peers: seq<bytes>, i: nat, stream: bytes, hs: seq<Chance>, fifo: seq<Entry>)
    requires Digests(c) && i <= |peers| == |hs| && |fifo| == SLOTS
    ensures var r := TryFrom(c, sk, peers, i, stream, hs, fifo); r.Some? ==> i <= r.value.peer < |peers|
    decreases |peers| - i
  {
    hide Serve, Open, CacheAfter;
    if i < |peers| && |stream| >= HS_LEN {
      var w := stream[..HS_LEN];
      TriesInOrder(c, sk, peers, i + 1, stream[HS_LEN..], hs,
                   CacheAfter(fifo, Open(Tcp, w, ServerInitKey(c, sk, peers[i], w)), hs[i].now, Eph(w)));
    }
  }

  lemma FirstTry(c: Suite, sk: bytes, peers: seq<bytes>, conn: Connection, parent: seq<Entry>)
    requires Digests(c) && |conn.hs| == |peers| && |parent| == SLOTS
    requires Child(c, sk, peers, conn, parent).Some? && Child(c, sk, peers, conn, parent).value.peer == 0
    ensures |peers| > 0 && |conn.stream| >= HS_LEN
    ensures Serve(Tcp, c, sk, peers[0], conn.stream[..HS_LEN], conn.hs[0], parent).Some?
  {
    hide Serve, Open, CacheAfter;
    if |peers| > 0 && |conn.stream| >= HS_LEN {
      var w := conn.stream[..HS_LEN];
      TriesInOrder(c, sk, peers, 1, conn.stream[HS_LEN..], conn.hs,
                   CacheAfter(parent, Open(Tcp, w, ServerInitKey(c, sk, peers[0], w)), conn.hs[0].now, Eph(w)));
    }
  }

  // ---- How often one address gets in ----

  /** The calls the parent makes to the rate limiter. */
  function RateCalls(u: Setup, p: Parent, events: seq<Event>): seq<RL.Call>
    requires WellFormed(u, p) && EventsOk(u, events)
  {
    if events == [] then []
    else
      var n := |events| - 1;
      var front, e := RateCalls(u, p, events[..n]), events[n];
      if e.Connect? && HasPlace(u, Serving(u, p, events[..n])) then front + [RL.Call(e.conn.ip, e.conn.time)] else front
  }

  /** Accepted connections of address x at times t..t+60. */
  function AcceptancesIn(u: Setup, p: Parent, events: seq<Event>, x: string, t: int): nat
    requires WellFormed(u, p) && EventsOk(u, events)
  {
    if events == [] then 0
    else
      var n := |events| - 1;
      var e := events[n];
      AcceptancesIn(u, p, events[..n], x, t) +
      (if e.Connect? && e.conn.ip == x && t <= e.conn.time <= t + RL.WINDOW &&
          Turn(u, Serving(u, p, events[..n]), e).1.Some? then 1 else 0)
  }

  /** The parent's rate table is that of these calls, and every acceptance is an approval. */
  lemma {:induction false} AcceptancesAreApproved(u: Setup, events: seq<Event>, x: string, t: int)
    requires Digests(u.suite) && EventsOk(u, events) && u.checksRate
    ensures Serving(u, JustStarted(), events).rates == RL.Run(RateCalls(u, JustStarted(), events))
    ensures AcceptancesIn(u, JustStarted(), events, x, t) <= RL.ApprovalsIn(RateCalls(u, JustStarted(), events), x, t)
    decreases |events|
  {
    hide RL.Check, Child;
    if events != [] {
      var n := |events| - 1;
      AcceptancesAreApproved(u, events[..n], x, t);
      var calls, e := RateCalls(u, JustStarted(), events[..n]), events[n];
      if e.Connect? {
        var call := RL.Call(e.conn.ip, e.conn.time);
        assert (calls + [call])[..|calls|] == calls;
      }
    }
  }

  /** Connections in time order, from valid addresses in a set. */
  ghost predicate InOrder(events: seq<Event>, ips: set<string>) {
    && (forall i :: 0 <= i < |events| && events[i].Connect? ==> events[i].conn.ip in ips && RL.ValidIp(events[i].conn.ip))
    && (forall i, j :: 0 <= i < j < |events| && events[i].Connect? && events[j].Connect? ==>
          events[i].conn.time <= events[j].conn.time)
  }

  /** Nothing has called later than now. */
  ghost predicate NotAfter(calls: seq<RL.Call>, now: int) {
    forall i :: 0 <= i < |calls| ==> calls[i].now <= now
  }

  lemma {:induction false} CallsInOrder(u: Setup, p: Parent, events: seq<Event>, ips: set<string>, now: int)
    requires WellFormed(u, p) && EventsOk(u, events) && InOrder(events, ips)
    requires forall i :: 0 <= i < |events| && events[i].Connect? ==> events[i].conn.time <= now
    ensures RL.InOrder(RateCalls(u, p, events), ips) && NotAfter(RateCalls(u, p, events), now)
    decreases |events|
  {
    hide Serving;
    if events != [] {
      var n := |events| - 1;
      var e := events[n];
      CallsInOrder(u, p, events[..n], ips, if e.Connect? then e.conn.time else now);
    }
  }

  /** The latest time in a run. */
  function LastTime(events: seq<Event>): int {
    if events == [] then 0
    else
      var n := |events| - 1;
      var before := LastTime(events[..n]);
      if events[n].Connect? && events[n].conn.time > before then events[n].conn.time else before
  }

  lemma {:induction false} LastTimeBounds(events: seq<Event>)
    ensures forall i :: 0 <= i < |events| && events[i].Connect? ==> events[i].conn.time <= LastTime(events)
    decreases |events|
  {
    if events != [] {
      LastTimeBounds(events[..|events| - 1]);
    }
  }

  /** So with at most 32 addresses, a server that checks rates accepts at most nine connections
      of one address in any closed interval of sixty seconds, repeated messages included. */
  lemma AtMostNineAccepted(u: Setup, events: seq<Event>, ips: set<string>, x: string, t: int)
    requires Digests(u.suite) && EventsOk(u, events) && u.checksRate
    requires |ips| <= RL.MAX_IPS && InOrder(events, ips)
    ensures AcceptancesIn(u, JustStarted(), events, x, t) <= 9
  {
    hide AcceptancesIn, RateCalls, Serving, RL.Run, RL.ApprovalsIn, RL.InOrder;
    LastTimeBounds(events);
    CallsInOrder(u, JustStarted(), events, ips, LastTime(events));
    AcceptancesAreApproved(u, events, x, t);
    RL.RateBound(RateCalls(u, JustStarted(), events), ips, x, t);
  }

  // ---- The same message again and again ----

  /** n connections from one address within the same second, all with the same first message. */
  function Repeats(conn: Connection, n: nat): seq<Event> {
    seq(n, _ => Connect(conn))
  }

  /** A setup that knows the client, and its own first message on a connection that meets no
      failure. */
  ghost predicate Honest(u: Setup, sc: bytes, ec: bytes, conn: Connection, ts: int) {
    && Lawful(u.suite) && Int64(ts) && ts > 0 && u.peers == [u.suite.pub(sc)] && RL.ValidIp(conn.ip) && conn.forks
    && conn.stream == ClientInit(u.suite, sc, ec, u.suite.pub(u.sk), ts)
    && |conn.hs| == 1 && conn.hs[0].now == ts && conn.hs[0].eph.Some? && conn.hs[0].sent && conn.hs[0].ts >= 0
  }

  lemma ChildAccepts(u: Setup, sc: bytes, ec: bytes, conn: Connection, ts: int)
    requires Honest(u, sc, ec, conn, ts)
    ensures Child(u.suite, u.sk, u.peers, conn, JustStarted().cache).Some?
  {
    hide ClientInit, Server, Open;
    var c, h, start := u.suite, conn.hs[0], JustStarted().cache;
    ServerAcceptsExactly(Tcp, c, sc, ec, u.sk, h.eph.value, ts, h.now, h.ts, start);
    FreshExactly(ts, ts);
    assert conn.stream[..HS_LEN] == conn.stream;
    assert Entry(ts, c.pub(ec)[..8]) !in start;
  }

  /** The rate table after n calls of one address in one second. */
  lemma {:induction false} OneAddress(ip: string, now: int, n: nat)
    requires RL.ValidIp(ip)
    ensures var l := RL.Run(seq(n, _ => RL.Call(ip, now)));
            && (n > 0 ==> l.table[0] == RL.Entry(ip, n, now) && RL.Find(l.table, ip) == 0)
            && RL.Check(l, ip, now).1 == (n < 5)
    decreases n
  {
    hide RL.Find, RL.Check, RL.Run;
    var calls := seq(n, _ => RL.Call(ip, now));
    if n == 0 {
      FirstCall(ip, now);
    } else {
      OneAddress(ip, now, n - 1);
      assert calls[..n - 1] == seq(n - 1, _ => RL.Call(ip, now));
      RunLast(calls);
      if n == 1 {
        FirstCall(ip, now);
        assert calls[..0] == [];
      } else {
        AnotherCall(RL.Run(calls[..n - 1]), ip, now, n - 1);
      }
      AnotherCall(RL.Run(calls), ip, now, n);
    }
  }

  lemma RunLast(calls: seq<RL.Call>)
    requires calls != []
    ensures var n := |calls| - 1; RL.Run(calls) == RL.Check(RL.Run(calls[..n]), calls[n].ip, calls[n].now).0
  {
  }

  lemma FirstCall(ip: string, now: int)
    requires RL.ValidIp(ip)
    ensures RL.Run([]) == RL.Empty() && RL.Check(RL.Empty(), ip, now).1
    ensures var l := RL.Check(RL.Empty(), ip, now).0; l.table[0] == RL.Entry(ip, 1, now) && RL.Find(l.table, ip) == 0
  {
  }

  lemma AnotherCall(l: RL.Limiter, ip: string, now: int, n: nat)
    requires RL.WellFormed(l) && RL.ValidIp(ip) && n > 0 && l.table[0] == RL.Entry(ip, n, now)
    ensures var r := RL.Check(l, ip, now);
            r.1 == (n < 5) && r.0.table[0] == RL.Entry(ip, n + 1, now) && RL.Find(r.0.table, ip) == 0
  {
    hide RL.Find;
    FindsFirst(l.table, ip);
    FindsFirst(RL.Check(l, ip, now).0.table, ip);
  }

  lemma FindsFirst(table: seq<RL.Entry>, ip: string)
    requires |table| == RL.MAX_IPS && table[0].ip == ip != ""
    ensures RL.Find(table, ip) == 0
  {
  }

  lemma {:induction false} RepeatsServed(u: Setup, conn: Connection, n: nat)
    requires Digests(u.suite) && |conn.hs| == |u.peers| && u.checksRate && RL.ValidIp(conn.ip) && conn.forks
    requires u.maxConns >= n
    ensures EventsOk(u, Repeats(conn, n))
    ensures var q := Serving(u, JustStarted(), Repeats(conn, n));
            q.active <= n && q.rates == RL.Run(seq(n, _ => RL.Call(conn.ip, conn.time)))
    decreases n
  {
    hide Child, RL.Check;
    if n > 0 {
      RepeatsServed(u, conn, n - 1);
      assert Repeats(conn, n)[..n - 1] == Repeats(conn, n - 1);
      RunLast(seq(n, _ => RL.Call(conn.ip, conn.time)));
      assert (seq(n, _ => RL.Call(conn.ip, conn.time)))[..n - 1] == seq(n - 1, _ => RL.Call(conn.ip, conn.time));
    }
  }

  /** A client's own first message, repeated within one second on a server with room: the first
      five connections are accepted, and the sixth and later ones are refused by the rate
      check, although the message is as fresh as before. */
  lemma FiveTimesAndNoMore(u: Setup, sc: bytes, ec: bytes, conn: Connection, ts: int, n: nat)
    requires Honest(u, sc, ec, conn, ts) && u.checksRate && u.maxConns > n
    ensures EventsOk(u, Repeats(conn, n))
    ensures Turn(u, Serving(u, JustStarted(), Repeats(conn, n)), Connect(conn)).1.Some? <==> n < 5
  {
    hide Child, RL.Check, RL.Run, Serving, Honest;
    HonestFits(u, sc, ec, conn, ts);
    RepeatsServed(u, conn, n);
    OneAddress(conn.ip, conn.time, n);
    ChildAccepts(u, sc, ec, conn, ts);
  }

  lemma HonestFits(u: Setup, sc: bytes, ec: bytes, conn: Connection, ts: int)
    requires Honest(u, sc, ec, conn, ts)
    ensures Digests(u.suite) && |conn.hs| == |u.peers| && RL.ValidIp(conn.ip) && conn.forks
  {
  }

  /** A server without the rate check accepts it every time it has a place. */
  lemma AlwaysWithoutRateCheck(u: Setup, sc: bytes, ec: bytes, conn: Connection, ts: int, events: seq<Event>)
    requires Honest(u, sc, ec, conn, ts) && !u.checksRate && EventsOk(u, events)
    requires HasPlace(u, Serving(u, JustStarted(), events))
    ensures Turn(u, Serving(u, JustStarted(), events), Connect(conn)).1.Some?
  {
    hide Child, Serving;
    ChildAccepts(u, sc, ec, conn, ts);
  }

  /** A client sends one message and waits. On one message only the first configured peer
      can be authenticated. */
  lemma OnlyTheFirstPeer(c: Suite, sk: bytes, peers: seq<bytes>, conn: Connection, parent: seq<Entry>)
    requires Digests(c) && |conn.hs| == |peers| && |parent| == SLOTS && |conn.stream| == HS_LEN
    ensures var r := Child(c, sk, peers, conn, parent);
            && (r.Some? <==> |peers| > 0 && Serve(Tcp, c, sk, peers[0], conn.stream, conn.hs[0], parent).Some?)
            && (r.Some? ==> r.value.peer == 0)
  {
    hide Serve, Open, CacheAfter;
    var w := conn.stream;
    assert w[..HS_LEN] == w && w[HS_LEN..] == [];
    if |peers| > 0 {
      NothingLeft(c, sk, peers, 1, [], conn.hs,
                  CacheAfter(parent, Open(Tcp, w, ServerInitKey(c, sk, peers[0], w)), conn.hs[0].now, Eph(w)));
    }
  }

  lemma NothingLeft(c: Suite, sk: bytes, peers: seq<bytes>, i: nat, stream: bytes, hs: seq<Chance>, fifo: seq<Entry>)
    requires Digests(c) && i <= |peers| == |hs| && |fifo| == SLOTS && |stream| < HS_LEN
    ensures TryFrom(c, sk, peers, i, stream, hs, fifo) == None
  {
  }
}
