/** The UDP server's session table: 64 slots handed out once each, searched linearly by
    client address, and used to route packets by tunnel address. */
module Sessions {
  import opened Bytes
  import opened Aes
  import opened Frames

  const MAX_CLIENTS: nat := 64
  const IDLE_LIMIT: int := 300

  datatype Session = Session(ip: nat, port: nat, keys: Keys, tunIp: nat, lastSeen: int, active: bool)

  const NO_SESSION := Session(0, 0, Keys(Zeros(16), Zeros(16)), 0, 0, false)

  /** count slots have been handed out; a slot whose session ends is not handed out again. */
  datatype Table = Table(slots: seq<Session>, count: nat)

  /** Distinct client addresses among active sessions, none beyond count. */
  ghost predicate Ok(t: Table) {
    && |t.slots| == MAX_CLIENTS && t.count <= MAX_CLIENTS
    && (forall i :: t.count <= i < MAX_CLIENTS ==> !t.slots[i].active)
    && (forall i, j :: 0 <= i < j < MAX_CLIENTS && t.slots[i].active && t.slots[j].active ==> t.slots[i].ip != t.slots[j].ip)
  }

  ghost predicate HoldsAt(t: Table, ip: nat, i: nat) {
    i < |t.slots| && t.slots[i].active && t.slots[i].ip == ip
  }

  function Find(t: Table, ip: nat): (i: nat)
    requires t.count <= |t.slots|
    ensures i <= t.count
    ensures i < t.count ==> HoldsAt(t, ip, i)
    ensures forall j :: 0 <= j < i ==> !HoldsAt(t, ip, j)
  {
    FindFrom(t, ip, 0)
  }

  function FindFrom(t: Table, ip: nat, i: nat): (r: nat)
    requires i <= t.count <= |t.slots|
    ensures i <= r <= t.count
    ensures r < t.count ==> HoldsAt(t, ip, r)
    ensures forall j :: i <= j < r ==> !HoldsAt(t, ip, j)
    decreases t.count - i
  {
    if i == t.count || (t.slots[i].active && t.slots[i].ip == ip) then i else FindFrom(t, ip, i + 1)
  }

  // ---- The operations on the table ----

  /** A completed handshake: the slot of this address, else the next unused one, else nothing.
      Only a new slot takes the peer's tunnel address. */
  function Complete(t: Table, ip: nat, port: nat, keys: Keys, tunIp: nat, now: int): Table
    requires |t.slots| == MAX_CLIENTS && t.count <= MAX_CLIENTS
  {
    var i := Find(t, ip);
    if i < t.count then
      t.(slots := t.slots[i := Session(ip, port, keys, t.slots[i].tunIp, now, true)])
    else if t.count < MAX_CLIENTS then
      Table(t.slots[i := Session(ip, port, keys, tunIp, now, true)], t.count + 1)
    else t
  }

  /** A datagram from ip: the port follows the sender at once, the activity time only if the
      datagram authenticates under the session's key. */
  function Datagram(t: Table, ip: nat, port: nat, authentic: bool, now: int): Table
    requires t.count <= |t.slots|
  {
    var i := Find(t, ip);
    if i == t.count then t
    else
      var s := t.slots[i].(port := port);
      t.(slots := t.slots[i := if authentic then s.(lastSeen := now) else s])
  }

  /** One session in the cleanup pass: a due keepalive counts as activity, then an idle
      session is erased. */
  function Tidied(s: Session, keepalive: int, now: int): Session {
    if !s.active then s
    else
      var k := if keepalive > 0 && now - s.lastSeen >= keepalive then s.(lastSeen := now) else s;
      if now - k.lastSeen > IDLE_LIMIT then NO_SESSION else k
  }

  function Cleanup(t: Table, keepalive: int, now: int): (r: Table)
    requires t.count <= |t.slots|
    ensures |r.slots| == |t.slots| && r.count == t.count
  {
    t.(slots := seq(|t.slots|, i requires 0 <= i < |t.slots| =>
                      if i < t.count then Tidied(t.slots[i], keepalive, now) else t.slots[i]))
  }

  /** The cleanup ends a session exactly in these cases. With a keepalive interval of 1 to
      301 seconds it never does, however long the client has been silent. */
  lemma EndedExactly(s: Session, keepalive: int, now: int)
    requires s.active
    ensures var idle := now - s.lastSeen;
            !Tidied(s, keepalive, now).active <==>
            idle > IDLE_LIMIT && (keepalive <= 0 || idle < keepalive)
    ensures 0 < keepalive <= IDLE_LIMIT + 1 ==> Tidied(s, keepalive, now).active
  {
  }

  // ---- The table is a map from client addresses to sessions ----

  /** The session an address has, if any. */
  ghost function Lookup(t: Table, ip: nat): (r: Option<Session>)
    requires Ok(t)
    ensures r == None <==> forall i: nat :: !HoldsAt(t, ip, i)
    ensures forall i: nat :: HoldsAt(t, ip, i) ==> r == Some(t.slots[i])
  {
    var i := Find(t, ip);
    if i < t.count then Some(t.slots[i]) else None
  }

  ghost function Get(m: map<nat, Session>, ip: nat): Option<Session> {
    if ip in m then Some(m[ip]) else None
  }

  ghost predicate Represents(t: Table, m: map<nat, Session>) {
    Ok(t) && forall ip :: Lookup(t, ip) == Get(m, ip)
  }

  ghost function MapComplete(m: map<nat, Session>, used: nat, ip: nat, port: nat, keys: Keys, tunIp: nat, now: int): map<nat, Session> {
    if ip in m then m[ip := Session(ip, port, keys, m[ip].tunIp, now, true)]
    else if used < MAX_CLIENTS then m[ip := Session(ip, port, keys, tunIp, now, true)]
    else m
  }

  ghost function MapDatagram(m: map<nat, Session>, ip: nat, port: nat, authentic: bool, now: int): map<nat, Session> {
    if ip !in m then m
    else
      var s := m[ip].(port := port);
      m[ip := if authentic then s.(lastSeen := now) else s]
  }

  ghost function MapCleanup(m: map<nat, Session>, keepalive: int, now: int): map<nat, Session> {
    map ip | ip in m && Tidied(m[ip], keepalive, now).active :: Tidied(m[ip], keepalive, now)
  }

  /** Replacing one session by another of the same address changes that address only. */
  lemma ReplaceLooksUp(t: Table, i: nat, s: Session, ip: nat)
    requires Ok(t) && HoldsAt(t, s.ip, i) && s.active
    ensures Ok(t.(slots := t.slots[i := s]))
    ensures Lookup(t.(slots := t.slots[i := s]), ip) == if ip == s.ip then Some(s) else Lookup(t, ip)
  {
    var t' := t.(slots := t.slots[i := s]);
    assert HoldsAt(t', s.ip, i);
    if ip != s.ip {
      assert forall j: nat :: HoldsAt(t', ip, j) <==> HoldsAt(t, ip, j);
    }
  }

  lemma AppendLooksUp(t: Table, s: Session, ip: nat)
    requires Ok(t) && t.count < MAX_CLIENTS && s.active && Lookup(t, s.ip) == None
    ensures Ok(Table(t.slots[t.count := s], t.count + 1))
    ensures Lookup(Table(t.slots[t.count := s], t.count + 1), ip) == if ip == s.ip then Some(s) else Lookup(t, ip)
  {
    var t' := Table(t.slots[t.count := s], t.count + 1);
    assert forall j: nat :: j < MAX_CLIENTS && t.slots[j].active ==> HoldsAt(t, t.slots[j].ip, j);
    assert HoldsAt(t', s.ip, t.count);
    if ip != s.ip {
      assert forall j: nat :: HoldsAt(t', ip, j) <==> HoldsAt(t, ip, j);
    }
  }

  lemma CompleteRefines(t: Table, m: map<nat, Session>, ip: nat, port: nat, keys: Keys, tunIp: nat, now: int)
    requires Represents(t, m)
    ensures Represents(Complete(t, ip, port, keys, tunIp, now), MapComplete(m, t.count, ip, port, keys, tunIp, now))
  {
    hide Lookup, Ok;
    FindLooksUp(t, ip);
    var i, t', m' := Find(t, ip), Complete(t, ip, port, keys, tunIp, now), MapComplete(m, t.count, ip, port, keys, tunIp, now);
    if i < t.count {
      var s := Session(ip, port, keys, t.slots[i].tunIp, now, true);
      assert Get(m, ip) == Some(t.slots[i]);
      ReplaceLooksUp(t, i, s, ip);
      forall x ensures Lookup(t', x) == Get(m', x) {
        ReplaceLooksUp(t, i, s, x);
      }
    } else if t.count < MAX_CLIENTS {
      assert Get(m, ip) == None;
      var s := Session(ip, port, keys, tunIp, now, true);
      AppendLooksUp(t, s, ip);
      forall x ensures Lookup(t', x) == Get(m', x) {
        AppendLooksUp(t, s, x);
      }
    } else {
      assert Get(m, ip) == None;
    }
  }

  lemma FindLooksUp(t: Table, ip: nat)
    requires Ok(t)
    ensures Lookup(t, ip) == if Find(t, ip) < t.count then Some(t.slots[Find(t, ip)]) else None
    ensures |t.slots| == MAX_CLIENTS && t.count <= MAX_CLIENTS
  {
  }

  lemma DatagramRefines(t: Table, m: map<nat, Session>, ip: nat, port: nat, authentic: bool, now: int)
    requires Represents(t, m)
    ensures Represents(Datagram(t, ip, port, authentic, now), MapDatagram(m, ip, port, authentic, now))
  {
    hide Lookup, Ok;
    FindLooksUp(t, ip);
    var i, t', m' := Find(t, ip), Datagram(t, ip, port, authentic, now), MapDatagram(m, ip, port, authentic, now);
    if i < t.count {
      assert Get(m, ip) == Some(t.slots[i]);
      var s := if authentic then t.slots[i].(port := port, lastSeen := now) else t.slots[i].(port := port);
      ReplaceLooksUp(t, i, s, ip);
      forall x ensures Lookup(t', x) == Get(m', x) {
        ReplaceLooksUp(t, i, s, x);
      }
    } else {
      assert Get(m, ip) == None;
    }
  }

  lemma TidiedKeepsIp(s: Session, keepalive: int, now: int)
    ensures var r := Tidied(s, keepalive, now); r.active ==> s.active && r.ip == s.ip && r.keys == s.keys
  {
  }

  lemma CleanupKeepsOk(t: Table, keepalive: int, now: int)
    requires Ok(t)
    ensures Ok(Cleanup(t, keepalive, now))
  {
    hide Tidied;
    var t' := Cleanup(t, keepalive, now);
    forall i | 0 <= i < MAX_CLIENTS ensures t'.slots[i].active ==> t.slots[i].active && t'.slots[i].ip == t.slots[i].ip {
      TidiedKeepsIp(t.slots[i], keepalive, now);
    }
  }

  lemma CleanupRefines(t: Table, m: map<nat, Session>, keepalive: int, now: int)
    requires Represents(t, m)
    ensures Represents(Cleanup(t, keepalive, now), MapCleanup(m, keepalive, now))
  {
    hide Tidied;
    var t', m' := Cleanup(t, keepalive, now), MapCleanup(m, keepalive, now);
    CleanupKeepsOk(t, keepalive, now);
    forall ip ensures Lookup(t', ip) == Get(m', ip) {
      forall i: nat | HoldsAt(t', ip, i) ensures HoldsAt(t, ip, i) {
        TidiedKeepsIp(t.slots[i], keepalive, now);
      }
      if ip in m {
        var i := Find(t, ip);
        assert Lookup(t, ip) == Get(m, ip);
        assert HoldsAt(t, ip, i) && m[ip] == t.slots[i];
        TidiedKeepsIp(t.slots[i], keepalive, now);
        assert forall j: nat :: HoldsAt(t, ip, j) ==> j == i;
        assert t'.slots[i].active ==> HoldsAt(t', ip, i);
      } else {
        assert Lookup(t, ip) == Get(m, ip);
      }
    }
  }

  // ---- Runs of the server loop ----

  datatype Event =
    | Handshake(ip: nat, port: nat, keys: Keys, tunIp: nat, now: int)
    | Packet(ip: nat, port: nat, authentic: bool, now: int)
    | Tick(keepalive: int, now: int)

  function Start(): Table {
    Table(seq(MAX_CLIENTS, _ => NO_SESSION), 0)
  }

  function Step(t: Table, e: Event): (r: Table)
    requires |t.slots| == MAX_CLIENTS && t.count <= MAX_CLIENTS
    ensures |r.slots| == MAX_CLIENTS && r.count <= MAX_CLIENTS
  {
    match e
    case Handshake(ip, port, keys, tunIp, now) => Complete(t, ip, port, keys, tunIp, now)
    case Packet(ip, port, authentic, now) => Datagram(t, ip, port, authentic, now)
    case Tick(keepalive, now) => Cleanup(t, keepalive, now)
  }

  function Run(events: seq<Event>): (r: Table)
    ensures |r.slots| == MAX_CLIENTS && r.count <= MAX_CLIENTS
  {
    if events == [] then Start() else Step(Run(events[..|events| - 1]), events[|events| - 1])
  }

  ghost function MapStep(m: map<nat, Session>, used: nat, e: Event): map<nat, Session> {
    match e
    case Handshake(ip, port, keys, tunIp, now) => MapComplete(m, used, ip, port, keys, tunIp, now)
    case Packet(ip, port, authentic, now) => MapDatagram(m, ip, port, authentic, now)
    case Tick(keepalive, now) => MapCleanup(m, keepalive, now)
  }

  /** The same run on a map; used counts the addresses that were ever new. */
  ghost function MapRun(events: seq<Event>): (map<nat, Session>, nat) {
    if events == [] then (map[], 0)
    else
      var (m, used) := MapRun(events[..|events| - 1]);
      var e := events[|events| - 1];
      (MapStep(m, used, e), if e.Handshake? && e.ip !in m && used < MAX_CLIENTS then used + 1 else used)
  }

  lemma StartRepresents()
    ensures Represents(Start(), map[])
  {
  }

  /** In every run the array with linear search is the map: active addresses are distinct
      and at most 64 slots are ever used. */
  lemma {:induction false} RunRefines(events: seq<Event>)
    ensures Represents(Run(events), MapRun(events).0) && Run(events).count == MapRun(events).1 <= MAX_CLIENTS
    decreases |events|
  {
    hide Complete, Datagram, Cleanup, Represents, MapComplete, MapDatagram, MapCleanup;
    if events == [] {
      StartRepresents();
    } else {
      var front, e := events[..|events| - 1], events[|events| - 1];
      RunRefines(front);
      var t, m := Run(front), MapRun(front).0;
      match e
      case Handshake(ip, port, keys, tunIp, now) =>
        CompleteRefines(t, m, ip, port, keys, tunIp, now);
        CompleteCounts(t, m, ip, port, keys, tunIp, now);
      case Packet(ip, port, authentic, now) =>
        DatagramRefines(t, m, ip, port, authentic, now);
        DatagramCounts(t, ip, port, authentic, now);
      case Tick(keepalive, now) =>
        CleanupRefines(t, m, keepalive, now);
    }
  }

  lemma CompleteCounts(t: Table, m: map<nat, Session>, ip: nat, port: nat, keys: Keys, tunIp: nat, now: int)
    requires Represents(t, m)
    ensures Complete(t, ip, port, keys, tunIp, now).count ==
            if ip !in m && t.count < MAX_CLIENTS then t.count + 1 else t.count
  {
    FindLooksUp(t, ip);
    assert Lookup(t, ip) == Get(m, ip);
  }

  lemma DatagramCounts(t: Table, ip: nat, port: nat, authentic: bool, now: int)
    requires t.count <= |t.slots|
    ensures Datagram(t, ip, port, authentic, now).count == t.count
  {
  }

  /** The keys of the last completed handshake of an address. */
  function LastKeys(events: seq<Event>, ip: nat): Option<Keys> {
    if events == [] then None
    else
      var e := events[|events| - 1];
      if e.Handshake? && e.ip == ip then Some(e.keys) else LastKeys(events[..|events| - 1], ip)
  }

  lemma {:induction false} MapKeysAreLatest(events: seq<Event>, ip: nat)
    ensures ip in MapRun(events).0 ==> LastKeys(events, ip) == Some(MapRun(events).0[ip].keys)
    decreases |events|
  {
    if events != [] {
      MapKeysAreLatest(events[..|events| - 1], ip);
    }
  }

  /** A datagram is decrypted with the keys of its address's latest completed handshake. */
  lemma LatestKeysAreUsed(events: seq<Event>, ip: nat)
    ensures var t := Run(events);
            var i := Find(t, ip);
            i < t.count ==> LastKeys(events, ip) == Some(t.slots[i].keys)
  {
    RunRefines(events);
    MapKeysAreLatest(events, ip);
    FindLooksUp(Run(events), ip);
    assert Lookup(Run(events), ip) == Get(MapRun(events).0, ip);
  }

  /** The port an address was last heard from, by handshake or datagram, authentic or not. */
  function LastPort(events: seq<Event>, ip: nat): Option<nat> {
    if events == [] then None
    else
      var e := events[|events| - 1];
      if (e.Handshake? || e.Packet?) && e.ip == ip then Some(e.port) else LastPort(events[..|events| - 1], ip)
  }

  /** When the server last heard an authentic word from an address, or last sent it a keepalive. */
  function LastContact(events: seq<Event>, ip: nat): int {
    if events == [] then 0
    else
      var before, e := LastContact(events[..|events| - 1], ip), events[|events| - 1];
      if e.Handshake? && e.ip == ip then e.now
      else if e.Packet? && e.ip == ip && e.authentic then e.now
      else if e.Tick? && e.keepalive > 0 && e.now - before >= e.keepalive then e.now
      else before
  }

  /** The tunnel address that came with the handshake which opened the present session. */
  ghost function TunSince(events: seq<Event>, ip: nat): nat {
    if events == [] then 0
    else
      var front, e := events[..|events| - 1], events[|events| - 1];
      if e.Handshake? && e.ip == ip && ip !in MapRun(front).0 then e.tunIp else TunSince(front, ip)
  }

  lemma {:induction false} MapHoldsHistory(events: seq<Event>, ip: nat)
    ensures ip in MapRun(events).0 ==>
              var s := MapRun(events).0[ip];
              && s.ip == ip && s.active && LastPort(events, ip) == Some(s.port)
              && s.lastSeen == LastContact(events, ip) && s.tunIp == TunSince(events, ip)
    decreases |events|
  {
    if events != [] {
      MapHoldsHistory(events[..|events| - 1], ip);
    }
  }

  /** What a slot holds, in every run: the port last heard from, the time of last contact, the
      tunnel address the session was opened with, and the keys of the latest handshake. */
  lemma SlotsHoldHistory(events: seq<Event>, ip: nat)
    ensures var t := Run(events);
            var i := Find(t, ip);
            i < t.count ==>
              var s := t.slots[i];
              && LastPort(events, ip) == Some(s.port) && LastKeys(events, ip) == Some(s.keys)
              && s.lastSeen == LastContact(events, ip) && s.tunIp == TunSince(events, ip)
  {
    hide LastPort, LastContact, TunSince, LastKeys, Run, MapRun;
    RunRefines(events);
    MapHoldsHistory(events, ip);
    MapKeysAreLatest(events, ip);
    FindLooksUp(Run(events), ip);
    assert Lookup(Run(events), ip) == Get(MapRun(events).0, ip);
  }

  /** A datagram that does not authenticate still moves the port replies go to, and changes
      nothing else about any session. */
  lemma UnauthenticatedDatagramMovesPort(events: seq<Event>, ip: nat, port: nat, now: int, x: nat)
    ensures var before, after := MapRun(events).0, MapRun(events + [Packet(ip, port, false, now)]).0;
            Get(after, x) == if x == ip && ip in before then Some(before[ip].(port := port)) else Get(before, x)
    ensures Represents(Run(events + [Packet(ip, port, false, now)]), MapRun(events + [Packet(ip, port, false, now)]).0)
  {
    hide Represents;
    var e := Packet(ip, port, false, now);
    assert (events + [e])[..|events|] == events;
    RunRefines(events + [e]);
  }

  /** Every cleanup pass runs with a keepalive interval of 1 to 301 seconds. */
  ghost predicate ShortIntervals(events: seq<Event>) {
    forall i :: 0 <= i < |events| && events[i].Tick? ==> 0 < events[i].keepalive <= IDLE_LIMIT + 1
  }

  /** Then an address that has a session keeps one, whatever happens and however long its
      client is silent. */
  lemma {:induction false} AdmittedForGood(events: seq<Event>, more: seq<Event>, ip: nat)
    requires ip in MapRun(events).0 && ShortIntervals(more)
    ensures ip in MapRun(events + more).0 && MapRun(events + more).0[ip].active
    ensures Find(Run(events + more), ip) < Run(events + more).count
    decreases |more|
  {
    hide Complete, Datagram, Cleanup, Lookup, Ok;
    RunRefines(events + more);
    FindLooksUp(Run(events + more), ip);
    assert Lookup(Run(events + more), ip) == Get(MapRun(events + more).0, ip);
    if more == [] {
      assert events + more == events;
      HeldIsActive(Run(events), ip);
    } else {
      var front, e := more[..|more| - 1], more[|more| - 1];
      AdmittedForGood(events, front, ip);
      assert (events + more)[..|events + more| - 1] == events + front;
      var m := MapRun(events + front).0;
      if e.Tick? {
        EndedExactly(m[ip], e.keepalive, e.now);
      }
    }
  }

  lemma HeldIsActive(t: Table, ip: nat)
    requires Ok(t)
    ensures Lookup(t, ip).Some? ==> Lookup(t, ip).value.active
  {
  }

  /** Slots are never reclaimed: once all 64 are used, no further address ever gets in. */
  lemma {:induction false} FullTableAdmitsNobody(events: seq<Event>, more: seq<Event>, ip: nat)
    requires Run(events).count == MAX_CLIENTS && ip !in MapRun(events).0
    ensures ip !in MapRun(events + more).0 && Run(events + more).count == MAX_CLIENTS
    decreases |more|
  {
    hide Complete, Datagram, Cleanup, Represents;
    if more == [] {
      assert events + more == events;
    } else {
      var front := more[..|more| - 1];
      FullTableAdmitsNobody(events, front, ip);
      assert (events + more)[..|events + more| - 1] == events + front;
      RunRefines(events + front);
      RunRefines(events + more);
    }
  }

  // ---- Routing ----

  /** The destination of an IPv4 packet, or 0 when it is not a well-formed one. */
  function DstAddr(pkt: bytes): nat {
    if |pkt| < 20 || pkt[0] >> 4 != 4 then 0
    else
      var ihl := 4 * Num(pkt[0] & 0x0f);
      if ihl < 20 || ihl > |pkt| then 0 else FromBigEndian(pkt[16..20])
  }

  /** A packet whose header names destination a is routed by a. */
  lemma DstAddrReadsDestination(pkt: bytes, a: nat)
    requires |pkt| >= 20 && pkt[0] >> 4 == 4 && 20 <= 4 * Num(pkt[0] & 0x0f) <= |pkt|
    requires a < Pow256(4) && pkt[16..20] == BigEndian(a, 4)
    ensures DstAddr(pkt) == a
  {
    FromBigEndianInverts(a, 4);
  }

  /** Anything that is not an IPv4 packet with a whole header has no destination. */
  lemma DstAddrOfOthers(pkt: bytes)
    requires |pkt| < 20 || pkt[0] >> 4 != 4 || 4 * Num(pkt[0] & 0x0f) < 20 || 4 * Num(pkt[0] & 0x0f) > |pkt|
    ensures DstAddr(pkt) == 0
  {
  }

  /** Packets without a destination and sessions without a tunnel address match everything. */
  predicate Reaches(s: Session, dst: nat) {
    s.active && !(dst != 0 && s.tunIp != 0 && dst != s.tunIp)
  }

  ghost predicate DistinctTunIps(t: Table) {
    && (forall i :: 0 <= i < |t.slots| && t.slots[i].active ==> t.slots[i].tunIp != 0)
    && (forall i, j :: 0 <= i < j < |t.slots| && t.slots[i].active && t.slots[j].active ==> t.slots[i].tunIp != t.slots[j].tunIp)
  }

  // ---- The table in the server loop ----

  class SessionTable {
    const slots: array<Session>
    var count: nat

    ghost predicate Valid()
      reads this
    {
      slots.Length == MAX_CLIENTS && count <= MAX_CLIENTS
    }

    ghost function Value(): Table
      reads this, slots
    {
      Table(slots[..], count)
    }

    constructor ()
      ensures Valid() && fresh(slots) && Value() == Start()
    {
      slots := new Session[MAX_CLIENTS](_ => NO_SESSION);
      count := 0;
    }

    /** -1 when the address has no active session. */
    method SessionFind(ip: nat) returns (i: int)
      requires Valid()
      ensures i == if Find(Value(), ip) < count then Find(Value(), ip) else -1
    {
      i := 0;
      while i < count
        invariant 0 <= i <= count && Find(Value(), ip) == FindFrom(Value(), ip, i)
      {
        if slots[i].active && slots[i].ip == ip {
          return;
        }
        i := i + 1;
      }
      i := -1;
    }

    method CompleteHandshake(ip: nat, port: nat, keys: Keys, tunIp: nat, now: int)
      requires Valid()
      modifies this, slots
      ensures Valid() && Value() == Complete(old(Value()), ip, port, keys, tunIp, now)
    {
      var i := SessionFind(ip);
      if i < 0 && count < MAX_CLIENTS {
        i := count;
        count := count + 1;
        slots[i] := slots[i].(tunIp := tunIp);
      }
      if i >= 0 {
        slots[i] := slots[i].(ip := ip, port := port);
        slots[i] := slots[i].(keys := keys);
        slots[i] := slots[i].(lastSeen := now, active := true);
      }
    }

    /** The key a datagram is opened with; opens says whether it authenticates under a key. */
    method OnDatagram(ip: nat, port: nat, opens: Block -> bool, now: int) returns (key: Option<Block>)
      requires Valid()
      modifies slots
      ensures Valid()
      ensures var t := old(Value());
              var i := Find(t, ip);
              key == if i < t.count then Some(t.slots[i].keys.dec) else None
      ensures Value() == Datagram(old(Value()), ip, port, key.Some? && opens(key.value), now)
    {
      var i := SessionFind(ip);
      if i < 0 {
        return None;
      }
      if slots[i].port != port {
        slots[i] := slots[i].(port := port);
      }
      key := Some(slots[i].keys.dec);
      if opens(slots[i].keys.dec) {
        slots[i] := slots[i].(lastSeen := now);
      }
    }

    method CleanupPass(keepalive: int, now: int)
      requires Valid()
      modifies slots
      ensures Valid() && Value() == Cleanup(old(Value()), keepalive, now)
    {
      ghost var was := slots[..];
      for i := 0 to count
        invariant forall k :: 0 <= k < MAX_CLIENTS ==> slots[k] == if k < i then Tidied(was[k], keepalive, now) else was[k]
      {
        if slots[i].active {
          if keepalive > 0 && now - slots[i].lastSeen >= keepalive {
            slots[i] := slots[i].(lastSeen := now);
          }
          if now - slots[i].lastSeen > IDLE_LIMIT {
            slots[i] := NO_SESSION;
          }
        }
      }
    }

    /** The slots a packet is sent to, in order: every active session, unless packet and session
        both name an address and the addresses differ. When the sessions' addresses are
        distinct, a packet to one of them goes to that session and to no other. */
    method Route(dst: nat) returns (to: seq<nat>)
      requires Valid()
      ensures forall k :: 0 <= k < |to| ==> to[k] < count
      ensures forall i: nat :: i < count ==>
                (i in to <==> slots[i].active && (dst == 0 || slots[i].tunIp == 0 || slots[i].tunIp == dst))
      ensures forall k, l :: 0 <= k < l < |to| ==> to[k] < to[l]
      ensures forall i: nat :: i < count && dst != 0 && DistinctTunIps(Value()) && slots[i].active && slots[i].tunIp == dst ==> to == [i]
    {
      to := [];
      for i := 0 to count
        invariant forall k :: 0 <= k < |to| ==> to[k] < i
        invariant forall j: nat :: j < i ==> (j in to <==> Reaches(slots[j], dst))
        invariant forall k, l :: 0 <= k < l < |to| ==> to[k] < to[l]
      {
        if slots[i].active {
          if !(dst != 0 && slots[i].tunIp != 0 && dst != slots[i].tunIp) {
            to := to + [i];
          }
        }
      }
      forall i: nat | i < count && dst != 0 && DistinctTunIps(Value()) && slots[i].active && slots[i].tunIp == dst
        ensures to == [i]
      {
        OnlyThatSession(Value(), dst, i, to);
      }
    }
  }

  /** Increasing slots that are exactly those a packet reaches, when only slot i has its address. */
  lemma OnlyThatSession(t: Table, dst: nat, i: nat, to: seq<nat>)
    requires dst != 0 && DistinctTunIps(t) && t.count <= |t.slots| && i < t.count
    requires t.slots[i].active && t.slots[i].tunIp == dst
    requires forall k :: 0 <= k < |to| ==> to[k] < t.count
    requires forall j: nat :: j < t.count ==> (j in to <==> Reaches(t.slots[j], dst))
    requires forall k, l :: 0 <= k < l < |to| ==> to[k] < to[l]
    ensures to == [i]
  {
    assert |to| > 1 ==> to[0] < to[1];
    assert i in to;
    forall k | 0 <= k < |to| ensures to[k] == i {
      var j := to[k];
      assert j in to && Reaches(t.slots[j], dst);
    }
  }
}
