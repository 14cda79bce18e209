/** The per-address handshake rate limiter: 32 slots reused round-robin, five attempts per
    window of sixty seconds. */
module RateLimit {

  const MAX_IPS: nat := 32
  const MAX_ATTEMPTS: int := 5
  const WINDOW: int := 60
  const MAX_IP_CHARS: nat := 15   // the rest of a 16-byte buffer is the terminator

  datatype Entry = Entry(ip: string, count: int, start: int)

  datatype Limiter = Limiter(table: seq<Entry>, next: nat)

  predicate WellFormed(l: Limiter) {
    |l.table| == MAX_IPS && l.next < MAX_IPS
  }

  /** What an address string becomes in its slot. */
  function Stored(ip: string): string {
    if |ip| <= MAX_IP_CHARS then ip else ip[..MAX_IP_CHARS]
  }

  predicate ValidIp(ip: string) {
    0 < |ip| <= MAX_IP_CHARS
  }

  /** The first used slot that holds ip, or the table's length. */
  function Find(table: seq<Entry>, ip: string): (i: nat)
    ensures i <= |table|
    ensures i < |table| ==> table[i].ip != "" && table[i].ip == ip
    ensures forall j :: 0 <= j < i ==> table[j].ip == "" || table[j].ip != ip
  {
    FindFrom(table, ip, 0)
  }

  function FindFrom(table: seq<Entry>, ip: string, i: nat): (r: nat)
    requires i <= |table|
    ensures i <= r <= |table|
    ensures r < |table| ==> table[r].ip != "" && table[r].ip == ip
    ensures forall j :: i <= j < r ==> table[j].ip == "" || table[j].ip != ip
    decreases |table| - i
  {
    if i == |table| || (table[i].ip != "" && table[i].ip == ip) then i else FindFrom(table, ip, i + 1)
  }

  /** One call: the new table and whether the handshake may go on. */
  function Check(l: Limiter, ip: string, now: int): (r: (Limiter, bool))
    requires WellFormed(l)
    ensures WellFormed(r.0)
  {
    var i := Find(l.table, ip);
    if i < MAX_IPS then
      var e := l.table[i];
      if now - e.start > WINDOW then (l.(table := l.table[i := e.(count := 1, start := now)]), true)
      else (l.(table := l.table[i := e.(count := e.count + 1)]), e.count + 1 <= MAX_ATTEMPTS)
    else
      (Limiter(l.table[l.next := Entry(Stored(ip), 1, now)], (l.next + 1) % MAX_IPS), true)
  }

  class RateTable {
    const table: array<Entry>
    var next: nat

    ghost predicate Valid()
      reads this
    {
      table.Length == MAX_IPS && next < MAX_IPS
    }

    ghost function Value(): (l: Limiter)
      requires Valid()
      reads this, table
      ensures WellFormed(l)
    {
      Limiter(table[..], next)
    }

    constructor ()
      ensures Valid() && fresh(table) && Value() == Empty()
    {
      table := new Entry[MAX_IPS](_ => Entry("", 0, 0));
      next := 0;
    }

    method RateCheck(ip: string, now: int) returns (ok: bool)
      requires Valid()
      modifies this, table
      ensures Valid() && (Value(), ok) == Check(old(Value()), ip, now)
    {
      ghost var l := Value();
      var i := 0;
      while i < MAX_IPS
        invariant i <= MAX_IPS && Value() == l
        invariant Find(l.table, ip) == FindFrom(l.table, ip, i)
      {
        if table[i].ip != "" && table[i].ip == ip {
          var e := table[i];
          if now - e.start > WINDOW {
            table[i] := e.(count := 1, start := now);
            return true;
          }
          table[i] := e.(count := e.count + 1);
          return e.count + 1 <= MAX_ATTEMPTS;
        }
        i := i + 1;
      }
      table[next] := Entry(Stored(ip), 1, now);
      next := (next + 1) % MAX_IPS;
      ok := true;
    }
  }

  function Empty(): (l: Limiter)
    ensures WellFormed(l)
  {
    Limiter(seq(MAX_IPS, _ => Entry("", 0, 0)), 0)
  }

  // ---- Runs ----

  datatype Call = Call(ip: string, now: int)

  function Run(calls: seq<Call>): (l: Limiter)
    ensures WellFormed(l)
  {
    if calls == [] then Empty()
    else
      var last := calls[|calls| - 1];
      Check(Run(calls[..|calls| - 1]), last.ip, last.now).0
  }

  /** Approvals of address x at times t..t+60. */
  function ApprovalsIn(calls: seq<Call>, x: string, t: int): nat {
    if calls == [] then 0
    else
      var n := |calls| - 1;
      ApprovalsIn(calls[..n], x, t) +
      (if calls[n].ip == x && t <= calls[n].now <= t + WINDOW &&
          Check(Run(calls[..n]), calls[n].ip, calls[n].now).1 then 1 else 0)
  }

  // ---- One address on its own ----

  /** A window: when it started and the approvals in it, the first at its start. */
  datatype Win = Win(start: int, hits: seq<int>)

  /** The windows of one address so far, and the attempts in the last one. */
  datatype Track = Track(windows: seq<Win>, count: int)

  function Last(tr: Track): Win
    requires tr.windows != []
  {
    tr.windows[|tr.windows| - 1]
  }

  function Attempt(tr: Track, now: int): Track {
    if tr.windows == [] || now - Last(tr).start > WINDOW then Track(tr.windows + [Win(now, [now])], 1)
    else if tr.count + 1 <= MAX_ATTEMPTS then
      Track(tr.windows[|tr.windows| - 1 := Win(Last(tr).start, Last(tr).hits + [now])], tr.count + 1)
    else tr.(count := tr.count + 1)
  }

  function TrackOf(calls: seq<Call>, x: string): Track {
    if calls == [] then Track([], 0)
    else
      var before, last := TrackOf(calls[..|calls| - 1], x), calls[|calls| - 1];
      if last.ip == x then Attempt(before, last.now) else before
  }

  function Hits(hits: seq<int>, t: int): nat {
    if hits == [] then 0
    else Hits(hits[..|hits| - 1], t) + (if t <= hits[|hits| - 1] <= t + WINDOW then 1 else 0)
  }

  function HitsIn(windows: seq<Win>, t: int): nat {
    if windows == [] then 0
    else HitsIn(windows[..|windows| - 1], t) + Hits(windows[|windows| - 1].hits, t)
  }

  ghost predicate WinOk(w: Win) {
    && 1 <= |w.hits| <= MAX_ATTEMPTS && w.hits[0] == w.start
    && forall i :: 0 <= i < |w.hits| ==> w.start <= w.hits[i] <= w.start + WINDOW
  }

  /** At most five approvals a window, and window starts more than sixty seconds apart. */
  ghost predicate Spaced(windows: seq<Win>) {
    && (forall i :: 0 <= i < |windows| ==> WinOk(windows[i]))
    && (forall i, j :: 0 <= i < j < |windows| ==> windows[i].start + WINDOW < windows[j].start)
  }

  ghost predicate TrackOk(tr: Track) {
    && Spaced(tr.windows)
    && (tr.windows != [] ==> |Last(tr).hits| == if tr.count <= MAX_ATTEMPTS then tr.count else MAX_ATTEMPTS)
  }

  lemma AttemptKeeps(tr: Track, now: int)
    requires TrackOk(tr) && (tr.windows != [] ==> Last(tr).start <= now)
    ensures TrackOk(Attempt(tr, now))
  {
  }

  lemma {:induction false} HitsBound(hits: seq<int>, t: int)
    ensures Hits(hits, t) <= |hits|
    ensures |hits| > 0 && hits[0] < t ==> Hits(hits, t) <= |hits| - 1
    ensures (forall i :: 0 <= i < |hits| ==> hits[i] < t) ==> Hits(hits, t) == 0
    ensures (forall i :: 0 <= i < |hits| ==> hits[i] > t + WINDOW) ==> Hits(hits, t) == 0
    decreases |hits|
  {
    if hits != [] {
      HitsBound(hits[..|hits| - 1], t);
    }
  }

  lemma {:induction false} NoneBefore(windows: seq<Win>, t: int)
    requires Spaced(windows) && forall i :: 0 <= i < |windows| ==> windows[i].start + WINDOW < t
    ensures HitsIn(windows, t) == 0
    decreases |windows|
  {
    if windows != [] {
      NoneBefore(windows[..|windows| - 1], t);
      HitsBound(windows[|windows| - 1].hits, t);
    }
  }

  /** Any closed sixty-second interval meets at most two windows, and when it meets a
      second one it has missed the first one's opening approval. */
  lemma {:induction false} AtMostNine(windows: seq<Win>, t: int)
    requires Spaced(windows)
    ensures HitsIn(windows, t) <= 9
    decreases |windows|
  {
    if windows != [] {
      var n := |windows| - 1;
      var front, last := windows[..n], windows[n];
      HitsBound(last.hits, t);
      if Hits(last.hits, t) == 0 {
        AtMostNine(front, t);
      } else if n > 0 {
        var before := front[..n - 1];
        assert last.start <= t + WINDOW;
        assert windows[n - 1].start < t;
        HitsBound(windows[n - 1].hits, t);
        NoneBefore(before, t);
        assert front[n - 1] == windows[n - 1];
      }
    }
  }

  lemma AttemptHits(tr: Track, now: int, t: int)
    ensures HitsIn(Attempt(tr, now).windows, t) ==
            HitsIn(tr.windows, t) + (if AttemptApproved(tr, now) && t <= now <= t + WINDOW then 1 else 0)
  {
    var ws, n := Attempt(tr, now).windows, |tr.windows|;
    if n == 0 || now - Last(tr).start > WINDOW {
      assert ws[..n] == tr.windows && ws[n] == Win(now, [now]);
      assert Hits([now], t) == Hits([], t) + (if t <= now <= t + WINDOW then 1 else 0) by { assert [now][..0] == []; }
    } else if tr.count + 1 <= MAX_ATTEMPTS {
      var hits := Last(tr).hits;
      assert ws[..n - 1] == tr.windows[..n - 1];
      assert (hits + [now])[..|hits|] == hits;
    }
  }

  predicate AttemptApproved(tr: Track, now: int) {
    tr.windows == [] || now - Last(tr).start > WINDOW || tr.count + 1 <= MAX_ATTEMPTS
  }

  // ---- The table tracks every address, as long as they fit ----

  /** Calls in time order, from valid addresses in a set. */
  ghost predicate InOrder(calls: seq<Call>, ips: set<string>) {
    && (forall i :: 0 <= i < |calls| ==> calls[i].ip in ips && ValidIp(calls[i].ip))
    && (forall i, j :: 0 <= i < j < |calls| ==> calls[i].now <= calls[j].now)
  }

  /** And the set fits the table. */
  ghost predicate Orderly(calls: seq<Call>, ips: set<string>) {
    |ips| <= MAX_IPS && InOrder(calls, ips)
  }

  /** The first used slots are filled, one address each. */
  ghost predicate Layout(l: Limiter, used: nat)
    requires WellFormed(l)
  {
    && used <= MAX_IPS && l.next == used % MAX_IPS
    && (forall i :: 0 <= i < MAX_IPS ==> (l.table[i].ip != "" <==> i < used))
    && (forall i, j :: 0 <= i < j < used ==> l.table[i].ip != l.table[j].ip)
  }

  /** Each slot shows the current window of its address. */
  ghost predicate Accurate(l: Limiter, calls: seq<Call>, ips: set<string>, used: nat)
    requires WellFormed(l) && used <= MAX_IPS
  {
    forall i :: 0 <= i < used ==> l.table[i].ip in ips && Shows(l.table[i], TrackOf(calls, l.table[i].ip))
  }

  ghost predicate InTable(l: Limiter, used: nat, x: string) {
    exists i :: 0 <= i < used && i < |l.table| && l.table[i].ip == x
  }

  /** Every address that has called is in the table. */
  ghost predicate Complete(l: Limiter, calls: seq<Call>, used: nat) {
    forall x :: TrackOf(calls, x).windows != [] ==> InTable(l, used, x)
  }

  ghost predicate Matches(l: Limiter, calls: seq<Call>, ips: set<string>, used: nat)
    requires WellFormed(l)
  {
    Layout(l, used) && Accurate(l, calls, ips, used) && Complete(l, calls, used)
  }

  ghost predicate Shows(e: Entry, tr: Track) {
    tr.windows != [] && e.start == Last(tr).start && e.count == tr.count
  }

  function IpsOf(table: seq<Entry>): set<string> {
    set e | e in table :: e.ip
  }

  lemma {:induction false} DistinctIps(table: seq<Entry>)
    requires forall i, j :: 0 <= i < j < |table| ==> table[i].ip != table[j].ip
    ensures |IpsOf(table)| == |table|
    decreases |table|
  {
    if table != [] {
      var front, last := table[..|table| - 1], table[|table| - 1];
      DistinctIps(front);
      assert IpsOf(table) == IpsOf(front) + {last.ip};
    }
  }

  /** An address not in the table finds a slot that was never used. */
  lemma RoomForNewcomer(l: Limiter, calls: seq<Call>, ips: set<string>, used: nat, x: string)
    requires WellFormed(l) && Matches(l, calls, ips, used) && |ips| <= MAX_IPS
    requires x in ips && x != "" && Find(l.table, x) == MAX_IPS
    ensures used < MAX_IPS
  {
    if used == MAX_IPS {
      DistinctIps(l.table);
      SubsetSize(IpsOf(l.table), ips - {x});
    }
  }

  lemma {:induction false} SubsetSize(a: set<string>, b: set<string>)
    requires a <= b
    ensures |a| <= |b|
    decreases |a|
  {
    if a != {} {
      var y :| y in a;
      SubsetSize(a - {y}, b - {y});
    }
  }

  lemma TrackSnoc(calls: seq<Call>, c: Call, x: string)
    ensures TrackOf(calls + [c], x) == if c.ip == x then Attempt(TrackOf(calls, x), c.now) else TrackOf(calls, x)
  {
    assert (calls + [c])[..|calls|] == calls;
  }

  lemma TracksSnoc(calls: seq<Call>, c: Call)
    ensures forall x :: TrackOf(calls + [c], x) == if c.ip == x then Attempt(TrackOf(calls, x), c.now) else TrackOf(calls, x)
  {
    forall x ensures TrackOf(calls + [c], x) == if c.ip == x then Attempt(TrackOf(calls, x), c.now) else TrackOf(calls, x) {
      TrackSnoc(calls, c, x);
    }
  }

  lemma KnownAddress(l: Limiter, calls: seq<Call>, ips: set<string>, used: nat, c: Call)
    requires WellFormed(l) && Matches(l, calls, ips, used) && Find(l.table, c.ip) < MAX_IPS
    ensures Matches(Check(l, c.ip, c.now).0, calls + [c], ips, used)
    ensures Check(l, c.ip, c.now).1 == AttemptApproved(TrackOf(calls, c.ip), c.now)
  {
    hide Attempt, TrackOf;
    TracksSnoc(calls, c);
    AttemptShows(TrackOf(calls, c.ip), c.now);
    var l', k := Check(l, c.ip, c.now).0, Find(l.table, c.ip);
    assert k < used && Shows(l.table[k], TrackOf(calls, c.ip));
    assert SameIps(l, l');
    assert Layout(l', used);
    assert Accurate(l', calls + [c], ips, used);
    forall x | TrackOf(calls + [c], x).windows != [] ensures InTable(l', used, x) {
      assert TrackOf(calls, x).windows != [];
      SameIpsInTable(l, l', used, x);
    }
  }

  ghost predicate SameIps(l: Limiter, l': Limiter) {
    |l.table| == |l'.table| && forall i :: 0 <= i < |l.table| ==> l'.table[i].ip == l.table[i].ip
  }

  lemma SameIpsInTable(l: Limiter, l': Limiter, used: nat, x: string)
    requires SameIps(l, l') && InTable(l, used, x)
    ensures InTable(l', used, x)
  {
    var i :| 0 <= i < used && i < |l.table| && l.table[i].ip == x;
    assert l'.table[i].ip == x;
  }

  lemma NewSlotInTable(l: Limiter, used: nat, e: Entry, x: string)
    requires used < |l.table| && (x == e.ip || InTable(l, used, x))
    ensures InTable(l.(table := l.table[used := e]), used + 1, x)
  {
    var table := l.table[used := e];
    if x == e.ip {
      assert table[used].ip == x;
    } else {
      var i :| 0 <= i < used && i < |l.table| && l.table[i].ip == x;
      assert table[i].ip == x;
    }
  }

  lemma NewAddress(l: Limiter, calls: seq<Call>, ips: set<string>, used: nat, c: Call)
    requires WellFormed(l) && Matches(l, calls, ips, used) && used < MAX_IPS
    requires c.ip in ips && ValidIp(c.ip) && Find(l.table, c.ip) == MAX_IPS
    ensures Matches(Check(l, c.ip, c.now).0, calls + [c], ips, used + 1)
    ensures Check(l, c.ip, c.now).1 == AttemptApproved(TrackOf(calls, c.ip), c.now)
  {
    hide Attempt, TrackOf;
    TracksSnoc(calls, c);
    AttemptShows(TrackOf(calls, c.ip), c.now);
    var l', e := Check(l, c.ip, c.now).0, Entry(c.ip, 1, c.now);
    assert l'.table == l.table[used := e];
    assert !InTable(l, used, c.ip);
    assert TrackOf(calls, c.ip).windows == [];
    assert Layout(l', used + 1);
    assert Accurate(l', calls + [c], ips, used + 1);
    forall x | TrackOf(calls + [c], x).windows != [] ensures InTable(l', used + 1, x) {
      assert x == c.ip || InTable(l, used, x);
      NewSlotInTable(l, used, e, x);
    }
  }

  /** One call moves the table as it moves the track of its address, and answers alike. */
  lemma CheckMatches(l: Limiter, calls: seq<Call>, ips: set<string>, used: nat, c: Call) returns (used': nat)
    requires WellFormed(l) && Matches(l, calls, ips, used) && |ips| <= MAX_IPS
    requires c.ip in ips && ValidIp(c.ip)
    ensures Matches(Check(l, c.ip, c.now).0, calls + [c], ips, used')
    ensures Check(l, c.ip, c.now).1 == AttemptApproved(TrackOf(calls, c.ip), c.now)
  {
    hide Matches, Check;
    if Find(l.table, c.ip) < MAX_IPS {
      used' := used;
      KnownAddress(l, calls, ips, used, c);
    } else {
      RoomForNewcomer(l, calls, ips, used, c.ip);
      used' := used + 1;
      NewAddress(l, calls, ips, used, c);
    }
  }

  lemma AttemptShows(tr: Track, now: int)
    ensures var tr' := Attempt(tr, now);
            && tr'.windows != []
            && (tr.windows == [] || now - Last(tr).start > WINDOW ==> Last(tr').start == now && tr'.count == 1)
            && (tr.windows != [] && now - Last(tr).start <= WINDOW ==>
                  Last(tr').start == Last(tr).start && tr'.count == tr.count + 1)
  {
  }

  lemma {:induction false} RunMatches(calls: seq<Call>, ips: set<string>) returns (used: nat)
    requires Orderly(calls, ips)
    ensures Matches(Run(calls), calls, ips, used)
    decreases |calls|
  {
    if calls == [] {
      used := 0;
    } else {
      var front, c := calls[..|calls| - 1], calls[|calls| - 1];
      var u := RunMatches(front, ips);
      used := CheckMatches(Run(front), front, ips, u, c);
      assert front + [c] == calls;
    }
  }

  lemma {:induction false} TrackGood(calls: seq<Call>, x: string, now: int)
    requires forall i, j :: 0 <= i < j < |calls| ==> calls[i].now <= calls[j].now
    requires forall i :: 0 <= i < |calls| ==> calls[i].now <= now
    ensures TrackOk(TrackOf(calls, x)) && (TrackOf(calls, x).windows != [] ==> Last(TrackOf(calls, x)).start <= now)
    decreases |calls|
  {
    if calls != [] {
      var front, c := calls[..|calls| - 1], calls[|calls| - 1];
      TrackGood(front, x, c.now);
      if c.ip == x {
        AttemptKeeps(TrackOf(front, x), c.now);
        AttemptShows(TrackOf(front, x), c.now);
      }
    }
  }

  /** The approvals the table gives are those of the address's own windows. */
  lemma {:induction false} ApprovalsAreHits(calls: seq<Call>, ips: set<string>, x: string, t: int)
    requires Orderly(calls, ips)
    ensures ApprovalsIn(calls, x, t) == HitsIn(TrackOf(calls, x).windows, t)
    decreases |calls|
  {
    if calls != [] {
      var front, c := calls[..|calls| - 1], calls[|calls| - 1];
      ApprovalsAreHits(front, ips, x, t);
      var used := RunMatches(front, ips);
      var u := CheckMatches(Run(front), front, ips, used, c);
      AttemptHits(TrackOf(front, x), c.now, t);
    }
  }

  /** With at most 32 addresses, the table never holds an address twice, each window has at
      most five approvals, windows start more than sixty seconds apart, and any closed
      interval of sixty seconds holds at most nine approvals of one address. */
  lemma RateBound(calls: seq<Call>, ips: set<string>, x: string, t: int)
    requires Orderly(calls, ips)
    ensures var table := Run(calls).table;
            forall i, j :: 0 <= i < j < |table| && table[i].ip != "" ==> table[i].ip != table[j].ip
    ensures Spaced(TrackOf(calls, x).windows)
    ensures ApprovalsIn(calls, x, t) <= 9
  {
    var used := RunMatches(calls, ips);
    TrackGood(calls, x, if calls == [] then 0 else calls[|calls| - 1].now);
    ApprovalsAreHits(calls, ips, x, t);
    AtMostNine(TrackOf(calls, x).windows, t);
  }

  // ---- The bound is tight, and it needs the 32 ----

  /** One attempt, four more at the end of its window, five in the next second. */
  function NineCalls(x: string, s: int): seq<Call> {
    [Call(x, s), Call(x, s + 60), Call(x, s + 60), Call(x, s + 60), Call(x, s + 60),
     Call(x, s + 61), Call(x, s + 61), Call(x, s + 61), Call(x, s + 61), Call(x, s + 61)]
  }

  lemma {:induction false} TrackOfCalls(calls: seq<Call>, k: nat, x: string)
    requires k < |calls| && calls[k].ip == x
    ensures TrackOf(calls[..k + 1], x) == Attempt(TrackOf(calls[..k], x), calls[k].now)
  {
    TrackSnoc(calls[..k], calls[k], x);
    assert calls[..k] + [calls[k]] == calls[..k + 1];
  }

  lemma AnotherHit(earlier: seq<Win>, start: int, hits: seq<int>, count: int, now: int)
    requires now - start <= WINDOW && count < MAX_ATTEMPTS
    ensures Attempt(Track(earlier + [Win(start, hits)], count), now) ==
            Track(earlier + [Win(start, hits + [now])], count + 1)
  {
  }

  /** Four more attempts inside a window that has had one. */
  lemma FourMore(calls: seq<Call>, k: nat, x: string, earlier: seq<Win>, a: int, b: int)
    requires k + 4 <= |calls| && b - a <= WINDOW
    requires forall i :: k <= i < k + 4 ==> calls[i] == Call(x, b)
    requires TrackOf(calls[..k], x) == Track(earlier + [Win(a, [a])], 1)
    ensures TrackOf(calls[..k + 4], x) == Track(earlier + [Win(a, [a, b, b, b, b])], 5)
  {
    hide TrackOf, Attempt;
    TrackOfCalls(calls, k, x);
    TrackOfCalls(calls, k + 1, x);
    TrackOfCalls(calls, k + 2, x);
    TrackOfCalls(calls, k + 3, x);
    AnotherHit(earlier, a, [a], 1, b);
    AnotherHit(earlier, a, [a] + [b], 2, b);
    AnotherHit(earlier, a, [a] + [b] + [b], 3, b);
    AnotherHit(earlier, a, [a] + [b] + [b] + [b], 4, b);
    assert [a] + [b] + [b] + [b] + [b] == [a, b, b, b, b];
  }

  lemma NoCalls(calls: seq<Call>, x: string)
    requires calls == []
    ensures TrackOf(calls, x) == Track([], 0)
  {
  }

  lemma TwoWindows(x: string, s: int)
    ensures TrackOf(NineCalls(x, s), x).windows ==
            [Win(s, [s, s + 60, s + 60, s + 60, s + 60]), Win(s + 61, [s + 61, s + 61, s + 61, s + 61, s + 61])]
  {
    hide TrackOf;
    var calls := NineCalls(x, s);
    NoCalls(calls[..0], x);
    TrackOfCalls(calls, 0, x);
    assert [] + [Win(s, [s])] == [Win(s, [s])];
    FourMore(calls, 1, x, [], s, s + 60);
    var first := [Win(s, [s, s + 60, s + 60, s + 60, s + 60])];
    assert [] + first == first;
    TrackOfCalls(calls, 5, x);
    FourMore(calls, 6, x, first, s + 61, s + 61);
    assert calls[..10] == calls;
  }

  lemma HitsSnoc(hits: seq<int>, h: int, t: int)
    ensures Hits(hits + [h], t) == Hits(hits, t) + (if t <= h <= t + WINDOW then 1 else 0)
  {
    assert (hits + [h])[..|hits|] == hits;
  }

  lemma FiveHits(a: int, b: int, t: int)
    requires t <= b <= t + WINDOW
    ensures Hits([a, b, b, b, b], t) == 4 + (if t <= a <= t + WINDOW then 1 else 0)
  {
    hide Hits;
    assert Hits([], t) == 0 by { HitsBound([], t); }
    HitsSnoc([], a, t);
    HitsSnoc([a], b, t);
    HitsSnoc([a, b], b, t);
    HitsSnoc([a, b, b], b, t);
    HitsSnoc([a, b, b, b], b, t);
    assert [] + [a] == [a] && [a] + [b] == [a, b] && [a, b] + [b] == [a, b, b];
    assert [a, b, b] + [b] == [a, b, b, b] && [a, b, b, b] + [b] == [a, b, b, b, b];
  }

  /** Nine approvals within sixty seconds do happen, although a window allows five. */
  lemma NineIsReached(x: string, s: int)
    requires ValidIp(x)
    ensures Orderly(NineCalls(x, s), {x}) && ApprovalsIn(NineCalls(x, s), x, s + 1) == 9
  {
    hide TrackOf, Hits;
    ApprovalsAreHits(NineCalls(x, s), {x}, x, s + 1);
    TwoWindows(x, s);
    FiveHits(s, s + 60, s + 1);
    FiveHits(s + 61, s + 61, s + 1);
    var w1, w2 := Win(s, [s, s + 60, s + 60, s + 60, s + 60]), Win(s + 61, [s + 61, s + 61, s + 61, s + 61, s + 61]);
    assert [w1, w2][..1] == [w1] && [w1][..0] == [];
    assert HitsIn([w1], s + 1) == HitsIn([], s + 1) + Hits(w1.hits, s + 1);
  }

  function CallAll(l: Limiter, ips: seq<string>, now: int): (r: Limiter)
    requires WellFormed(l)
    ensures WellFormed(r)
  {
    if ips == [] then l else Check(CallAll(l, ips[..|ips| - 1], now), ips[|ips| - 1], now).0
  }

  /** How many slots slot i is ahead of the next one to be reused. */
  function Ahead(i: nat, next: nat): (r: nat)
    requires i < MAX_IPS && next < MAX_IPS
    ensures r < MAX_IPS
  {
    if i >= next then i - next else i + MAX_IPS - next
  }

  /** What slot i holds after new addresses have called. */
  function SlotAfter(l: Limiter, ips: seq<string>, now: int, i: nat): Entry
    requires WellFormed(l) && i < MAX_IPS
  {
    if Ahead(i, l.next) < |ips| then Entry(ips[Ahead(i, l.next)], 1, now) else l.table[i]
  }

  ghost predicate AreNew(l: Limiter, ips: seq<string>)
    requires WellFormed(l)
  {
    && (forall j :: 0 <= j < |ips| ==> ValidIp(ips[j]))
    && (forall i, j :: 0 <= i < j < |ips| ==> ips[i] != ips[j])
    && (forall i, j :: 0 <= i < MAX_IPS && 0 <= j < |ips| ==> l.table[i].ip != ips[j])
  }

  lemma {:induction false} NewcomersTakeSlots(l: Limiter, ips: seq<string>, now: int)
    requires WellFormed(l) && |ips| <= MAX_IPS && AreNew(l, ips)
    ensures var r := CallAll(l, ips, now);
            && r.next == (l.next + |ips|) % MAX_IPS
            && forall i :: 0 <= i < MAX_IPS ==> r.table[i] == SlotAfter(l, ips, now, i)
    decreases |ips|
  {
    hide Check, Ahead, SlotAfter, ValidIp;
    if ips == [] {
      forall i | 0 <= i < MAX_IPS ensures l.table[i] == SlotAfter(l, ips, now, i) {
        SlotStart(l, now, i);
      }
    } else {
      var n := |ips| - 1;
      NewcomersTakeSlots(l, ips[..n], now);
      var r := CallAll(l, ips[..n], now);
      forall i | 0 <= i < MAX_IPS ensures r.table[i].ip != ips[n] {
        SlotIsNot(l, ips, now, i);
      }
      assert ValidIp(ips[n]);
      Newcomer(r, ips[n], now);
      NextSlot(l.next, n);
      var r' := CallAll(l, ips, now);
      forall i | 0 <= i < MAX_IPS ensures r'.table[i] == SlotAfter(l, ips, now, i) {
        SlotStep(l, ips, now, i);
      }
    }
  }

  lemma SlotStart(l: Limiter, now: int, i: nat)
    requires WellFormed(l) && i < MAX_IPS
    ensures SlotAfter(l, [], now, i) == l.table[i]
  {
  }

  lemma SlotIsNot(l: Limiter, ips: seq<string>, now: int, i: nat)
    requires WellFormed(l) && 0 < |ips| <= MAX_IPS && AreNew(l, ips) && i < MAX_IPS
    ensures SlotAfter(l, ips[..|ips| - 1], now, i).ip != ips[|ips| - 1]
  {
    hide Ahead;
  }

  lemma SlotStep(l: Limiter, ips: seq<string>, now: int, i: nat)
    requires WellFormed(l) && 0 < |ips| <= MAX_IPS && i < MAX_IPS
    ensures var n := |ips| - 1;
            SlotAfter(l, ips, now, i) ==
            if i == (l.next + n) % MAX_IPS then Entry(ips[n], 1, now) else SlotAfter(l, ips[..n], now, i)
  {
  }

  lemma NextSlot(next: nat, n: nat)
    ensures ((next + n) % MAX_IPS + 1) % MAX_IPS == (next + n + 1) % MAX_IPS
  {
  }

  lemma Newcomer(l: Limiter, ip: string, now: int)
    requires WellFormed(l) && ValidIp(ip) && forall i :: 0 <= i < MAX_IPS ==> l.table[i].ip != ip
    ensures Check(l, ip, now) == (Limiter(l.table[l.next := Entry(ip, 1, now)], (l.next + 1) % MAX_IPS), true)
  {
  }

  /** Thirty-two new addresses make the table forget every other one, whose next attempt
      is then approved whatever it did before. */
  lemma NewcomersEvict(l: Limiter, ips: seq<string>, x: string, now: int)
    requires WellFormed(l) && |ips| == MAX_IPS && AreNew(l, ips) && x !in ips
    ensures Check(CallAll(l, ips, now), x, now).1
  {
    hide Ahead, AreNew;
    NewcomersTakeSlots(l, ips, now);
    var r := CallAll(l, ips, now);
    assert Find(r.table, x) == MAX_IPS;
  }

  /** Stored addresses always fit their buffer. */
  lemma {:induction false} StoredFit(calls: seq<Call>)
    ensures forall i :: 0 <= i < MAX_IPS ==> |Run(calls).table[i].ip| <= MAX_IP_CHARS
    decreases |calls|
  {
    if calls != [] {
      StoredFit(calls[..|calls| - 1]);
    }
  }

  /** So an address that does not fit is never recognised, and every attempt is approved. */
  lemma LongAddressesPass(calls: seq<Call>, ip: string, now: int)
    requires |ip| > MAX_IP_CHARS
    ensures Check(Run(calls), ip, now).1
  {
    hide Run;
    StoredFit(calls);
  }

  // ---- One address too many ----

  const TOO_MANY: nat := MAX_IPS + 1

  /** The first m calls when 33 addresses call in turn, all within one second. */
  function InTurn(ips: seq<string>, m: nat): seq<Call>
    requires |ips| == TOO_MANY
  {
    seq(m, i requires 0 <= i < m => Call(ips[i % TOO_MANY], 0))
  }

  ghost predicate Distinct(ips: seq<string>) {
    && (forall j :: 0 <= j < |ips| ==> ValidIp(ips[j]))
    && (forall i, j :: 0 <= i < j < |ips| ==> ips[i] != ips[j])
  }

  /** Slot i was last filled by call c, one of the last 32. */
  ghost predicate FilledBy(ip: string, ips: seq<string>, i: nat, m: nat, c: nat)
    requires |ips| == TOO_MANY
  {
    m - MAX_IPS <= c < m && c % MAX_IPS == i && ip == ips[c % TOO_MANY]
  }

  ghost predicate Filled(ip: string, ips: seq<string>, i: nat, m: nat)
    requires |ips| == TOO_MANY
  {
    exists c: nat :: FilledBy(ip, ips, i, m, c)
  }

  /** Every slot holds the address of one of the last 32 calls, or nothing yet. */
  ghost predicate LastCalls(l: Limiter, ips: seq<string>, m: nat)
    requires WellFormed(l) && |ips| == TOO_MANY
  {
    && l.next == m % MAX_IPS
    && forall i :: 0 <= i < MAX_IPS ==> l.table[i].ip == "" || Filled(l.table[i].ip, ips, i, m)
  }

  /** Equal remainders are a whole number of moduli apart. */
  lemma SameRemainder(c: nat, m: nat, k: nat) returns (q: int)
    requires k > 0
    ensures c % k == m % k ==> m - c == k * q
  {
    q := m / k - c / k;
    assert m == k * (m / k) + m % k && c == k * (c / k) + c % k;
  }

  lemma OtherAddress(c: nat, m: nat)
    requires m - MAX_IPS <= c < m
    ensures c % TOO_MANY != m % TOO_MANY
  {
    var q := SameRemainder(c, m, TOO_MANY);
  }

  lemma SameSlot(m: nat)
    requires m >= MAX_IPS
    ensures (m - MAX_IPS) % MAX_IPS == m % MAX_IPS
  {
  }

  /** The next address in turn is not in the table: it was called 33 calls ago. */
  lemma NotRemembered(l: Limiter, ips: seq<string>, m: nat, i: nat)
    requires WellFormed(l) && |ips| == TOO_MANY && Distinct(ips) && LastCalls(l, ips, m) && i < MAX_IPS
    ensures l.table[i].ip != ips[m % TOO_MANY]
  {
    assert ValidIp(ips[m % TOO_MANY]);
    if l.table[i].ip != "" {
      var c: nat :| FilledBy(l.table[i].ip, ips, i, m, c);
      OtherAddress(c, m);
      var a, b := c % TOO_MANY, m % TOO_MANY;
      assert a < b ==> ips[a] != ips[b];
      assert b < a ==> ips[b] != ips[a];
    }
  }

  lemma TurnKeepsLastCalls(l: Limiter, ips: seq<string>, m: nat)
    requires WellFormed(l) && |ips| == TOO_MANY && Distinct(ips) && LastCalls(l, ips, m)
    ensures var r := Check(l, ips[m % TOO_MANY], 0); r.1 && LastCalls(r.0, ips, m + 1)
  {
    hide Check, ValidIp;
    var ip := ips[m % TOO_MANY];
    assert ValidIp(ip);
    forall i | 0 <= i < MAX_IPS ensures l.table[i].ip != ip {
      NotRemembered(l, ips, m, i);
    }
    Newcomer(l, ip, 0);
    NextSlot(0, m);
    if m >= MAX_IPS {
      SameSlot(m);
    }
    var l' := Check(l, ip, 0).0;
    forall i | 0 <= i < MAX_IPS ensures l'.table[i].ip == "" || Filled(l'.table[i].ip, ips, i, m + 1) {
      if i == l.next {
        assert FilledBy(ip, ips, i, m + 1, m);
      } else if l.table[i].ip != "" {
        var c: nat :| FilledBy(l.table[i].ip, ips, i, m, c);
        assert c != m - MAX_IPS;
        assert FilledBy(l'.table[i].ip, ips, i, m + 1, c);
      }
    }
  }

  lemma InTurnSnoc(ips: seq<string>, m: nat)
    requires |ips| == TOO_MANY
    ensures InTurn(ips, m + 1)[..m] == InTurn(ips, m) && InTurn(ips, m + 1)[m] == Call(ips[m % TOO_MANY], 0)
  {
  }

  lemma CountStep(m: nat)
    ensures (m + 1 + MAX_IPS) / TOO_MANY == (m + MAX_IPS) / TOO_MANY + (if m % TOO_MANY == 0 then 1 else 0)
  {
  }

  lemma FirstOfTurn(ips: seq<string>, m: nat)
    requires |ips| == TOO_MANY && Distinct(ips)
    ensures ips[m % TOO_MANY] == ips[0] <==> m % TOO_MANY == 0
  {
    var j := m % TOO_MANY;
    assert j > 0 ==> ips[0] != ips[j];
  }

  /** Every call in turn is approved, however often the turn comes round. */
  lemma {:induction false} AllApproved(ips: seq<string>, m: nat)
    requires |ips| == TOO_MANY && Distinct(ips)
    ensures LastCalls(Run(InTurn(ips, m)), ips, m)
    ensures ApprovalsIn(InTurn(ips, m), ips[0], 0) == (m + MAX_IPS) / TOO_MANY
  {
    hide Check, LastCalls, Distinct;
    if m == 0 {
      EmptyTable(ips);
    } else {
      AllApproved(ips, m - 1);
      InTurnSnoc(ips, m - 1);
      TurnKeepsLastCalls(Run(InTurn(ips, m - 1)), ips, m - 1);
      CountStep(m - 1);
      FirstOfTurn(ips, m - 1);
    }
  }

  lemma EmptyTable(ips: seq<string>)
    requires |ips| == TOO_MANY
    ensures LastCalls(Empty(), ips, 0)
  {
  }

  lemma {:induction false} Listed(ips: set<string>, n: nat) returns (s: seq<string>)
    requires n <= |ips|
    ensures |s| == n && (forall i :: 0 <= i < n ==> s[i] in ips)
    ensures forall i, j :: 0 <= i < j < n ==> s[i] != s[j]
    decreases n
  {
    if n == 0 {
      s := [];
    } else {
      var x :| x in ips;
      var rest := Listed(ips - {x}, n - 1);
      s := [x] + rest;
    }
  }

  /** The exact condition: for a set of valid addresses, every run in time order keeps to nine
      approvals per address and minute if and only if the set has at most 32 members. */
  lemma BoundExactly(ips: set<string>)
    requires forall x :: x in ips ==> ValidIp(x)
    ensures |ips| <= MAX_IPS <==>
            forall calls, x, t :: InOrder(calls, ips) ==> ApprovalsIn(calls, x, t) <= 9
  {
    hide InOrder, ApprovalsIn;
    if |ips| <= MAX_IPS {
      forall calls, x, t | InOrder(calls, ips) ensures ApprovalsIn(calls, x, t) <= 9 {
        RateBound(calls, ips, x, t);
      }
    } else {
      var s := Listed(ips, TOO_MANY);
      var calls := InTurn(s, 10 * TOO_MANY);
      AllApproved(s, 10 * TOO_MANY);
      TurnsInOrder(s, ips, 10 * TOO_MANY);
      assert ApprovalsIn(calls, s[0], 0) == 10;
    }
  }

  lemma TurnsInOrder(s: seq<string>, ips: set<string>, m: nat)
    requires |s| == TOO_MANY && Distinct(s) && forall i :: 0 <= i < |s| ==> s[i] in ips
    ensures InOrder(InTurn(s, m), ips)
  {
  }
}
