/** What a control frame that send did not accept whole does to the data behind it. */
module TunnelCuts {
  import opened Bytes
  import opened Aes
  import opened Frames
  import FS = FrameStream
  import opened TunnelSteps
  import opened TunnelDelivery

  function DataFrame(d: bytes): Frame {
    Frame(DATA, FLAG_NONE, d)
  }

  /** A frame that can follow a cut keepalive: data, another keepalive, or CLOSE. */
  ghost predicate CanFollow(f: Frame) {
    || (f.kind == DATA && f.flags == FLAG_NONE && 0 < |f.payload| <= MAX_PAYLOAD)
    || f == Control(KEEPALIVE) || f == Control(CLOSE)
  }

  /** The steps in which a sends it whole. */
  function Sends(f: Frame): seq<(bool, Action)> {
    var w := HEADER_LEN + |f.payload| + TAG_LEN;
    if f.kind == DATA then [(true, ReadPlain(f.payload)), (true, Flush(w))]
    else if f.kind == KEEPALIVE then [(true, Keepalive(w))]
    else [(true, PlainEof(w))]
  }

  /** b receives what its buffer holds of n bytes and tries to extract a frame. */
  function Hears(n: nat): seq<(bool, Action)> {
    [(false, Receive(FS.Min(n, MAX_WIRE))), (false, ExtractNext(MAX_PAYLOAD))]
  }

  /** a's keepalive gets k bytes out, a sends f whole behind it, and b reads. */
  function CutSchedule(k: nat, f: Frame): seq<(bool, Action)> {
    [(true, Keepalive(k))] + Sends(f) + Hears(k + HEADER_LEN + |f.payload| + TAG_LEN)
  }

  /** Both sides run, everything a has sent so far was whole and has been taken, and neither
      counter is near its limit. */
  ghost predicate Quiet(s: System) {
    && Invariant(s) && s.a.running && s.b.running && s.ab == []
    && s.a.tx.outbox == [] && s.a.tx.cut.None? && !s.a.tx.garbled
    && s.b.rx.waiting && s.b.rx.nonce == s.a.tx.nonce && s.a.tx.nonce < NONCE_LIMIT - REKEY_MARGIN
  }

  /** Every run starts like that. */
  lemma BeginIsQuiet(keyAB: Block, keyBA: Block, startAB: nat, startBA: nat)
    requires startAB < NONCE_LIMIT - REKEY_MARGIN && startBA <= NONCE_LIMIT
    ensures Quiet(Begin(keyAB, keyBA, startAB, startBA))
  {
    BeginHolds(keyAB, keyBA, startAB, startBA);
  }

  /** In a quiet state nothing is buffered and everything read has been written. */
  lemma QuietFacts(s: System)
    requires Quiet(s)
    ensures s.b.rx.pending == [] && s.b.rx.end == Open && s.b.rx.key == s.a.tx.key
    ensures s.b.rx.written == s.a.tx.read
  {
    hide FS.Wire, FS.Extract, Plain;
    var tx, rx := s.a.tx, s.b.rx;
    assert Linked(tx, s.ab, rx);
    assert Delivered(tx, rx) == |tx.sent|;
    assert tx.sent[|tx.sent|..] == [] && tx.sent[..|tx.sent|] == tx.sent;
    assert rx.pending + s.ab + tx.outbox == [];
  }

  /** The bytes on the wire: the accepted part of the keepalive, then the frame behind it,
      which was built under the next counter. */
  function OnWire(key: Block, n: nat, k: nat, f: Frame): bytes
    requires |f.payload| <= MAX_PAYLOAD
  {
    var c := FS.Wire(Control(KEEPALIVE), n, key);
    c[..FS.Min(k, |c|)] + FS.Wire(f, n + 1, key)
  }

  /** The receiver before its extraction turn. */
  function Heard(rx: Receiver, k: nat, f: Frame): Receiver
    requires |f.payload| <= MAX_PAYLOAD
  {
    var all := OnWire(rx.key, rx.nonce, k, f);
    rx.(pending := all[..FS.Min(|all|, MAX_WIRE)], waiting := false)
  }

  lemma WireFields(f: Frame, counter: nat, key: Block)
    requires |f.payload| <= MAX_PAYLOAD
    ensures var w := FS.Wire(f, counter, key);
            && |w| == HEADER_LEN + |f.payload| + TAG_LEN && w[0] == f.kind && w[1] == f.flags
            && PayloadLen(w) == |f.payload|
  {
    hide Build;
    BuiltParses(f, counter, key);
    StartsWithKind(f, counter, key);
  }

  lemma StartsWithKind(f: Frame, counter: nat, key: Block)
    requires |f.payload| <= MAX_PAYLOAD
    ensures var w := FS.Wire(f, counter, key); |w| >= HEADER_LEN && w[0] == f.kind && w[1] == f.flags
  {
    hide Aegis.Encrypt;
  }

  // ---- The schedule, step by step ----

  lemma KeepaliveCut(s: System, k: nat)
    requires s.a.running && s.a.tx.outbox == [] && s.a.tx.cut.None? && s.ab == []
    requires k < HEADER_LEN + TAG_LEN && s.a.tx.nonce < NONCE_LIMIT
    ensures var c := FS.Wire(Control(KEEPALIVE), s.a.tx.nonce, s.a.tx.key);
            && |c| > k
            && SystemStep(s, true, Keepalive(k)) ==
               s.(a := s.a.(tx := s.a.tx.(nonce := s.a.tx.nonce + 1, cut := Some(c[..k]))), ab := c[..k])
  {
    hide FS.Wire, FS.Extract;
    WireFields(Control(KEEPALIVE), s.a.tx.nonce, s.a.tx.key);
    assert [] + ControlBytes(s.a.tx, KEEPALIVE, k) == ControlBytes(s.a.tx, KEEPALIVE, k);
  }

  lemma FrameOut(s: System, f: Frame)
    requires s.a.running && s.a.tx.outbox == [] && s.a.tx.nonce < NONCE_LIMIT && CanFollow(f)
    ensures var t := Runs(s, Sends(f));
            && t.b == s.b && t.ba == s.ba && t.a.tx.outbox == []
            && t.a.tx.read == s.a.tx.read + (if f.kind == DATA then f.payload else [])
            && t.ab == s.ab + FS.Wire(f, s.a.tx.nonce, s.a.tx.key)
  {
    hide FS.Wire, FS.Extract, Runs;
    WireFields(f, s.a.tx.nonce, s.a.tx.key);
    var c := Sends(f);
    if f.kind == DATA {
      assert f == DataFrame(f.payload);
      assert c == [c[0]] + [c[1]];
      RunsAppend(s, [c[0]], [c[1]]);
      OneStep(s, c[0]);
      OneStep(SystemStep(s, true, c[0].1), c[1]);
    } else {
      assert c == [c[0]];
      OneStep(s, c[0]);
      assert s.a.tx.read + [] == s.a.tx.read;
    }
  }

  lemma HearingSteps(s: System, n: nat)
    requires s.b.running && s.b.rx.waiting && s.b.rx.pending == [] && n == |s.ab| > 0
    ensures var m := FS.Min(n, MAX_WIRE);
            var t := Runs(s, Hears(n));
            && t.a == s.a && t.ab == s.ab[m..]
            && t.b.rx == ExtractOne(s.b.rx.(pending := s.ab[..m], waiting := false), MAX_PAYLOAD)
  {
    hide FS.Extract, Runs, ExtractOne;
    var c, m := Hears(n), FS.Min(n, MAX_WIRE);
    assert c == [c[0]] + [c[1]];
    RunsAppend(s, [c[0]], [c[1]]);
    OneStep(s, c[0]);
    OneStep(SystemStep(s, false, c[0].1), c[1]);
    assert [] + s.ab[..m] == s.ab[..m];
  }

  lemma Hearing(s: System, k: nat, f: Frame)
    requires Quiet(s) && k < HEADER_LEN + TAG_LEN && CanFollow(f)
    ensures var t, all := Runs(s, CutSchedule(k, f)), OnWire(s.b.rx.key, s.b.rx.nonce, k, f);
            && all == Heard(s.b.rx, k, f).pending + t.ab && t.a.tx.outbox == []
            && t.a.tx.read == s.a.tx.read + (if f.kind == DATA then f.payload else [])
            && t.b.rx == ExtractOne(Heard(s.b.rx, k, f), MAX_PAYLOAD)
            && |all| == k + HEADER_LEN + |f.payload| + TAG_LEN
  {
    hide FS.Wire, FS.Extract, Runs, ExtractOne, SystemStep, Invariant, Sends, Hears;
    QuietFacts(s);
    var n := k + HEADER_LEN + |f.payload| + TAG_LEN;
    var first := [(true, Keepalive(k))];
    var t := SystemStep(s, true, Keepalive(k));
    KeepaliveCut(s, k);
    WireFields(f, s.a.tx.nonce + 1, s.a.tx.key);
    FrameOut(t, f);
    var u := Runs(t, Sends(f));
    HearingSteps(u, n);
    OneStep(s, first[0]);
    RunsAppend(s, first + Sends(f), Hears(n));
    RunsAppend(s, first, Sends(f));
  }

  // ---- What the receiver takes for the header ----

  lemma SmallNums()
    ensures Num(0) == 0 && Num(DATA) == 2 && Num(KEEPALIVE) == 3 && Num(CLOSE) == 4
  {
    assert Num(2) == 1 + Num(1) && Num(1) == 1 + Num(0);
    assert Num(4) == 1 + Num(3) && Num(3) == 1 + Num(2);
  }

  /** The payload length the receiver reads when k bytes of the keepalive came first. */
  function Misread(k: nat, f: Frame): nat {
    if k == 1 then |f.payload| / 256 else if k == 2 then 256 * Num(f.kind) else if k == 3 then Num(f.kind) else 0
  }

  lemma MisreadHeader(rx: Receiver, k: nat, f: Frame)
    requires 0 < k < HEADER_LEN + TAG_LEN && CanFollow(f)
    ensures var p := Heard(rx, k, f).pending;
            && |p| == FS.Min(k + HEADER_LEN + |f.payload| + TAG_LEN, MAX_WIRE) && p[0] == KEEPALIVE
            && PayloadLen(p) == Misread(k, f)
  {
    hide FS.Wire, Num, PayloadLen;
    var c, w := FS.Wire(Control(KEEPALIVE), rx.nonce, rx.key), FS.Wire(f, rx.nonce + 1, rx.key);
    WireFields(Control(KEEPALIVE), rx.nonce, rx.key);
    WireFields(f, rx.nonce + 1, rx.key);
    var p := Heard(rx, k, f).pending;
    assert p[..4] == (c[..k] + w)[..4];
    LengthBytes(c);
    LengthBytes(w);
    LengthBytes(p);
    SmallNums();
    NumBound(w[3]);
    ZeroNum(c[2]);
    ZeroNum(c[3]);
    HeaderByte(c, w, k, 0);
    HeaderByte(c, w, k, 2);
    HeaderByte(c, w, k, 3);
    assert p[0] == p[..4][0] && p[2] == p[..4][2] && p[3] == p[..4][3];
  }

  lemma ZeroNum(b: byte)
    ensures Num(b) == 0 <==> b == 0
  {
  }

  lemma HeaderByte(c: bytes, w: bytes, k: nat, i: nat)
    requires k <= |c| && i < k + |w|
    ensures (c[..k] + w)[i] == if i < k then c[i] else w[i - k]
  {
  }

  // ---- What comes of it ----

  /** Some frame has exactly these bytes under this counter. */
  ghost predicate IsFrame(p: bytes, counter: nat, key: Block) {
    exists f: Frame :: |f.payload| <= MAX_PAYLOAD && FS.Wire(f, counter, key) == p
  }

  /** A turn on bytes that begin with the kind of a keepalive writes nothing. It waits for the
      announced length, and then fails exactly when no frame has these bytes. */
  lemma KeepaliveTurn(rx: Receiver, room: nat)
    requires |rx.pending| >= HEADER_LEN && rx.pending[0] == KEEPALIVE && !rx.waiting && rx.end == Open
    requires rx.nonce < NONCE_LIMIT - REKEY_MARGIN
    ensures var r, n := ExtractOne(rx, room), HEADER_LEN + PayloadLen(rx.pending) + TAG_LEN;
            && r.written == rx.written
            && (r.waiting <==> |rx.pending| < n)
            && (r.end == AuthFailed <==> |rx.pending| >= n && !IsFrame(rx.pending[..n], rx.nonce, rx.key))
            && (r.end == Open || r.end == AuthFailed)
  {
    hide Build, Parse, PayloadLen;
    var n := HEADER_LEN + PayloadLen(rx.pending) + TAG_LEN;
    if |rx.pending| >= n {
      var p := rx.pending[..n];
      var r := Parse(p, rx.nonce, rx.key);
      if r.Some? {
        ParseKeepsFields(p, rx.nonce, rx.key);
        ParsedBuilds(p, rx.nonce, rx.key);
        BuildFails(r.value, rx.nonce, rx.key);
        assert FS.Wire(r.value, rx.nonce, rx.key) == p;
      } else if IsFrame(p, rx.nonce, rx.key) {
        var f: Frame :| |f.payload| <= MAX_PAYLOAD && FS.Wire(f, rx.nonce, rx.key) == p;
        BuildFails(f, rx.nonce, rx.key);
        ParseExact(p, f, rx.nonce, rx.key);
      }
    }
  }

  /** From any quiet state: when 1 to 19 bytes of a keepalive get out and another frame follows,
      the receiver reads a keepalive of a length it was never given and writes nothing. It
      waits exactly when that length exceeds what is there, and otherwise fails exactly when
      the bytes it reads are no frame under the counter it expects. */
  lemma CutControlOutcome(s: System, k: nat, f: Frame)
    requires Quiet(s) && 0 < k < HEADER_LEN + TAG_LEN && CanFollow(f)
    ensures var t := Runs(s, CutSchedule(k, f));
            var all, n := OnWire(s.b.rx.key, s.b.rx.nonce, k, f), HEADER_LEN + Misread(k, f) + TAG_LEN;
            && t.a.tx.outbox == [] && t.a.tx.read == s.a.tx.read + (if f.kind == DATA then f.payload else [])
            && t.b.rx.written == s.a.tx.read
            && (t.b.rx.end == Open || t.b.rx.end == AuthFailed)
            && (t.b.rx.waiting <==> Misread(k, f) > k + |f.payload|)
            && (t.b.rx.end == AuthFailed <==> n <= |all| && !IsFrame(all[..n], s.b.rx.nonce, s.b.rx.key))
  {
    hide FS.Wire, Runs, ExtractOne, OnWire, PayloadLen, IsFrame, Invariant, Num;
    QuietFacts(s);
    Hearing(s, k, f);
    MisreadHeader(s.b.rx, k, f);
    MisreadFits(k, f);
    var rx, all, n := Heard(s.b.rx, k, f), OnWire(s.b.rx.key, s.b.rx.nonce, k, f), HEADER_LEN + Misread(k, f) + TAG_LEN;
    KeepaliveTurn(rx, MAX_PAYLOAD);
    if n <= |rx.pending| {
      assert rx.pending[..n] == all[..n];
    }
  }

  /** A buffer that is full holds more than any length that can be misread. */
  lemma MisreadFits(k: nat, f: Frame)
    requires CanFollow(f)
    ensures HEADER_LEN + Misread(k, f) + TAG_LEN <= MAX_WIRE
  {
    hide Num;
    SmallNums();
  }

  /** With data behind the cut, the receiver waits only after two bytes, and only while fewer
      than 510 bytes of data follow. */
  lemma WaitsExactly(k: nat, d: bytes)
    requires 0 < k < HEADER_LEN + TAG_LEN && 0 < |d| <= MAX_PAYLOAD
    ensures Misread(k, DataFrame(d)) > k + |d| <==> k == 2 && |d| < 510
  {
    hide Num;
    SmallNums();
  }

  /** From the fourth byte on the length is right, and the test is whether the frame behind
      happens to begin with the rest of the keepalive. */
  lemma CutBehindHeader(s: System, k: nat, f: Frame)
    requires Quiet(s) && HEADER_LEN <= k < HEADER_LEN + TAG_LEN && CanFollow(f)
    ensures var t := Runs(s, CutSchedule(k, f));
            var c, w := FS.Wire(Control(KEEPALIVE), s.b.rx.nonce, s.b.rx.key), FS.Wire(f, s.b.rx.nonce + 1, s.b.rx.key);
            && |c| == HEADER_LEN + TAG_LEN
            && t.b.rx.written == s.a.tx.read
            && (t.b.rx.end == AuthFailed <==> !(c[k..] <= w))
  {
    hide FS.Wire, Runs, IsFrame, OnWire, Invariant;
    var n, key, counter := HEADER_LEN + TAG_LEN, s.b.rx.key, s.b.rx.nonce;
    var c, w := FS.Wire(Control(KEEPALIVE), counter, key), FS.Wire(f, counter + 1, key);
    CutControlOutcome(s, k, f);
    WireFields(Control(KEEPALIVE), counter, key);
    WireFields(f, counter + 1, key);
    var p := c[..k] + w[..n - k];
    FrontOfWire(key, counter, k, f);
    OnlyTheKeepalive(p, counter, key);
    assert c == c[..k] + c[k..];
    if p == c {
      assert w[..n - k] == p[k..] == c[k..];
    }
  }

  lemma FrontOfWire(key: Block, counter: nat, k: nat, f: Frame)
    requires HEADER_LEN <= k < HEADER_LEN + TAG_LEN && |f.payload| <= MAX_PAYLOAD
    ensures var n := HEADER_LEN + TAG_LEN;
            var c, w := FS.Wire(Control(KEEPALIVE), counter, key), FS.Wire(f, counter + 1, key);
            && |c| == n && |w| >= n && |OnWire(key, counter, k, f)| >= n
            && OnWire(key, counter, k, f)[..n] == c[..k] + w[..n - k]
  {
    hide FS.Wire;
    WireFields(Control(KEEPALIVE), counter, key);
    WireFields(f, counter + 1, key);
  }

  /** Twenty bytes that begin like a keepalive header are a frame exactly when they are the
      keepalive. */
  lemma OnlyTheKeepalive(p: bytes, counter: nat, key: Block)
    requires |p| == HEADER_LEN + TAG_LEN && p[..HEADER_LEN] == FS.Wire(Control(KEEPALIVE), counter, key)[..HEADER_LEN]
    ensures IsFrame(p, counter, key) <==> p == FS.Wire(Control(KEEPALIVE), counter, key)
  {
    hide FS.Wire;
    var c := FS.Wire(Control(KEEPALIVE), counter, key);
    WireFields(Control(KEEPALIVE), counter, key);
    if IsFrame(p, counter, key) {
      var f: Frame :| |f.payload| <= MAX_PAYLOAD && FS.Wire(f, counter, key) == p;
      WireFields(f, counter, key);
      assert p[0] == p[..HEADER_LEN][0] && p[1] == p[..HEADER_LEN][1];
      assert f == Control(KEEPALIVE);
    }
  }

  /** In particular, from every quiet state and so under every key: with two bytes of a
      keepalive out, up to 509 bytes of data are not written although nothing is left on the
      way and the receiver waits. */
  lemma CutControlLosesData(s: System, d: bytes)
    requires Quiet(s) && 0 < |d| < 510
    ensures var t := Runs(s, CutSchedule(2, DataFrame(d)));
            && t.ab == [] && t.a.tx.outbox == [] && t.b.rx.waiting && t.b.rx.end == Open
            && t.a.tx.read == s.a.tx.read + d && t.b.rx.written == s.a.tx.read
  {
    hide FS.Wire, Runs, ExtractOne, IsFrame, OnWire, Invariant, Misread, Sends, Hears, CutSchedule;
    Hearing(s, 2, DataFrame(d));
    WaitsExactly(2, d);
    CutControlOutcome(s, 2, DataFrame(d));
    TooShort(s.b.rx, d);
  }

  lemma TooShort(rx: Receiver, d: bytes)
    requires 0 < |d| < 510
    ensures |OnWire(rx.key, rx.nonce, 2, DataFrame(d))| < HEADER_LEN + Misread(2, DataFrame(d)) + TAG_LEN
    ensures |Heard(rx, 2, DataFrame(d)).pending| == |OnWire(rx.key, rx.nonce, 2, DataFrame(d))|
  {
    hide FS.Wire, Num;
    SmallNums();
    WireFields(Control(KEEPALIVE), rx.nonce, rx.key);
    WireFields(DataFrame(d), rx.nonce + 1, rx.key);
  }

  /** When nothing of the keepalive gets out, its counter is spent all the same, and the next
      data arrives exactly when both counters happen to give the same bytes. */
  lemma SkippedControl(s: System, d: bytes)
    requires Quiet(s) && 0 < |d| <= MAX_PAYLOAD
    ensures var t := Runs(s, CutSchedule(0, DataFrame(d)));
            && t.ab == [] && t.a.tx.outbox == [] && t.a.tx.read == s.a.tx.read + d
            && (t.b.rx.written == t.a.tx.read <==>
                FS.Wire(DataFrame(d), s.b.rx.nonce + 1, s.b.rx.key) == FS.Wire(DataFrame(d), s.b.rx.nonce, s.b.rx.key))
  {
    hide Runs, FS.Wire, ExtractOne, Invariant, Sends, Hears, CutSchedule;
    QuietFacts(s);
    Hearing(s, 0, DataFrame(d));
    var rx, w := s.b.rx, FS.Wire(DataFrame(d), s.b.rx.nonce + 1, s.b.rx.key);
    WireFields(DataFrame(d), rx.nonce + 1, rx.key);
    assert [] + w == w && w[..|w|] == w && w[|w|..] == [];
    AcceptedExactly(w, rx.(pending := w, waiting := false), d);
  }

  /** A buffer the size of a data frame is taken as that data exactly when it is that frame. */
  lemma AcceptedExactly(w: bytes, rx: Receiver, d: bytes)
    requires 0 < |d| <= MAX_PAYLOAD && |w| == HEADER_LEN + |d| + TAG_LEN
    requires w[0] == DATA && w[1] == FLAG_NONE && PayloadLen(w) == |d|
    requires rx.pending == w && rx.nonce < NONCE_LIMIT - REKEY_MARGIN
    ensures ExtractOne(rx, MAX_PAYLOAD).written == rx.written + d <==> w == FS.Wire(DataFrame(d), rx.nonce, rx.key)
  {
    hide Build, Parse, PayloadLen;
    var f := DataFrame(d);
    assert w[..|w|] == w;
    BuildFails(f, rx.nonce, rx.key);
    ParseExact(w, f, rx.nonce, rx.key);
    var p := Parse(w, rx.nonce, rx.key);
    assert |rx.written + d| > |rx.written|;
    if p.Some? {
      ParseKeepsFields(w, rx.nonce, rx.key);
      assert p == Some(f) <==> p.value.payload == d;
      assert FS.Extract(w, rx.nonce, rx.key) == FS.Got(p.value, |w|);
      assert DATA != CLOSE && DATA != KEEPALIVE && DATA != KEYCONFIRM && DATA != REKEY;
      assert (rx.written + p.value.payload)[|rx.written|..] == p.value.payload && (rx.written + d)[|rx.written|..] == d;
    }
  }

  lemma ParseKeepsFields(buf: bytes, counter: nat, key: Block)
    requires Parse(buf, counter, key).Some?
    ensures |buf| >= HEADER_LEN && var f := Parse(buf, counter, key).value;
            f.kind == buf[0] && f.flags == buf[1] && |f.payload| == PayloadLen(buf)
  {
    hide Aegis.Decrypt;
    ParsedBuilds(buf, counter, key);
    BuildFails(Parse(buf, counter, key).value, counter, key);
    BuiltParses(Parse(buf, counter, key).value, counter, key);
  }
}
