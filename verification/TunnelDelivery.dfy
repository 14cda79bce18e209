/** Delivery through the tunnel: two endpoints, two byte channels, and every interleaving of
    reads, partial sends, keepalives, fragmented receives and frame extraction within one
    key epoch. */
module TunnelDelivery {
  import opened Bytes
  import opened Aes
  import opened Frames
  import opened FrameStream
  import opened TunnelSteps

  // ---- Each step keeps a direction linked ----

  lemma PlainSnoc(frames: seq<Frame>, f: Frame)
    ensures Plain(frames + [f]) == Plain(frames) + (if f.kind == DATA then f.payload else [])
  {
    assert (frames + [f])[..|frames|] == frames;
  }

  lemma DropSnoc(frames: seq<Frame>, f: Frame, k: nat)
    requires k <= |frames|
    ensures (frames + [f])[k..] == frames[k..] + [f] && (frames + [f])[..k] == frames[..k]
  {
  }

  lemma OutputSnoc(tx: Sender, tx': Sender, rx: Receiver, f: Frame)
    requires 0 <= Delivered(tx, rx) <= |tx.sent| && Output(tx, rx)
    requires tx'.sent == tx.sent + [f] && tx'.start == tx.start
    ensures Output(tx', rx)
  {
    DropSnoc(tx.sent, f, Delivered(tx, rx));
  }

  /** A frame built under the next counter joins the stream behind everything before it. */
  lemma BuildKeeps(tx: Sender, channel: bytes, rx: Receiver, f: Frame)
    requires Linked(tx, channel, rx) && Ordinary(tx.sent + [f]) && |f.payload| <= MAX_PAYLOAD
    requires tx.outbox == [] && tx.cut.None? && tx.nonce < NONCE_LIMIT
    ensures Linked(tx.(nonce := tx.nonce + 1, outbox := Wire(f, tx.nonce, tx.key), sent := tx.sent + [f],
                       read := Plain(tx.sent + [f])), channel, rx)
  {
    hide Wire, Encode, Plain, Output, Ordinary;
    var k, w := Delivered(tx, rx), Wire(f, tx.nonce, tx.key);
    var tx' := tx.(nonce := tx.nonce + 1, outbox := w, sent := tx.sent + [f], read := Plain(tx.sent + [f]));
    DropSnoc(tx.sent, f, k);
    OutputSnoc(tx, tx', rx, f);
    assert Sendable(tx.sent) && Sendable(tx'.sent) by { OrdinarySendable(tx.sent); OrdinarySendable(tx'.sent); }
    assert tx'.sent[|tx.sent|] == f;
    EncodeSnoc(tx.sent[k..], f, rx.nonce, rx.key);
    assert rx.pending + channel + w == (rx.pending + channel + tx.outbox) + w;
    assert InTransit(tx', channel, rx);
  }

  lemma OrdinarySendable(frames: seq<Frame>)
    requires Ordinary(frames)
    ensures Sendable(frames)
  {
  }

  lemma OrdinarySnoc(tx: Sender, f: Frame)
    requires Ordinary(tx.sent) && NotClosed(tx) && |f.payload| <= MAX_PAYLOAD
    requires f.kind == DATA || f == Control(KEEPALIVE) || f == Control(CLOSE)
    ensures Ordinary(tx.sent + [f])
  {
  }

  lemma SendDataKeeps(tx: Sender, channel: bytes, rx: Receiver, d: bytes)
    requires Linked(tx, channel, rx) && |d| <= MAX_PAYLOAD
    requires tx.outbox == [] && tx.cut.None? && NotClosed(tx) && tx.nonce < NONCE_LIMIT
    requires !tx.garbled
    ensures Linked(SendData(tx, d), channel, rx)
  {
    hide Wire, Ordinary, NotClosed, InTransit, Output, Plain;
    var f := Frame(DATA, FLAG_NONE, d);
    OrdinarySnoc(tx, f);
    PlainSnoc(tx.sent, f);
    BuildKeeps(tx, channel, rx, f);
  }

  lemma FlushKeeps(tx: Sender, channel: bytes, rx: Receiver, k: nat)
    requires Linked(tx, channel, rx) && k <= |tx.outbox|
    ensures Linked(tx.(outbox := tx.outbox[k..]), channel + tx.outbox[..k], rx)
  {
    hide Wire, Encode;
    var tx' := tx.(outbox := tx.outbox[k..]);
    assert rx.pending + (channel + tx.outbox[..k]) + tx.outbox[k..] == rx.pending + channel + tx.outbox;
    assert InTransit(tx', channel + tx.outbox[..k], rx);
    assert CutControl(tx');
  }

  lemma WholeControlKeeps(tx: Sender, channel: bytes, rx: Receiver, kind: byte)
    requires Linked(tx, channel, rx) && (kind == KEEPALIVE || kind == CLOSE)
    requires tx.outbox == [] && tx.cut.None? && NotClosed(tx) && tx.nonce < NONCE_LIMIT
    ensures var f := Control(kind);
            Linked(tx.(nonce := tx.nonce + 1, sent := tx.sent + [f]), channel + Wire(f, tx.nonce, tx.key), rx)
  {
    hide Wire, Ordinary, NotClosed, InTransit, Output, Plain;
    var f := Control(kind);
    var w := Wire(f, tx.nonce, tx.key);
    OrdinarySnoc(tx, f);
    PlainSnoc(tx.sent, f);
    BuildKeeps(tx, channel, rx, f);
    var tx' := tx.(nonce := tx.nonce + 1, outbox := w, sent := tx.sent + [f]);
    assert tx'.read == Plain(tx'.sent);
    FlushKeeps(tx', channel, rx, |w|);
    assert w[..|w|] == w && w[|w|..] == tx.outbox;
  }

  lemma CutControlKeeps(tx: Sender, channel: bytes, rx: Receiver, kind: byte, part: bytes)
    requires Linked(tx, channel, rx)
    requires tx.outbox == [] && tx.cut.None? && tx.nonce < NONCE_LIMIT
    requires |part| < |Wire(Control(kind), tx.nonce, tx.key)| && part <= Wire(Control(kind), tx.nonce, tx.key)
    ensures Linked(tx.(nonce := tx.nonce + 1, cut := Some(part)), channel + part, rx)
  {
    hide Wire, Encode;
    var tx' := tx.(nonce := tx.nonce + 1, cut := Some(part));
    assert rx.pending + (channel + part) + [] == (rx.pending + channel + tx.outbox) + part;
    assert InTransit(tx', channel + part, rx);
    assert CutControl(tx');
  }

  lemma SendControlKeeps(tx: Sender, channel: bytes, rx: Receiver, kind: byte, k: nat)
    requires Linked(tx, channel, rx) && (kind == KEEPALIVE || kind == CLOSE)
    requires tx.outbox == [] && tx.cut.None? && NotClosed(tx) && tx.nonce < NONCE_LIMIT
    ensures Linked(SendControl(tx, kind, k), channel + ControlBytes(tx, kind, k), rx)
  {
    hide Wire, Linked;
    var w := Wire(Control(kind), tx.nonce, tx.key);
    if k >= |w| {
      WholeControlKeeps(tx, channel, rx, kind);
      assert ControlBytes(tx, kind, k) == w;
    } else {
      assert ControlBytes(tx, kind, k) == w[..k];
      CutControlKeeps(tx, channel, rx, kind, w[..k]);
    }
  }

  lemma ReceiveKeeps(tx: Sender, channel: bytes, rx: Receiver, n: nat)
    requires Linked(tx, channel, rx) && n <= |channel|
    ensures Linked(tx, channel[n..], rx.(pending := rx.pending + channel[..n], waiting := false))
  {
    hide Wire, Encode;
    assert (rx.pending + channel[..n]) + channel[n..] + tx.outbox == rx.pending + channel + tx.outbox;
    assert InTransit(tx, channel[n..], rx.(pending := rx.pending + channel[..n], waiting := false));
  }

  /** With every whole frame taken, what remains is at most a cut control frame, and the
      receiver waits for its rest. */
  lemma NothingWholeLeft(tx: Sender, channel: bytes, rx: Receiver)
    requires Linked(tx, channel, rx) && Delivered(tx, rx) == |tx.sent|
    ensures Extract(rx.pending, rx.nonce, rx.key) == NeedMore
  {
    hide Wire, Extract;
    assert tx.sent[|tx.sent|..] == [];
    if tx.cut.None? {
      assert rx.pending == [];
      ExtractNothing(rx.nonce, rx.key);
    } else {
      var kind: byte, n: nat :| |tx.cut.value| < |Wire(Control(kind), n, tx.key)| && tx.cut.value <= Wire(Control(kind), n, tx.key);
      assert rx.pending <= rx.pending + channel + tx.outbox == tx.cut.value;
      ExtractCut(Control(kind), n, tx.key, rx.pending, rx.nonce, rx.key);
    }
  }

  /** The next frame is the one the sender built under the receiver's counter. */
  lemma NextFrame(tx: Sender, channel: bytes, rx: Receiver)
    requires Linked(tx, channel, rx) && Delivered(tx, rx) < |tx.sent|
    ensures var f := tx.sent[Delivered(tx, rx)];
            var w := Wire(f, rx.nonce, rx.key);
            && Extract(rx.pending, rx.nonce, rx.key) == (if |rx.pending| < |w| then NeedMore else Got(f, |w|))
            && (|rx.pending| >= |w| ==> InTransit(tx, channel, rx.(nonce := rx.nonce + 1, pending := rx.pending[|w|..])))
  {
    hide Wire, Extract;
    var k := Delivered(tx, rx);
    var f := tx.sent[k];
    var cut := if tx.cut.Some? then tx.cut.value else [];
    var rest := Encode(tx.sent[k + 1..], rx.nonce + 1, rx.key) + cut;
    assert tx.sent[k..][0] == f && tx.sent[k..][1..] == tx.sent[k + 1..];
    var w := Wire(f, rx.nonce, rx.key);
    assert rx.pending + (channel + tx.outbox) == rx.pending + channel + tx.outbox;
    assert w + rest == Encode(tx.sent[k..], rx.nonce, rx.key) + cut;
    ExtractPrefix(f, rx.nonce, rx.key, rx.pending, channel + tx.outbox, rest);
    if |rx.pending| >= |w| {
      assert rx.pending[|w|..] + channel + tx.outbox == rx.pending[|w|..] + (channel + tx.outbox);
    }
  }

  lemma HandleKeeps(tx: Sender, rx: Receiver, room: nat)
    requires Ordinary(tx.sent) && 0 <= Delivered(tx, rx) < |tx.sent| && Output(tx, rx) && rx.end == Open
    ensures Output(tx, Handle(rx.(nonce := rx.nonce + 1), tx.sent[Delivered(tx, rx)], room))
  {
    hide Plain, Handle;
    var k := Delivered(tx, rx);
    PlainSnoc(tx.sent[..k], tx.sent[k]);
    assert tx.sent[..k] + [tx.sent[k]] == tx.sent[..k + 1];
    HandleOutcome(rx.(nonce := rx.nonce + 1), tx.sent[k], room);
  }

  /** Every kind other than the four control kinds is written out like data, and none of those
      four is ever written. */
  lemma OtherKindsAreData(rx: Receiver, f: Frame, room: nat)
    ensures var r, control := Handle(rx, f, room), f.kind in {CLOSE, KEEPALIVE, KEYCONFIRM, REKEY};
            && (control ==> r.written == rx.written)
            && (!control ==> r == Handle(rx, Frame(DATA, FLAG_NONE, f.payload), room) &&
                             r.written == rx.written + f.payload[..Min(room, |f.payload|)])
            && (r.end == WriteFailed && rx.end != WriteFailed <==> !control && room < |f.payload| && rx.end != WriteFailed)
  {
    assert f.payload[..|f.payload|] == f.payload;
  }

  /** What a frame that tunnel_run builds does to the output. */
  lemma HandleOutcome(rx: Receiver, f: Frame, room: nat)
    requires f.kind == DATA || f == Control(KEEPALIVE) || f == Control(CLOSE)
    ensures var r := Handle(rx, f, room);
            && r.nonce == rx.nonce
            && (f.kind == CLOSE ==> r == rx.(end := PeerClosed))
            && (f.kind == KEEPALIVE ==> r == rx)
            && (f.kind == DATA ==>
                  r == if |f.payload| <= room then rx.(written := rx.written + f.payload)
                       else rx.(written := rx.written + f.payload[..room], end := WriteFailed))
            && DATA != CLOSE && KEEPALIVE != CLOSE
  {
  }

  lemma HandleFrame(rx: Receiver, f: Frame, room: nat)
    ensures var r := Handle(rx, f, room); r.nonce == rx.nonce && r.pending == rx.pending && r.key == rx.key
    ensures Handle(rx, f, room) == Handle(rx.(pending := []), f, room).(pending := rx.pending)
  {
  }

  lemma ExtractOneKeeps(tx: Sender, channel: bytes, rx: Receiver, room: nat)
    requires Linked(tx, channel, rx) && rx.end == Open
    ensures Linked(tx, channel, ExtractOne(rx, room))
  {
    hide Wire, Encode, Extract, Handle, Plain;
    var k := Delivered(tx, rx);
    if k == |tx.sent| {
      NothingWholeLeft(tx, channel, rx);
    } else {
      NextFrame(tx, channel, rx);
      var f := tx.sent[k];
      var w := Wire(f, rx.nonce, rx.key);
      if rx.nonce < NONCE_LIMIT - REKEY_MARGIN && |rx.pending| >= |w| {
        var next := rx.(nonce := rx.nonce + 1, pending := rx.pending[|w|..]);
        HandleKeeps(tx, rx.(pending := rx.pending[|w|..]), room);
        HandleFrame(next, f, room);
        assert InTransit(tx, channel, Handle(next, f, room));
      }
    }
  }

  // ---- Two endpoints ----

  datatype Endpoint = Endpoint(tx: Sender, rx: Receiver, running: bool)

  /** ab carries the bytes from a to b, ba those from b to a. */
  datatype System = System(a: Endpoint, b: Endpoint, ab: bytes, ba: bytes)

  /** What one endpoint can do next; amounts are chosen by the operating system. */
  datatype Action =
    | ReadPlain(d: bytes)      // read returned these bytes
    | Flush(n: nat)            // send accepted n more bytes of the current data frame
    | Keepalive(n: nat)        // the keepalive timer fired; send accepted n bytes
    | PlainEof(n: nat)         // read returned 0: CLOSE is sent and the loop ends
    | Receive(n: nat)          // recv delivered n bytes
    | ExtractNext(room: nat)   // one turn of the extraction loop
    | Stop                     // an error, an end of file or a re-key ends this epoch

  /** One step of an endpoint, with the channel it writes and the channel it reads. A step
      that the program cannot take in this state changes nothing. */
  function EndpointStep(e: Endpoint, outgoing: bytes, incoming: bytes, action: Action): (Endpoint, bytes, bytes) {
    var same := (e, outgoing, incoming);
    if !e.running then same
    else
      match action
      case ReadPlain(d) =>
        if e.tx.outbox != [] || |d| == 0 || |d| > MAX_PAYLOAD then same
        else if e.tx.nonce >= NONCE_LIMIT then (e.(running := false), outgoing, incoming)
        else (e.(tx := SendData(e.tx, d)), outgoing, incoming)
      case Flush(n) =>
        var k := Min(n, |e.tx.outbox|);
        (e.(tx := e.tx.(outbox := e.tx.outbox[k..])), outgoing + e.tx.outbox[..k], incoming)
      case Keepalive(n) =>
        if e.tx.outbox != [] || e.tx.nonce >= NONCE_LIMIT then same
        else (e.(tx := SendControl(e.tx, KEEPALIVE, n)), outgoing + ControlBytes(e.tx, KEEPALIVE, n), incoming)
      case PlainEof(n) =>
        if e.tx.outbox != [] then same
        else if e.tx.nonce >= NONCE_LIMIT then (e.(running := false), outgoing, incoming)
        else (e.(tx := SendControl(e.tx, CLOSE, n), running := false),
              outgoing + ControlBytes(e.tx, CLOSE, n), incoming)
      case Receive(n) =>
        var k := Min(n, |incoming|);
        if !e.rx.waiting || k == 0 || |e.rx.pending| + k > MAX_WIRE then same
        else (e.(rx := e.rx.(pending := e.rx.pending + incoming[..k], waiting := false)), outgoing, incoming[k..])
      case ExtractNext(room) =>
        if e.rx.waiting then same
        else
          var rx := ExtractOne(e.rx, room);
          (e.(rx := rx, running := rx.end == Open), outgoing, incoming)
      case Stop => (e.(running := false), outgoing, incoming)
  }

  /** onA tells which endpoint acts. */
  function SystemStep(s: System, onA: bool, action: Action): System {
    if onA then
      var (e, out, inc) := EndpointStep(s.a, s.ab, s.ba, action);
      s.(a := e, ab := out, ba := inc)
    else
      var (e, out, inc) := EndpointStep(s.b, s.ba, s.ab, action);
      s.(b := e, ba := out, ab := inc)
  }

  function Runs(s: System, schedule: seq<(bool, Action)>): System {
    if schedule == [] then s
    else
      var last := schedule[|schedule| - 1];
      SystemStep(Runs(s, schedule[..|schedule| - 1]), last.0, last.1)
  }

  lemma {:induction false} RunsAppend(s: System, first: seq<(bool, Action)>, more: seq<(bool, Action)>)
    ensures Runs(s, first + more) == Runs(Runs(s, first), more)
    decreases |more|
  {
    hide SystemStep;
    if more == [] {
      assert first + more == first;
    } else {
      var front := more[..|more| - 1];
      RunsAppend(s, first, front);
      assert (first + more)[..|first + more| - 1] == first + front;
    }
  }

  lemma OneStep(s: System, turn: (bool, Action))
    ensures Runs(s, [turn]) == SystemStep(s, turn.0, turn.1)
  {
    hide SystemStep;
    assert [turn][..0] == [];
    assert Runs(s, []) == s;
  }

  /** Both loops start: a sends under keyAB from startAB on, b under keyBA from startBA on. */
  function Begin(keyAB: Block, keyBA: Block, startAB: nat, startBA: nat): System {
    System(Endpoint(FreshSender(keyAB, startAB), FreshReceiver(keyBA, startBA), true),
           Endpoint(FreshSender(keyBA, startBA), FreshReceiver(keyAB, startAB), true), [], [])
  }

  /** What holds of a running endpoint beyond the links. */
  ghost predicate EndpointOk(e: Endpoint) {
    && (e.running ==> NotClosed(e.tx) && e.rx.end == Open)
    && (e.tx.garbled ==> e.tx.cut.Some?)
    && (e.tx.cut.Some? ==> NotClosed(e.tx))
    && (e.rx.waiting ==> Extract(e.rx.pending, e.rx.nonce, e.rx.key) == NeedMore)
  }

  ghost predicate Direction(tx: Sender, channel: bytes, rx: Receiver) {
    !tx.garbled ==> Linked(tx, channel, rx)
  }

  ghost predicate Invariant(s: System) {
    && EndpointOk(s.a) && EndpointOk(s.b)
    && Direction(s.a.tx, s.ab, s.b.rx) && Direction(s.b.tx, s.ba, s.a.rx)
  }

  lemma SendDataOk(e: Endpoint, outgoing: bytes, farRx: Receiver, d: bytes)
    requires EndpointOk(e) && e.running && Direction(e.tx, outgoing, farRx)
    requires |d| <= MAX_PAYLOAD && e.tx.outbox == [] && e.tx.nonce < NONCE_LIMIT
    ensures EndpointOk(e.(tx := SendData(e.tx, d))) && Direction(SendData(e.tx, d), outgoing, farRx)
  {
    hide Linked, Wire, Extract;
    if e.tx.cut.None? {
      SendDataKeeps(e.tx, outgoing, farRx, d);
    }
  }

  lemma SendControlOk(e: Endpoint, outgoing: bytes, farRx: Receiver, kind: byte, n: nat)
    requires EndpointOk(e) && e.running && Direction(e.tx, outgoing, farRx)
    requires (kind == KEEPALIVE || kind == CLOSE) && e.tx.outbox == [] && e.tx.nonce < NONCE_LIMIT
    ensures EndpointOk(e.(tx := SendControl(e.tx, kind, n), running := kind == KEEPALIVE))
    ensures Direction(SendControl(e.tx, kind, n), outgoing + ControlBytes(e.tx, kind, n), farRx)
  {
    hide Linked, Wire, Extract, ControlBytes;
    if e.tx.cut.None? {
      SendControlKeeps(e.tx, outgoing, farRx, kind, n);
    }
  }

  lemma ExtractOk(e: Endpoint, incoming: bytes, farTx: Sender, room: nat)
    requires EndpointOk(e) && e.running && Direction(farTx, incoming, e.rx) && !e.rx.waiting
    ensures var rx := ExtractOne(e.rx, room);
            EndpointOk(e.(rx := rx, running := rx.end == Open)) && Direction(farTx, incoming, rx)
  {
    hide Linked, Extract, Handle;
    if !farTx.garbled {
      ExtractOneKeeps(farTx, incoming, e.rx, room);
    }
    HandleWaits(e.rx, room);
  }

  /** Only an answer of "need more" leaves the receiver waiting. */
  lemma HandleWaits(rx: Receiver, room: nat)
    requires !rx.waiting
    ensures ExtractOne(rx, room).waiting ==>
              Extract(rx.pending, rx.nonce, rx.key) == NeedMore && ExtractOne(rx, room) == rx.(waiting := true)
  {
    hide Extract;
  }

  /** A step of one endpoint keeps it well formed and keeps both directions linked. */
  lemma EndpointStepKeeps(e: Endpoint, outgoing: bytes, incoming: bytes, action: Action, farRx: Receiver, farTx: Sender)
    requires EndpointOk(e) && Direction(e.tx, outgoing, farRx) && Direction(farTx, incoming, e.rx)
    ensures var (e', out, inc) := EndpointStep(e, outgoing, incoming, action);
            EndpointOk(e') && Direction(e'.tx, out, farRx) && Direction(farTx, inc, e'.rx)
  {
    hide Linked, Extract, SendData, SendControl, ControlBytes, ExtractOne;
    if e.running {
      match action
      case ReadPlain(d) =>
        if e.tx.outbox == [] && 0 < |d| <= MAX_PAYLOAD && e.tx.nonce < NONCE_LIMIT {
          SendDataOk(e, outgoing, farRx, d);
        }
      case Flush(n) =>
        if !e.tx.garbled {
          FlushKeeps(e.tx, outgoing, farRx, Min(n, |e.tx.outbox|));
        }
      case Keepalive(n) =>
        if e.tx.outbox == [] && e.tx.nonce < NONCE_LIMIT {
          SendControlOk(e, outgoing, farRx, KEEPALIVE, n);
        }
      case PlainEof(n) =>
        if e.tx.outbox == [] && e.tx.nonce < NONCE_LIMIT {
          SendControlOk(e, outgoing, farRx, CLOSE, n);
        }
      case Receive(n) =>
        if !farTx.garbled {
          ReceiveKeeps(farTx, incoming, e.rx, Min(n, |incoming|));
        }
      case ExtractNext(room) =>
        if !e.rx.waiting {
          ExtractOk(e, incoming, farTx, room);
        }
      case Stop =>
    }
  }

  lemma {:induction false} RunsKeep(s: System, schedule: seq<(bool, Action)>)
    requires Invariant(s)
    ensures Invariant(Runs(s, schedule))
    decreases |schedule|
  {
    hide EndpointOk, Direction, EndpointStep;
    if schedule != [] {
      var t, last := Runs(s, schedule[..|schedule| - 1]), schedule[|schedule| - 1];
      RunsKeep(s, schedule[..|schedule| - 1]);
      if last.0 {
        EndpointStepKeeps(t.a, t.ab, t.ba, last.1, t.b.rx, t.b.tx);
      } else {
        EndpointStepKeeps(t.b, t.ba, t.ab, last.1, t.a.rx, t.a.tx);
      }
    }
  }

  // ---- Delivery ----

  /** What a direction guarantees until something is sent after a control frame that send
      accepted only in part. */
  ghost predicate Guarantee(tx: Sender, channel: bytes, rx: Receiver) {
    var k := Delivered(tx, rx);
    // in order, without loss or duplication: exactly the first k frames have been taken,
    // and the next expected counter is that of frame k
    && 0 <= k <= |tx.sent|
    && rx.written <= Plain(tx.sent[..k]) <= tx.read
    && (rx.end != WriteFailed ==> rx.written == Plain(tx.sent[..k]))
    // every frame authenticates
    && rx.end != AuthFailed
    // a processed CLOSE means both byte strings are equal
    && (rx.end == PeerClosed ==> rx.written == tx.read && k == |tx.sent| && tx.cut.None?)
    // when nothing is on its way and the receiver waits, nothing is missing
    && (channel == [] && tx.outbox == [] && rx.waiting && rx.end == Open ==> k == |tx.sent| && rx.written == tx.read)
    // a waiting reader has room for at least one byte
    && (rx.waiting ==> |rx.pending| < MAX_WIRE)
  }

  lemma {:induction false} PlainPrefix(frames: seq<Frame>, k: nat)
    requires k <= |frames|
    ensures Plain(frames[..k]) <= Plain(frames)
    decreases |frames|
  {
    if k == |frames| {
      assert frames[..k] == frames;
    } else {
      var front := frames[..|frames| - 1];
      PlainPrefix(front, k);
      assert front[..k] == frames[..k];
    }
  }

  /** An untaken frame is somewhere on its way, in full. */
  lemma TransitLength(tx: Sender, channel: bytes, rx: Receiver)
    requires Linked(tx, channel, rx) && Delivered(tx, rx) < |tx.sent|
    ensures |rx.pending| + |channel| + |tx.outbox| >= |Wire(tx.sent[Delivered(tx, rx)], rx.nonce, rx.key)|
  {
    hide Wire;
    var k := Delivered(tx, rx);
    assert tx.sent[k..][0] == tx.sent[k];
    assert |rx.pending + channel + tx.outbox| >= |Encode(tx.sent[k..], rx.nonce, rx.key)|;
  }

  lemma QuietIsComplete(tx: Sender, channel: bytes, rx: Receiver)
    requires Linked(tx, channel, rx) && channel == [] && tx.outbox == []
    requires Extract(rx.pending, rx.nonce, rx.key) == NeedMore
    ensures Delivered(tx, rx) == |tx.sent|
  {
    hide Wire, Extract;
    if Delivered(tx, rx) < |tx.sent| {
      TransitLength(tx, channel, rx);
      NextFrame(tx, channel, rx);
    }
  }

  lemma LinkGuarantees(tx: Sender, channel: bytes, rx: Receiver)
    requires Linked(tx, channel, rx) && (tx.cut.Some? ==> NotClosed(tx))
    requires rx.waiting ==> Extract(rx.pending, rx.nonce, rx.key) == NeedMore
    ensures Guarantee(tx, channel, rx)
  {
    hide Wire, Encode, Extract, Plain, InTransit, CutControl;
    var k := Delivered(tx, rx);
    PlainPrefix(tx.sent, k);
    assert tx.sent[..|tx.sent|] == tx.sent;
    if channel == [] && tx.outbox == [] && rx.waiting {
      QuietIsComplete(tx, channel, rx);
    }
    if rx.waiting {
      NeedMoreLeavesRoom(rx.pending, rx.nonce, rx.key);
    }
  }

  lemma BeginHolds(keyAB: Block, keyBA: Block, startAB: nat, startBA: nat)
    requires startAB <= NONCE_LIMIT && startBA <= NONCE_LIMIT
    ensures Invariant(Begin(keyAB, keyBA, startAB, startBA))
  {
    ExtractNothing(startAB, keyAB);
    ExtractNothing(startBA, keyBA);
    FreshLinked(keyAB, startAB);
    FreshLinked(keyBA, startBA);
  }

  lemma FreshLinked(key: Block, start: nat)
    requires start <= NONCE_LIMIT
    ensures Linked(FreshSender(key, start), [], FreshReceiver(key, start))
  {
  }

  /** In every interleaving, both directions give the guarantee. */
  lemma Delivery(keyAB: Block, keyBA: Block, startAB: nat, startBA: nat, schedule: seq<(bool, Action)>)
    requires startAB <= NONCE_LIMIT && startBA <= NONCE_LIMIT
    ensures var s := Runs(Begin(keyAB, keyBA, startAB, startBA), schedule);
            && (!s.a.tx.garbled ==> Guarantee(s.a.tx, s.ab, s.b.rx))
            && (!s.b.tx.garbled ==> Guarantee(s.b.tx, s.ba, s.a.rx))
  {
    hide Runs, Linked, Extract, Guarantee, Begin;
    BeginHolds(keyAB, keyBA, startAB, startBA);
    RunsKeep(Begin(keyAB, keyBA, startAB, startBA), schedule);
    var s := Runs(Begin(keyAB, keyBA, startAB, startBA), schedule);
    if !s.a.tx.garbled {
      LinkGuarantees(s.a.tx, s.ab, s.b.rx);
    }
    if !s.b.tx.garbled {
      LinkGuarantees(s.b.tx, s.ba, s.a.rx);
    }
  }

  /** Every keepalive and CLOSE is accepted whole by its one send call. */
  ghost predicate WholeControl(schedule: seq<(bool, Action)>) {
    forall i :: 0 <= i < |schedule| ==>
      match schedule[i].1
      case Keepalive(n) => n >= HEADER_LEN + TAG_LEN
      case PlainEof(n) => n >= HEADER_LEN + TAG_LEN
      case _ => true
  }

  lemma ControlLength(kind: byte, counter: nat, key: Block)
    ensures |Wire(Control(kind), counter, key)| == HEADER_LEN + TAG_LEN
  {
    hide Build;
    BuiltParses(Control(kind), counter, key);
  }

  lemma WholeStepKeepsIntact(e: Endpoint, outgoing: bytes, incoming: bytes, action: Action)
    requires e.tx.cut.None? && !e.tx.garbled && WholeControl([(true, action)])
    ensures var e' := EndpointStep(e, outgoing, incoming, action).0; e'.tx.cut.None? && !e'.tx.garbled
  {
    hide Wire, Extract, ExtractOne;
    assert [(true, action)][0].1 == action;
    ControlLength(KEEPALIVE, e.tx.nonce, e.tx.key);
    ControlLength(CLOSE, e.tx.nonce, e.tx.key);
  }

  lemma {:induction false} WholeRunsStayIntact(s: System, schedule: seq<(bool, Action)>)
    requires WholeControl(schedule)
    requires s.a.tx.cut.None? && !s.a.tx.garbled && s.b.tx.cut.None? && !s.b.tx.garbled
    ensures var t := Runs(s, schedule);
            t.a.tx.cut.None? && !t.a.tx.garbled && t.b.tx.cut.None? && !t.b.tx.garbled
    decreases |schedule|
  {
    hide EndpointStep;
    if schedule != [] {
      var front, last := schedule[..|schedule| - 1], schedule[|schedule| - 1];
      WholeRunsStayIntact(s, front);
      var t := Runs(s, front);
      WholeStepKeepsIntact(t.a, t.ab, t.ba, last.1);
      WholeStepKeepsIntact(t.b, t.ba, t.ab, last.1);
    }
  }

  /** With control frames sent whole, delivery is unconditional. */
  lemma DeliveryOfWholeControl(keyAB: Block, keyBA: Block, startAB: nat, startBA: nat, schedule: seq<(bool, Action)>)
    requires startAB <= NONCE_LIMIT && startBA <= NONCE_LIMIT && WholeControl(schedule)
    ensures var s := Runs(Begin(keyAB, keyBA, startAB, startBA), schedule);
            Guarantee(s.a.tx, s.ab, s.b.rx) && Guarantee(s.b.tx, s.ba, s.a.rx)
  {
    hide Runs, Guarantee;
    Delivery(keyAB, keyBA, startAB, startBA, schedule);
    WholeRunsStayIntact(Begin(keyAB, keyBA, startAB, startBA), schedule);
  }
}
