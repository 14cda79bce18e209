/** Every frame a direction encrypts between its handshake and the end of its key epoch, and
    the counter it is encrypted under. */
module SessionNonces {
  import opened Bytes
  import opened Aes
  import opened Frames
  import FS = FrameStream
  import opened TunnelSteps
  import opened TunnelDelivery
  import opened ConnectRequest
  import Handshake

  /** One call of the cipher: the frame and the counter its nonce comes from. */
  datatype Sealing = Sealing(counter: nat, frame: Frame)

  /** The wire form that a call of the cipher gives. */
  function WireOf(p: Sealing, key: Block): bytes
    requires |p.frame.payload| <= MAX_PAYLOAD
  {
    FS.Wire(p.frame, p.counter, key)
  }

  ghost predicate Sealable(ps: seq<Sealing>) {
    forall i :: 0 <= i < |ps| ==> |ps[i].frame.payload| <= MAX_PAYLOAD
  }

  // ---- What a step encrypts ----

  /** The frame an endpoint encrypts in a step, if any. */
  function Encrypts(e: Endpoint, action: Action): (ps: seq<Sealing>)
    ensures |ps| <= 1 && Sealable(ps)
  {
    if !e.running || e.tx.outbox != [] || e.tx.nonce >= NONCE_LIMIT then []
    else
      match action
      case ReadPlain(d) => if 0 < |d| <= MAX_PAYLOAD then [Sealing(e.tx.nonce, Frame(DATA, FLAG_NONE, d))] else []
      case Keepalive(_) => [Sealing(e.tx.nonce, Control(KEEPALIVE))]
      case PlainEof(_) => [Sealing(e.tx.nonce, Control(CLOSE))]
      case _ => []
  }

  /** The bytes a step adds behind everything the endpoint had handed over or kept to send. */
  function Adds(e: Endpoint, outgoing: bytes, incoming: bytes, action: Action): bytes {
    var (e', out, _) := EndpointStep(e, outgoing, incoming, action);
    if |out + e'.tx.outbox| < |outgoing + e.tx.outbox| then []
    else (out + e'.tx.outbox)[|outgoing + e.tx.outbox|..]
  }

  /** What a step adds is a front part of the frame it encrypts, under that very counter and
      the endpoint's key; a data frame is added whole, and nothing is added otherwise. The
      counter moves on exactly when a frame is encrypted. */
  lemma StepAddsWhatItEncrypts(e: Endpoint, outgoing: bytes, incoming: bytes, action: Action)
    ensures var (e', out, _) := EndpointStep(e, outgoing, incoming, action);
            var ps, x := Encrypts(e, action), Adds(e, outgoing, incoming, action);
            && out + e'.tx.outbox == outgoing + e.tx.outbox + x
            && (ps == [] ==> x == [] && e'.tx.nonce == e.tx.nonce)
            && (ps != [] ==> x <= WireOf(ps[0], e.tx.key) && ps[0].counter == e.tx.nonce && e'.tx.nonce == e.tx.nonce + 1)
            && (ps != [] && ps[0].frame.kind == DATA ==> x == WireOf(ps[0], e.tx.key))
            && e'.tx.key == e.tx.key && e'.tx.start == e.tx.start
  {
    hide FS.Wire, FS.Extract, ExtractOne;
    if e.running && action.Flush? {
      var k := FS.Min(action.n, |e.tx.outbox|);
      assert outgoing + e.tx.outbox[..k] + e.tx.outbox[k..] == outgoing + e.tx.outbox;
    }
  }

  // ---- What a run encrypts ----

  function Acting(s: System, onA: bool): Endpoint {
    if onA then s.a else s.b
  }

  function Outgoing(s: System, onA: bool): bytes {
    if onA then s.ab else s.ba
  }

  /** The frames one endpoint encrypts in a run, with their counters, in order. */
  function EncryptsIn(s: System, schedule: seq<(bool, Action)>, onA: bool): seq<Sealing> {
    if schedule == [] then []
    else
      var front, last := schedule[..|schedule| - 1], schedule[|schedule| - 1];
      EncryptsIn(s, front, onA) + (if last.0 == onA then Encrypts(Acting(Runs(s, front), onA), last.1) else [])
  }

  /** All the bytes one endpoint hands over or keeps to send in a run. */
  function AddsIn(s: System, schedule: seq<(bool, Action)>, onA: bool): bytes {
    if schedule == [] then []
    else
      var front, last := schedule[..|schedule| - 1], schedule[|schedule| - 1];
      var t := Runs(s, front);
      AddsIn(s, front, onA) +
      (if last.0 == onA then Adds(Acting(t, onA), Outgoing(t, onA), Outgoing(t, !onA), last.1) else [])
  }

  function Joined(parts: seq<bytes>): bytes {
    if parts == [] then [] else Joined(parts[..|parts| - 1]) + parts[|parts| - 1]
  }

  /** The parts are front parts of the encrypted frames, one each. */
  ghost predicate FrontsOf(parts: seq<bytes>, ps: seq<Sealing>, key: Block) {
    && |parts| == |ps| && Sealable(ps)
    && forall i :: 0 <= i < |parts| ==> parts[i] <= WireOf(ps[i], key)
  }

  lemma LastStep(s: System, front: seq<(bool, Action)>, last: (bool, Action), onA: bool)
    ensures var t := Runs(s, front);
            var t' := SystemStep(t, last.0, last.1);
            && (last.0 != onA ==> Acting(t', onA).tx == Acting(t, onA).tx)
            && (last.0 == onA ==>
                  Acting(t', onA).tx == EndpointStep(Acting(t, onA), Outgoing(t, onA), Outgoing(t, !onA), last.1).0.tx)
  {
    hide EndpointStep;
  }

  /** The account of a run: the bytes sent are the front parts of the frames encrypted, and
      the counters are consecutive from the first one and stay below the limit. */
  ghost predicate Accounted(tx0: Sender, tx: Sender, ps: seq<Sealing>, sent: bytes, parts: seq<bytes>) {
    && FrontsOf(parts, ps, tx0.key) && sent == Joined(parts)
    && (forall i :: 0 <= i < |ps| ==> ps[i].counter == tx0.nonce + i)
    && tx.nonce == tx0.nonce + |ps| <= NONCE_LIMIT && tx.key == tx0.key
  }

  lemma AccountStep(tx0: Sender, e: Endpoint, outgoing: bytes, incoming: bytes, action: Action,
                    ps: seq<Sealing>, sent: bytes, parts: seq<bytes>) returns (parts': seq<bytes>)
    requires Accounted(tx0, e.tx, ps, sent, parts)
    ensures Accounted(tx0, EndpointStep(e, outgoing, incoming, action).0.tx, ps + Encrypts(e, action),
                      sent + Adds(e, outgoing, incoming, action), parts')
  {
    hide EndpointStep, Encrypts, Adds, FS.Wire;
    StepAddsWhatItEncrypts(e, outgoing, incoming, action);
    EncryptsBelowLimit(e, action);
    var qs, x := Encrypts(e, action), Adds(e, outgoing, incoming, action);
    if qs == [] {
      parts' := parts;
      assert ps + qs == ps && sent + x == sent;
    } else {
      parts' := parts + [x];
      assert parts'[..|parts|] == parts;
    }
  }

  /** Every byte an endpoint sends in a run belongs to a frame it encrypted. */
  lemma {:induction false} RunSendsWhatItEncrypts(s: System, schedule: seq<(bool, Action)>, onA: bool)
    returns (parts: seq<bytes>)
    requires Acting(s, onA).tx.nonce <= NONCE_LIMIT
    ensures Accounted(Acting(s, onA).tx, Acting(Runs(s, schedule), onA).tx,
                      EncryptsIn(s, schedule, onA), AddsIn(s, schedule, onA), parts)
    decreases |schedule|
  {
    hide EndpointStep, Encrypts, Adds, WireOf;
    if schedule == [] {
      parts := [];
    } else {
      hide Accounted, Acting;
      var front, last := schedule[..|schedule| - 1], schedule[|schedule| - 1];
      parts := RunSendsWhatItEncrypts(s, front, onA);
      var t := Runs(s, front);
      LastStep(s, front, last, onA);
      var ps, sent := EncryptsIn(s, front, onA), AddsIn(s, front, onA);
      if last.0 == onA {
        parts := AccountStep(Acting(s, onA).tx, Acting(t, onA), Outgoing(t, onA), Outgoing(t, !onA), last.1, ps, sent, parts);
      } else {
        assert ps + [] == ps && sent + [] == sent;
      }
    }
  }

  lemma EncryptsBelowLimit(e: Endpoint, action: Action)
    ensures Encrypts(e, action) != [] ==> e.tx.nonce < NONCE_LIMIT
  {
  }

  // ---- A whole session ----

  /** The stream tunnel starts at counter 1; the proxy spends 1 on the connect request. */
  datatype Mode = Stream | Socks5(target: Target)

  datatype Role = ServerSends | ClientSends

  ghost predicate ModeOk(mode: Mode) {
    mode.Socks5? ==> |mode.target.host| <= MAX_HOST
  }

  function StartCounter(mode: Mode): nat {
    if mode == Stream then 1 else 2
  }

  /** The server confirms the keys under counter 0; the proxy client sends its request under 1. */
  function Prelude(mode: Mode, role: Role): seq<Sealing> {
    if role == ServerSends then [Sealing(0, Frame(KEYCONFIRM, FLAG_NONE, []))]
    else if mode.Socks5? then [Sealing(REQUEST_COUNTER, Frame(DATA, FLAG_NONE, BuildRequest(mode.target)))]
    else []
  }

  /** Confirmation and request on the stream are those frames under those counters. */
  lemma PreludeIsSent(mode: Mode, role: Role, key: Block)
    requires ModeOk(mode)
    ensures Sealable(Prelude(mode, role))
    ensures role == ServerSends ==> Handshake.SendConfirm(key) == WireOf(Prelude(mode, role)[0], key)
    ensures role == ClientSends && mode.Socks5? ==> SendRequest(mode.target, key) == WireOf(Prelude(mode, role)[0], key)
  {
    hide Build;
    if mode.Socks5? {
      RequestLength(mode.target);
    }
  }

  /** Everything one side encrypts under its session key. */
  function SessionEncrypts(mode: Mode, role: Role, s: System, schedule: seq<(bool, Action)>, onA: bool): seq<Sealing> {
    Prelude(mode, role) + EncryptsIn(s, schedule, onA)
  }

  /** Over a whole session, up to the first attempt at a new key, no two frames of one
      direction are encrypted under the same nonce, and no counter wraps. */
  lemma NoncesNeverRepeat(mode: Mode, role: Role, s: System, schedule: seq<(bool, Action)>, onA: bool, i: nat, j: nat)
    requires Acting(s, onA).tx.nonce == StartCounter(mode)
    requires i < j < |SessionEncrypts(mode, role, s, schedule, onA)|
    ensures var ps := SessionEncrypts(mode, role, s, schedule, onA);
            ps[i].counter < ps[j].counter < NONCE_LIMIT < Pow256(8) && Nonce(ps[i].counter) != Nonce(ps[j].counter)
  {
    hide EncryptsIn, AddsIn, Runs, Nonce, BuildRequest;
    var parts := RunSendsWhatItEncrypts(s, schedule, onA);
    var ps := SessionEncrypts(mode, role, s, schedule, onA);
    LimitFits();
    if Nonce(ps[i].counter) == Nonce(ps[j].counter) {
      NonceInjective(ps[i].counter, ps[j].counter);
    }
  }

  lemma LimitFits()
    ensures NONCE_LIMIT < Pow256(8)
  {
  }

  // ---- The receiving side ----

  /** The frame an endpoint opens in a step, if any, with the counter it opens it under. */
  function Opens(e: Endpoint, action: Action): seq<Sealing> {
    if !e.running || e.rx.waiting || !action.ExtractNext? || e.rx.nonce >= NONCE_LIMIT - REKEY_MARGIN then []
    else
      match FS.Extract(e.rx.pending, e.rx.nonce, e.rx.key)
      case Got(f, _) => [Sealing(e.rx.nonce, f)]
      case _ => []
  }

  function OpensIn(s: System, schedule: seq<(bool, Action)>, onA: bool): seq<Sealing> {
    if schedule == [] then []
    else
      var front, last := schedule[..|schedule| - 1], schedule[|schedule| - 1];
      OpensIn(s, front, onA) + (if last.0 == onA then Opens(Acting(Runs(s, front), onA), last.1) else [])
  }

  /** The first frames sent whole, with their counters. */
  function SentUpTo(tx: Sender, k: nat): seq<Sealing>
    requires k <= |tx.sent|
  {
    seq(k, i requires 0 <= i < k => Sealing(tx.start + i, tx.sent[i]))
  }

  /** What an intact sender has encrypted: the frames it sent whole, and at most one more. */
  ghost predicate SenderLog(tx: Sender, ps: seq<Sealing>) {
    !tx.garbled ==>
      && |ps| == |tx.sent| + (if tx.cut.Some? then 1 else 0) && tx.nonce == tx.start + |ps|
      && ps[..|tx.sent|] == SentUpTo(tx, |tx.sent|)
  }

  lemma SenderLogStep(e: Endpoint, outgoing: bytes, incoming: bytes, action: Action, ps: seq<Sealing>)
    requires SenderLog(e.tx, ps)
    ensures SenderLog(EndpointStep(e, outgoing, incoming, action).0.tx, ps + Encrypts(e, action))
  {
    hide FS.Wire, FS.Extract, ExtractOne;
    var tx, tx', qs := e.tx, EndpointStep(e, outgoing, incoming, action).0.tx, ps + Encrypts(e, action);
    if !tx'.garbled {
      assert !tx.garbled;
      assert ps == ps[..|tx.sent|] + ps[|tx.sent|..];
      if |tx'.sent| > |tx.sent| {
        assert tx.cut.None? && ps[..|tx.sent|] == ps;
        assert qs[..|tx'.sent|] == SentUpTo(tx', |tx'.sent|);
      } else {
        assert qs[..|tx'.sent|] == ps[..|tx.sent|];
      }
    }
  }

  /** What a receiver has opened: exactly the sent frames it has taken. */
  ghost predicate ReceiverLog(tx: Sender, rx: Receiver, qs: seq<Sealing>) {
    !tx.garbled ==> 0 <= Delivered(tx, rx) <= |tx.sent| && qs == SentUpTo(tx, Delivered(tx, rx))
  }

  lemma ReceiverLogStep(tx: Sender, e: Endpoint, outgoing: bytes, incoming: bytes, action: Action, qs: seq<Sealing>)
    requires EndpointOk(e) && Direction(tx, incoming, e.rx) && ReceiverLog(tx, e.rx, qs)
    ensures ReceiverLog(tx, EndpointStep(e, outgoing, incoming, action).0.rx, qs + Opens(e, action))
  {
    hide FS.Wire, FS.Extract, FS.Encode, InTransit, Handle, Output, EndpointOk;
    if !tx.garbled && e.running && action.ExtractNext? && !e.rx.waiting && e.rx.nonce < NONCE_LIMIT - REKEY_MARGIN {
      var rx, k := e.rx, Delivered(tx, e.rx);
      if k == |tx.sent| {
        NothingWholeLeft(tx, incoming, rx);
      } else {
        NextFrame(tx, incoming, rx);
        var f := tx.sent[k];
        var w := FS.Wire(f, rx.nonce, rx.key);
        if |rx.pending| >= |w| {
          HandleFrame(rx.(nonce := rx.nonce + 1, pending := rx.pending[|w|..]), f, action.room);
          assert SentUpTo(tx, k) + [Sealing(rx.nonce, f)] == SentUpTo(tx, k + 1);
        }
      }
    }
  }

  lemma SenderMovesOn(e: Endpoint, outgoing: bytes, incoming: bytes, action: Action, rx: Receiver, qs: seq<Sealing>)
    requires ReceiverLog(e.tx, rx, qs)
    ensures ReceiverLog(EndpointStep(e, outgoing, incoming, action).0.tx, rx, qs)
  {
    hide FS.Wire, FS.Extract, ExtractOne;
    var tx, tx' := e.tx, EndpointStep(e, outgoing, incoming, action).0.tx;
    if !tx'.garbled {
      assert !tx.garbled && tx.sent <= tx'.sent && tx'.start == tx.start;
      var k := Delivered(tx, rx);
      assert SentUpTo(tx', k) == SentUpTo(tx, k);
    }
  }

  /** The sender on one side and the receiver on the other. */
  lemma {:induction false} LogsMatch(s: System, schedule: seq<(bool, Action)>, onA: bool)
    requires Invariant(s) && SenderLog(Acting(s, onA).tx, []) && ReceiverLog(Acting(s, onA).tx, Acting(s, !onA).rx, [])
    ensures var t := Runs(s, schedule);
            && SenderLog(Acting(t, onA).tx, EncryptsIn(s, schedule, onA))
            && ReceiverLog(Acting(t, onA).tx, Acting(t, !onA).rx, OpensIn(s, schedule, !onA))
    decreases |schedule|
  {
    hide EndpointStep, Encrypts, Opens, SenderLog, ReceiverLog, EndpointOk, Direction;
    if schedule != [] {
      var front, last := schedule[..|schedule| - 1], schedule[|schedule| - 1];
      LogsMatch(s, front, onA);
      RunsKeep(s, front);
      var t := Runs(s, front);
      var ps, qs, e, far := EncryptsIn(s, front, onA), OpensIn(s, front, !onA), Acting(t, onA), Acting(t, !onA);
      assert ps + [] == ps && qs + [] == qs;
      if last.0 == onA {
        SenderLogStep(e, Outgoing(t, onA), Outgoing(t, !onA), last.1, ps);
        SenderMovesOn(e, Outgoing(t, onA), Outgoing(t, !onA), last.1, far.rx, qs);
        assert Acting(SystemStep(t, last.0, last.1), !onA) == far;
      } else {
        ReceiverLogStep(e.tx, far, Outgoing(t, !onA), Outgoing(t, onA), last.1, qs);
        assert Acting(SystemStep(t, last.0, last.1), onA) == e;
      }
    }
  }

  /** Frame for frame and counter for counter, in both directions: what the receiver has
      opened is what the sender encrypted first. Its k-th successful extraction uses the
      k-th counter. */
  lemma ReceiverOpensWhatWasEncrypted(mode: Mode, keyAB: Block, keyBA: Block, schedule: seq<(bool, Action)>, onA: bool)
    ensures var n := StartCounter(mode);
            var s := Begin(keyAB, keyBA, n, n);
            !Acting(Runs(s, schedule), onA).tx.garbled ==> OpensIn(s, schedule, !onA) <= EncryptsIn(s, schedule, onA)
  {
    hide Runs, EncryptsIn, OpensIn;
    var n := StartCounter(mode);
    var s := Begin(keyAB, keyBA, n, n);
    BeginHolds(keyAB, keyBA, n, n);
    LogsMatch(s, schedule, onA);
    var tx, rx := Acting(Runs(s, schedule), onA).tx, Acting(Runs(s, schedule), !onA).rx;
    if !tx.garbled {
      var k := Delivered(tx, rx);
      var ps := EncryptsIn(s, schedule, onA);
      assert SentUpTo(tx, k) == SentUpTo(tx, |tx.sent|)[..k] == ps[..k];
    }
  }
}
