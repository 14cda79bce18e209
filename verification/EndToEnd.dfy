/** From handshake to delivery: a TCP handshake with unmodified messages, key confirmation,
    for the proxy the connect request, then the tunnel run by both sides with the keys each
    of them derived. a is the client, b the server. */
module EndToEnd {
  import opened Bytes
  import opened Frames
  import opened TunnelSteps
  import TD = TunnelDelivery
  import H = Handshake
  import Replay
  import opened ConnectRequest

  /** Each side enters its loop with its own session keys and the same start counter. */
  function Connect(client: Keys, server: Keys, start: nat): TD.System {
    TD.System(TD.Endpoint(FreshSender(client.enc, start), FreshReceiver(client.dec, start), true),
              TD.Endpoint(FreshSender(server.enc, start), FreshReceiver(server.dec, start), true), [], [])
  }

  /** A handshake in which the server accepts the client's first message and the client the
      server's answer. */
  datatype Meeting = Meeting(
    suite: H.Suite, clientStatic: bytes, clientEph: bytes, serverStatic: bytes, serverEph: bytes,
    ts: int, now: int, fifoServer: seq<Replay.Entry>, ts2: int, now2: int, fifoClient: seq<Replay.Entry>)

  ghost predicate Accepted(m: Meeting) {
    && H.Lawful(m.suite) && H.Int64(m.ts) && H.Int64(m.ts2) && m.ts2 >= 0
    && H.Acceptable(H.Tcp, m.now, m.ts, m.suite.pub(m.clientEph), m.fifoServer)
    && H.Acceptable(H.Tcp, m.now2, m.ts2, m.suite.pub(m.serverEph), m.fifoClient)
  }

  function Init(m: Meeting): bytes
    requires H.Digests(m.suite)
  {
    H.ClientInit(m.suite, m.clientStatic, m.clientEph, m.suite.pub(m.serverStatic), m.ts)
  }

  function Answered(m: Meeting): Option<H.Answer>
    requires H.Digests(m.suite)
  {
    if |Init(m)| != H.HS_LEN then None
    else H.Server(H.Tcp, m.suite, m.serverStatic, m.serverEph, m.suite.pub(m.clientStatic), Init(m), m.now, m.ts2, m.fifoServer)
  }

  function Derived(m: Meeting, resp: bytes): Option<Keys>
    requires H.Digests(m.suite)
  {
    if |resp| != H.HS_LEN then None
    else H.Client(H.Tcp, m.suite, m.clientStatic, m.clientEph, m.suite.pub(m.serverStatic), resp, m.now2, m.fifoClient)
  }

  lemma MeetingSucceeds(m: Meeting)
    requires Accepted(m)
    ensures Answered(m).Some?
    ensures var a := Answered(m).value; Derived(m, a.resp) == Some(Keys(a.keys.dec, a.keys.enc))
  {
    hide H.ClientInit, H.Server, H.Client;
    var c := m.suite;
    H.ServerAcceptsExactly(H.Tcp, c, m.clientStatic, m.clientEph, m.serverStatic, m.serverEph, m.ts, m.now, m.ts2, m.fifoServer);
    H.Agreement(H.Tcp, c, m.clientStatic, m.clientEph, m.serverStatic, m.serverEph, m.ts, m.now, m.ts2, m.fifoServer, m.now2, m.fifoClient);
  }

  ghost predicate Only(onA: bool, schedule: seq<(bool, TD.Action)>) {
    forall i :: 0 <= i < |schedule| ==> schedule[i].0 == onA
  }

  ghost predicate BothGuarantee(s: TD.System) {
    TD.Guarantee(s.a.tx, s.ab, s.b.rx) && TD.Guarantee(s.b.tx, s.ba, s.a.rx)
  }

  lemma TwoPhases(keys: Keys, start: nat, early: seq<(bool, TD.Action)>, schedule: seq<(bool, TD.Action)>)
    requires start <= NONCE_LIMIT && TD.WholeControl(early) && TD.WholeControl(schedule)
    ensures BothGuarantee(TD.Runs(TD.Runs(Connect(Keys(keys.dec, keys.enc), keys, start), early), schedule))
  {
    hide TD.Runs, TD.Guarantee;
    var s := Connect(Keys(keys.dec, keys.enc), keys, start);
    TD.RunsAppend(s, early, schedule);
    TD.DeliveryOfWholeControl(keys.dec, keys.enc, start, start, early + schedule);
  }

  /** The stream tunnel. The server confirms the keys and may send any amount of tunnel
      traffic before the client has read the confirmation. The client then finds exactly
      that traffic behind it, and in every interleaving from there on what either side
      reads arrives at the other: in order, complete up to the bytes on their way, and with
      every frame accepted. */
  lemma HandshakeThenDelivery(m: Meeting, early: seq<(bool, TD.Action)>, schedule: seq<(bool, TD.Action)>)
    requires Accepted(m) && Only(false, early) && TD.WholeControl(early) && TD.WholeControl(schedule)
    ensures Answered(m).Some? && Derived(m, Answered(m).value.resp).Some?
    ensures var server := Answered(m).value.keys;
            var client := Derived(m, Answered(m).value.resp).value;
            var s := TD.Runs(Connect(client, server, 1), early);
            && H.ReceiveConfirm(H.SendConfirm(server.enc) + s.ba, client.dec) == Some(s.ba)
            && BothGuarantee(TD.Runs(s, schedule))
  {
    hide TD.Runs, BothGuarantee, H.SendConfirm, H.ReceiveConfirm, Answered, Derived;
    MeetingSucceeds(m);
    var server := Answered(m).value.keys;
    H.ConfirmArrives(server.enc, TD.Runs(Connect(Keys(server.dec, server.enc), server, 1), early).ba);
    TwoPhases(server, 1, early, schedule);
  }

  /** The proxy. The client reads the confirmation, sends its request and may send any amount
      of tunnel traffic before the server has read the request. The server reads the target
      and finds exactly that traffic behind it, and delivery holds from there on. */
  lemma ProxyThenDelivery(m: Meeting, target: Target, early: seq<(bool, TD.Action)>, schedule: seq<(bool, TD.Action)>)
    requires Accepted(m) && Only(true, early) && TD.WholeControl(early) && TD.WholeControl(schedule)
    requires target.port < 65536 && |target.host| <= MAX_HOST
    ensures Answered(m).Some? && Derived(m, Answered(m).value.resp).Some?
    ensures var server := Answered(m).value.keys;
            var client := Derived(m, Answered(m).value.resp).value;
            var s := TD.Runs(Connect(client, server, 2), early);
            var request := SendRequest(target, client.enc);
            && H.ReceiveConfirm(H.SendConfirm(server.enc), client.dec) == Some([])
            && ReceiveRequest(request + s.ab, server.dec) == Some((target, |request|))
            && (request + s.ab)[|request|..] == s.ab
            && BothGuarantee(TD.Runs(s, schedule))
  {
    hide TD.Runs, BothGuarantee, H.SendConfirm, H.ReceiveConfirm, SendRequest, ReceiveRequest, Answered, Derived;
    MeetingSucceeds(m);
    var server := Answered(m).value.keys;
    H.ConfirmArrives(server.enc, []);
    assert H.SendConfirm(server.enc) + [] == H.SendConfirm(server.enc);
    RequestArrives(target, server.dec, TD.Runs(Connect(Keys(server.dec, server.enc), server, 2), early).ab);
    TwoPhases(server, 2, early, schedule);
  }
}
