/** The three-way Diffie-Hellman handshake, over TCP and over UDP. Key exchange and hash are
    parameters; the cipher is the one of Aegis. */
module Handshake {
  import opened Bytes
  import opened Aes
  import opened Aegis
  import opened Frames
  import opened Replay

  /** X25519 followed by its hash, public keys, and SHA-256. */
  datatype Suite = Suite(pub: bytes -> bytes, dh: (bytes, bytes) -> bytes, hash: bytes -> bytes)

  /** The only facts used: both sides of an exchange derive the same secret, and lengths. */
  ghost predicate Lawful(c: Suite) {
    && (forall a, b :: c.dh(a, c.pub(b)) == c.dh(b, c.pub(a)))
    && (forall a :: |c.pub(a)| == 32)
    && Digests(c)
  }

  ghost predicate Digests(c: Suite) {
    forall x :: |c.hash(x)| == 32
  }

  datatype Transport = Tcp | Udp

  // ASCII labels hashed behind the secrets
  const INIT_LABEL: bytes := [0x69, 0x6e, 0x69, 0x74]
  const SHARED_LABEL: bytes := [0x73, 0x68, 0x61, 0x72, 0x65, 0x64]
  const RESP_LABEL: bytes := [0x72, 0x65, 0x73, 0x70]
  const SESSION_LABEL: bytes := [0x73, 0x65, 0x73, 0x73, 0x69, 0x6f, 0x6e]

  // ---- Derivations ----

  function InitKey(c: Suite, ee: bytes, es: bytes): Block
    requires Digests(c)
  {
    c.hash(ee + es + INIT_LABEL)[..16]
  }

  function Shared(c: Suite, ee: bytes, es: bytes, se: bytes): bytes {
    c.hash(ee + es + se + SHARED_LABEL)
  }

  function RespKey(c: Suite, sh: bytes): Block
    requires Digests(c)
  {
    c.hash(sh + RESP_LABEL)[..16]
  }

  /** TCP mixes both ephemeral public keys into the session keys, UDP does not. */
  function SessionHash(t: Transport, c: Suite, sh: bytes, initEph: bytes, respEph: bytes): bytes {
    match t
    case Tcp => c.hash(sh + initEph + respEph + SESSION_LABEL)
    case Udp => c.hash(sh + SESSION_LABEL)
  }

  // ---- Messages ----

  const HS_HEADER: bytes := [HANDSHAKE, FLAG_NONE, 0, 8]
  const HS_LEN: nat := 60

  const TWO63: int := 0x8000_0000_0000_0000
  const TWO64: int := 0x1_0000_0000_0000_0000

  ghost predicate Int64(ts: int) {
    -TWO63 <= ts < TWO63
  }

  /** A signed 64-bit timestamp, big-endian. */
  function TsBytes(ts: int): (b: bytes)
    ensures |b| == 8
  {
    BigEndian(ts % TWO64, 8)
  }

  function TsOf(b: bytes): int {
    var u := FromBigEndian(b);
    if u < TWO63 then u else u - TWO64
  }

  lemma EightBytes()
    ensures Pow256(8) == TWO64
  {
  }

  lemma TsRoundTrip(ts: int)
    requires Int64(ts)
    ensures TsOf(TsBytes(ts)) == ts
  {
    hide BigEndian, FromBigEndian, Pow256;
    EightBytes();
    FromBigEndianInverts(ts % TWO64, 8);
  }

  lemma TsBytesOf(b: bytes)
    requires |b| == 8
    ensures Int64(TsOf(b)) && TsBytes(TsOf(b)) == b
  {
    hide BigEndian, FromBigEndian, Pow256;
    EightBytes();
    BigEndianInverts(b);
    assert TsOf(b) % TWO64 == FromBigEndian(b);
  }

  /** Header and ephemeral key in the clear and authenticated, the timestamp encrypted. */
  function Message(header: bytes, epk: bytes, ts: int, key: Block): bytes {
    var s := Encrypt(key, Zeros(16), header + epk, TsBytes(ts));
    header + epk + s.ciphertext + s.tag
  }

  /** The header the receiver authenticates: TCP substitutes the expected one, UDP takes
      the received one and checks its type byte. */
  function AuthHeader(t: Transport, w: bytes): bytes
    requires |w| >= 4
  {
    if t == Tcp then HS_HEADER else w[..4]
  }

  function Eph(w: bytes): (e: bytes)
    requires |w| == HS_LEN
    ensures |e| == 32
  {
    w[4..36]
  }

  /** The timestamp of a message that authenticates under key. */
  function Open(t: Transport, w: bytes, key: Block): Option<int>
    requires |w| == HS_LEN
  {
    if t == Udp && w[0] != HANDSHAKE then None
    else
      match Decrypt(key, Zeros(16), AuthHeader(t, w) + Eph(w), w[36..44], w[44..60])
      case None => None
      case Some(d) => Some(TsOf(d))
  }

  /** A message opens to ts exactly when it is, from the ephemeral key on, what Message
      builds for ts under that key; over UDP the header must be the authenticated one too. */
  lemma OpenExact(t: Transport, w: bytes, key: Block, ts: int)
    requires |w| == HS_LEN && Int64(ts)
    ensures Open(t, w, key) == Some(ts) <==>
            && (t == Udp ==> w[0] == HANDSHAKE)
            && Message(AuthHeader(t, w), Eph(w), ts, key) == AuthHeader(t, w) + w[4..]
  {
    hide Encrypt, Decrypt, TsBytes, TsOf;
    var ad, c, tag: Block := AuthHeader(t, w) + Eph(w), w[36..44], w[44..60];
    var s := Encrypt(key, Zeros(16), ad, TsBytes(ts));
    DecryptInvertsEncrypt(key, Zeros(16), ad, TsBytes(ts));
    DecryptExact(key, Zeros(16), ad, c, tag, TsBytes(ts));
    TsRoundTrip(ts);
    assert AuthHeader(t, w) + w[4..] == ad + c + tag;
    if ad + s.ciphertext + s.tag == ad + c + tag {
      assert s.ciphertext == (ad + c + tag)[|ad|..|ad| + 8] == c;
      assert s.tag == (ad + c + tag)[|ad| + 8..] == tag;
    }
    var d := Decrypt(key, Zeros(16), ad, c, tag);
    if d.Some? {
      DecryptLength(key, Zeros(16), ad, c, tag);
      TsBytesOf(d.value);
    }
  }

  lemma MessageParts(header: bytes, epk: bytes, ts: int, key: Block)
    ensures var s := Encrypt(key, Zeros(16), header + epk, TsBytes(ts));
            Message(header, epk, ts, key) == header + epk + s.ciphertext + s.tag
  {
    hide Encrypt, TsBytes;
  }

  lemma FourParts(a: bytes, b: bytes, c: bytes, d: bytes)
    requires |a| == 4 && |b| == 32
    ensures var w := a + b + c + d; w[..4] == a && w[4..36] == b
  {
  }

  lemma MessageShape(epk: bytes, ts: int, key: Block)
    requires |epk| == 32
    ensures var w := Message(HS_HEADER, epk, ts, key);
            |w| == HS_LEN && w[..4] == HS_HEADER && w[0] == HANDSHAKE && Eph(w) == epk
  {
    hide Encrypt, Decrypt, TsBytes, Message;
    var s := Encrypt(key, Zeros(16), HS_HEADER + epk, TsBytes(ts));
    DecryptInvertsEncrypt(key, Zeros(16), HS_HEADER + epk, TsBytes(ts));
    assert Message(HS_HEADER, epk, ts, key) == HS_HEADER + epk + s.ciphertext + s.tag by { MessageParts(HS_HEADER, epk, ts, key); }
    FourParts(HS_HEADER, epk, s.ciphertext, s.tag);
  }

  lemma MessageOpens(t: Transport, epk: bytes, ts: int, key: Block)
    requires |epk| == 32 && Int64(ts)
    ensures |Message(HS_HEADER, epk, ts, key)| == HS_LEN
    ensures Open(t, Message(HS_HEADER, epk, ts, key), key) == Some(ts)
  {
    hide Message, Open;
    var w := Message(HS_HEADER, epk, ts, key);
    MessageShape(epk, ts, key);
    OpenExact(t, w, key, ts);
    assert w == w[..4] + w[4..];
  }

  // ---- The two sides ----

  /** A difference of two 64-bit values, wrapped into 64 bits. */
  function Wrap64(x: int): int {
    (x + TWO63) % TWO64 - TWO63
  }

  /** The freshness test on 64-bit timestamps, against a clock that works. */
  predicate Fresh(now: int, ts: int) {
    now >= 0 && (if now > ts then Wrap64(now - ts) else Wrap64(ts - now)) <= 60
  }

  /** It accepts what lies within sixty seconds, and also every timestamp so far in the past
      that the difference wraps; no timestamp from 1970 on does. */
  lemma FreshExactly(now: int, ts: int)
    requires Int64(now) && Int64(ts) && now >= 0
    ensures Fresh(now, ts) <==> -60 <= now - ts <= 60 || now - ts >= TWO63
    ensures ts >= 0 ==> (Fresh(now, ts) <==> -60 <= now - ts <= 60)
  {
    var d := now - ts;
    if d >= TWO63 {
      assert (d + TWO63) % TWO64 == d + TWO63 - TWO64;
    } else if d >= 0 {
      assert (d + TWO63) % TWO64 == d + TWO63;
    } else {
      assert (-d + TWO63) % TWO64 == -d + TWO63;
    }
  }

  /** The timestamp check: TCP also consults and feeds the replay cache. */
  predicate Acceptable(t: Transport, now: int, ts: int, eph: bytes, fifo: seq<Entry>)
    requires |eph| == 32
  {
    Fresh(now, ts) && (t == Tcp ==> Entry(ts, eph[..8]) !in fifo)
  }

  /** The client's first message: own static key sk, ephemeral key ek, server's public key. */
  function ClientInit(c: Suite, sk: bytes, ek: bytes, peer: bytes, ts: int): bytes
    requires Digests(c)
  {
    Message(HS_HEADER, c.pub(ek), ts, InitKey(c, c.dh(ek, peer), c.dh(sk, peer)))
  }

  datatype Answer = Answer(keys: Keys, resp: bytes)

  function ServerInitKey(c: Suite, sk: bytes, peer: bytes, w: bytes): Block
    requires Digests(c) && |w| == HS_LEN
  {
    InitKey(c, c.dh(sk, Eph(w)), c.dh(sk, peer))
  }

  function ServerShared(c: Suite, sk: bytes, ek: bytes, peer: bytes, w: bytes): bytes
    requires |w| == HS_LEN
  {
    Shared(c, c.dh(sk, Eph(w)), c.dh(sk, peer), c.dh(ek, peer))
  }

  /** The server's answer to a first message, if it accepts it. A TCP server that cannot
      read its clock for the answer gives up. */
  function Server(t: Transport, c: Suite, sk: bytes, ek: bytes, peer: bytes, w: bytes,
                  now: int, ts: int, fifo: seq<Entry>): Option<Answer>
    requires Digests(c) && |w| == HS_LEN
  {
    match Open(t, w, ServerInitKey(c, sk, peer, w))
    case None => None
    case Some(its) =>
      if !Acceptable(t, now, its, Eph(w), fifo) || (t == Tcp && ts < 0) then None
      else
        var sh := ServerShared(c, sk, ek, peer, w);
        var h := SessionHash(t, c, sh, Eph(w), c.pub(ek));
        Some(Answer(Keys(h[16..], h[..16]), Message(HS_HEADER, c.pub(ek), ts, RespKey(c, sh))))
  }

  /** What one attempt meets: the clock when the other side's message is checked, the ephemeral
      key unless its generation fails, the clock for the own message, and whether sending works. */
  datatype Chance = Chance(now: int, eph: Option<bytes>, ts: int, sent: bool)

  /** The server with its failures. A UDP server does not look at the result of sending. */
  function Serve(t: Transport, c: Suite, sk: bytes, peer: bytes, w: bytes, h: Chance, fifo: seq<Entry>): Option<Answer>
    requires Digests(c) && |w| == HS_LEN
  {
    if h.eph.None? || (t == Tcp && !h.sent) then None
    else Server(t, c, sk, h.eph.value, peer, w, h.now, h.ts, fifo)
  }

  function ClientShared(c: Suite, sk: bytes, ek: bytes, peer: bytes, w: bytes): bytes
    requires |w| == HS_LEN
  {
    Shared(c, c.dh(ek, peer), c.dh(sk, peer), c.dh(sk, Eph(w)))
  }

  /** The client's session keys from the server's answer, if it accepts it. */
  function Client(t: Transport, c: Suite, sk: bytes, ek: bytes, peer: bytes, w: bytes,
                  now: int, fifo: seq<Entry>): Option<Keys>
    requires Digests(c) && |w| == HS_LEN
  {
    var sh := ClientShared(c, sk, ek, peer, w);
    match Open(t, w, RespKey(c, sh))
    case None => None
    case Some(rts) =>
      if !Acceptable(t, now, rts, Eph(w), fifo) then None
      else
        var h := SessionHash(t, c, sh, c.pub(ek), Eph(w));
        Some(Keys(h[..16], h[16..]))
  }

  // ---- Agreement ----

  /** Client statics and ephemerals (sc, ec), server's (ss, es): both sides derive the same
      init key and, from the same two ephemeral keys, the same shared secret. */
  lemma DerivationsAgree(c: Suite, sc: bytes, ec: bytes, ss: bytes, es: bytes, init: bytes, resp: bytes)
    requires Lawful(c) && |init| == HS_LEN && |resp| == HS_LEN
    requires Eph(init) == c.pub(ec) && Eph(resp) == c.pub(es)
    ensures ServerInitKey(c, ss, c.pub(sc), init) == InitKey(c, c.dh(ec, c.pub(ss)), c.dh(sc, c.pub(ss)))
    ensures ServerShared(c, ss, es, c.pub(sc), init) == ClientShared(c, sc, ec, c.pub(ss), resp)
  {
    assert c.dh(ss, c.pub(ec)) == c.dh(ec, c.pub(ss));
    assert c.dh(ss, c.pub(sc)) == c.dh(sc, c.pub(ss));
    assert c.dh(es, c.pub(sc)) == c.dh(sc, c.pub(es));
  }

  /** The server accepts an unmodified first message exactly when its timestamp is fresh
      and, over TCP, not a replay. */
  lemma ServerAcceptsExactly(t: Transport, c: Suite, sc: bytes, ec: bytes, ss: bytes, es: bytes,
                             ts: int, now: int, ts2: int, fifo: seq<Entry>)
    requires Lawful(c) && Int64(ts)
    ensures var init := ClientInit(c, sc, ec, c.pub(ss), ts);
            && |init| == HS_LEN && Eph(init) == c.pub(ec)
            && (Server(t, c, ss, es, c.pub(sc), init, now, ts2, fifo).Some? <==>
                Acceptable(t, now, ts, c.pub(ec), fifo) && (t == Tcp ==> ts2 >= 0))
  {
    hide Message, Open, Encrypt;
    var key := InitKey(c, c.dh(ec, c.pub(ss)), c.dh(sc, c.pub(ss)));
    MessageShape(c.pub(ec), ts, key);
    MessageOpens(t, c.pub(ec), ts, key);
    var init := ClientInit(c, sc, ec, c.pub(ss), ts);
    assert c.dh(ss, c.pub(ec)) == c.dh(ec, c.pub(ss));
    assert c.dh(ss, c.pub(sc)) == c.dh(sc, c.pub(ss));
    assert ServerInitKey(c, ss, c.pub(sc), init) == key;
  }

  /** Key agreement: with matching static keys and unmodified messages, the client accepts
      the answer exactly when it is fresh (and over TCP not a replay), and then each side
      encrypts with the key the other decrypts with. */
  lemma Agreement(t: Transport, c: Suite, sc: bytes, ec: bytes, ss: bytes, es: bytes,
                  ts: int, now: int, ts2: int, fifoS: seq<Entry>, now2: int, fifoC: seq<Entry>)
    requires Lawful(c) && Int64(ts) && Int64(ts2)
    requires |ClientInit(c, sc, ec, c.pub(ss), ts)| == HS_LEN
    requires Server(t, c, ss, es, c.pub(sc), ClientInit(c, sc, ec, c.pub(ss), ts), now, ts2, fifoS).Some?
    ensures var answer := Server(t, c, ss, es, c.pub(sc), ClientInit(c, sc, ec, c.pub(ss), ts), now, ts2, fifoS).value;
            && |answer.resp| == HS_LEN
            && var done := Client(t, c, sc, ec, c.pub(ss), answer.resp, now2, fifoC);
               && (done.Some? <==> Acceptable(t, now2, ts2, c.pub(es), fifoC))
               && (done.Some? ==> done.value == Keys(answer.keys.dec, answer.keys.enc))
  {
    hide Message, Open, Encrypt, InitKey, Shared, ServerShared, ClientShared;
    var init := ClientInit(c, sc, ec, c.pub(ss), ts);
    ServerAcceptsExactly(t, c, sc, ec, ss, es, ts, now, ts2, fifoS);
    var sh := ServerShared(c, ss, es, c.pub(sc), init);
    var resp := Message(HS_HEADER, c.pub(es), ts2, RespKey(c, sh));
    MessageShape(c.pub(es), ts2, RespKey(c, sh));
    MessageOpens(t, c.pub(es), ts2, RespKey(c, sh));
    DerivationsAgree(c, sc, ec, ss, es, init, resp);
  }

  /** An empty confirmation frame under counter zero. */
  function ConfirmFrame(flags: byte, key: Block): bytes {
    Build(Frame(KEYCONFIRM, flags, []), 0, key).value
  }

  function SendConfirm(key: Block): bytes {
    ConfirmFrame(FLAG_NONE, key)
  }

  /** The other side reads one empty frame from the stream; what is left if it confirms. */
  function ReceiveConfirm(stream: bytes, key: Block): Option<bytes> {
    var n := HEADER_LEN + TAG_LEN;
    if |stream| < n then None
    else
      match Parse(stream[..n], 0, key)
      case Some(f) => if f.kind == KEYCONFIRM then Some(stream[n..]) else None
      case None => None
  }

  /** With agreed keys the confirmation passes in both directions, whatever follows it. */
  lemma ConfirmationPasses(server: Keys, client: Keys, rest: bytes)
    requires client == Keys(server.dec, server.enc)
    ensures ReceiveConfirm(SendConfirm(server.enc) + rest, client.dec) == Some(rest)
    ensures ReceiveConfirm(SendConfirm(client.enc) + rest, server.dec) == Some(rest)
  {
    hide SendConfirm, ReceiveConfirm;
    ConfirmArrives(server.enc, rest);
    ConfirmArrives(client.enc, rest);
  }

  /** A stream confirms the keys exactly when it begins with an empty frame of that kind, with any
      flags, under counter zero. */
  lemma ConfirmExactly(stream: bytes, key: Block, rest: bytes)
    ensures ReceiveConfirm(stream, key) == Some(rest) <==>
            exists flags: byte :: stream == ConfirmFrame(flags, key) + rest
  {
    hide Build, Parse;
    var n := HEADER_LEN + TAG_LEN;
    if ReceiveConfirm(stream, key) == Some(rest) {
      var f := Parse(stream[..n], 0, key).value;
      ParsedBuilds(stream[..n], 0, key);
      BuildFails(f, 0, key);
      BuiltParses(f, 0, key);
      assert f == Frame(KEYCONFIRM, f.flags, []) && stream == stream[..n] + stream[n..];
      assert ConfirmFrame(f.flags, key) == stream[..n];
    }
    if exists flags: byte :: stream == ConfirmFrame(flags, key) + rest {
      var flags: byte :| stream == ConfirmFrame(flags, key) + rest;
      var w := ConfirmFrame(flags, key);
      BuildFails(Frame(KEYCONFIRM, flags, []), 0, key);
      BuiltParses(Frame(KEYCONFIRM, flags, []), 0, key);
      assert stream[..n] == w && stream[n..] == rest;
    }
  }

  lemma ConfirmArrives(key: Block, rest: bytes)
    ensures ReceiveConfirm(SendConfirm(key) + rest, key) == Some(rest)
  {
    hide Build, Parse;
    var w := SendConfirm(key);
    BuiltParses(Frame(KEYCONFIRM, FLAG_NONE, []), 0, key);
    assert (w + rest)[..|w|] == w && (w + rest)[|w|..] == rest;
  }

  /** In one process, a first message that was accepted is refused, at any later time, until
      128 newer handshakes have been recorded there. Listener shows what forking makes of it. */
  lemma AcceptedOnceOnly(c: Suite, sk: bytes, ek: bytes, peer: bytes, w: bytes, now: int, ts: int, fifo: seq<Entry>,
                         later: seq<Entry>, ek': bytes, now': int, ts': int)
    requires Digests(c) && |w| == HS_LEN && |fifo| == SLOTS
    requires Server(Tcp, c, sk, ek, peer, w, now, ts, fifo).Some?
    ensures var its := Open(Tcp, w, ServerInitKey(c, sk, peer, w)).value;
            var fifo1 := Record(fifo, Entry(its, Eph(w)[..8]));
            Recorded(fifo1, later) < SLOTS ==>
              Server(Tcp, c, sk, ek', peer, w, now', ts', RecordAll(fifo1, later)) == None
  {
    hide Open, Message, Recorded, RecordAll;
    var its := Open(Tcp, w, ServerInitKey(c, sk, peer, w)).value;
    RejectedUntilEvicted(fifo, Entry(its, Eph(w)[..8]), later);
  }

  // ---- The TCP calls, with the process's replay cache ----

  /** What a handshake leaves in the replay cache: an opened, fresh message is recorded
      whether or not the handshake then goes on. */
  function CacheAfter(fifo: seq<Entry>, stamp: Option<int>, now: int, eph: bytes): (r: seq<Entry>)
    requires |fifo| == SLOTS && |eph| == 32
    ensures |r| == SLOTS
  {
    if stamp.Some? && Fresh(now, stamp.value) then Record(fifo, Entry(stamp.value, eph[..8])) else fifo
  }

  class TcpPeer {
    const cache: Cache

    constructor ()
      ensures cache.Valid() && fresh(cache) && fresh(cache.slots) && cache.Fifo() == seq(SLOTS, _ => ZERO_ENTRY)
    {
      cache := new Cache();
    }

    /** A forked process starts with a copy of its parent's cache. */
    constructor Fork(parent: TcpPeer)
      requires parent.cache.Valid()
      ensures cache.Valid() && fresh(cache) && fresh(cache.slots) && cache.Fifo() == parent.cache.Fifo()
    {
      cache := new Cache.Copy(parent.cache);
    }

    /** Only a fresh timestamp reaches the replay cache. */
    method CheckTs(now: int, ts: int, eph: bytes) returns (ok: bool)
      requires cache.Valid() && |eph| == 32
      modifies cache, cache.slots
      ensures cache.Valid() && ok == Acceptable(Tcp, now, ts, eph, old(cache.Fifo()))
      ensures cache.Fifo() == CacheAfter(old(cache.Fifo()), Some(ts), now, eph)
    {
      if now < 0 {
        return false;
      }
      var d := if now > ts then Wrap64(now - ts) else Wrap64(ts - now);
      if d > 60 {
        return false;
      }
      var replay := cache.IsReplay(ts, eph);
      ok := !replay;
    }

    /** Reads one message from the front of the stream and answers it. Whatever comes of it,
        the message is consumed; a stream that ends early is consumed whole. */
    method ServerHandshake(suite: Suite, sk: bytes, peer: bytes, stream: bytes, h: Chance)
      returns (r: Option<Answer>, rest: bytes)
      requires Digests(suite) && cache.Valid()
      modifies cache, cache.slots
      ensures cache.Valid() && rest == if |stream| < HS_LEN then [] else stream[HS_LEN..]
      ensures |stream| < HS_LEN ==> r == None && cache.Fifo() == old(cache.Fifo())
      ensures |stream| >= HS_LEN ==>
                var w := stream[..HS_LEN];
                && r == Serve(Tcp, suite, sk, peer, w, h, old(cache.Fifo()))
                && cache.Fifo() == CacheAfter(old(cache.Fifo()), Open(Tcp, w, ServerInitKey(suite, sk, peer, w)), h.now, Eph(w))
    {
      hide Open, Message;
      if |stream| < HS_LEN {
        return None, [];
      }
      var w := stream[..HS_LEN];
      rest := stream[HS_LEN..];
      r := None;
      var ik := InitKey(suite, suite.dh(sk, Eph(w)), suite.dh(sk, peer));
      var its := Open(Tcp, w, ik);
      if its.None? {
        return;
      }
      var ok := CheckTs(h.now, its.value, Eph(w));
      if !ok || h.eph.None? {
        return;
      }
      var ek := h.eph.value;
      var sh := Shared(suite, suite.dh(sk, Eph(w)), suite.dh(sk, peer), suite.dh(ek, peer));
      var hash := SessionHash(Tcp, suite, sh, Eph(w), suite.pub(ek));
      var keys := Keys(hash[..16], hash[16..]);
      keys := Keys(keys.dec, keys.enc);
      var resp := Message(HS_HEADER, suite.pub(ek), h.ts, RespKey(suite, sh));
      if !h.sent || h.ts < 0 {
        return;
      }
      r := Some(Answer(keys, resp));
    }

    /** The client: it hands its first message to the socket unless key generation fails, and
        derives keys only from a message that went out and a whole answer. */
    method ClientHandshake(suite: Suite, sk: bytes, peer: bytes, stream: bytes, h: Chance)
      returns (first: Option<bytes>, r: Option<Keys>)
      requires Digests(suite) && cache.Valid()
      modifies cache, cache.slots
      ensures cache.Valid()
      ensures first == if h.eph.None? then None else Some(ClientInit(suite, sk, h.eph.value, peer, h.ts))
      ensures h.eph.None? || !h.sent || |stream| < HS_LEN ==> r == None && cache.Fifo() == old(cache.Fifo())
      ensures h.eph.Some? && h.sent && |stream| >= HS_LEN ==>
                var w, ek := stream[..HS_LEN], h.eph.value;
                && r == Client(Tcp, suite, sk, ek, peer, w, h.now, old(cache.Fifo()))
                && cache.Fifo() == CacheAfter(old(cache.Fifo()), Open(Tcp, w, RespKey(suite, ClientShared(suite, sk, ek, peer, w))), h.now, Eph(w))
    {
      hide Open, Message;
      if h.eph.None? {
        return None, None;
      }
      var ek := h.eph.value;
      var ik := InitKey(suite, suite.dh(ek, peer), suite.dh(sk, peer));
      first, r := Some(Message(HS_HEADER, suite.pub(ek), h.ts, ik)), None;
      if !h.sent || |stream| < HS_LEN {
        return;
      }
      var w := stream[..HS_LEN];
      var sh := Shared(suite, suite.dh(ek, peer), suite.dh(sk, peer), suite.dh(sk, Eph(w)));
      var rts := Open(Tcp, w, RespKey(suite, sh));
      if rts.None? {
        return;
      }
      var ok := CheckTs(h.now, rts.value, Eph(w));
      if !ok {
        return;
      }
      var hash := SessionHash(Tcp, suite, sh, suite.pub(ek), Eph(w));
      r := Some(Keys(hash[..16], hash[16..]));
    }
  }

  // ---- Trying several peers on one retained UDP datagram ----

  predicate PeerMatches(c: Suite, sk: bytes, peer: bytes, w: bytes, now: int)
    requires Digests(c) && |w| == HS_LEN
  {
    var its := Open(Udp, w, ServerInitKey(c, sk, peer, w));
    its.Some? && Fresh(now, its.value)
  }

  /** The peer that is answered: the first one under whose key the datagram opens with a
      timestamp that is fresh when it is checked, and for which an ephemeral key can be
      generated; the number of peers when there is none. matched is the last peer whose key
      fitted, -1 when none did. */
  method FindPeer(c: Suite, sk: bytes, peers: seq<bytes>, w: bytes, hs: seq<Chance>) returns (i: nat, matched: int)
    requires Digests(c) && |w| == HS_LEN && |hs| == |peers|
    ensures i <= |peers|
    ensures i < |peers| ==> PeerMatches(c, sk, peers[i], w, hs[i].now) && hs[i].eph.Some? && matched == i
    ensures forall k :: 0 <= k < i ==> !(PeerMatches(c, sk, peers[k], w, hs[k].now) && hs[k].eph.Some?)
    ensures -1 <= matched <= i && matched < |peers|
    ensures matched >= 0 ==> PeerMatches(c, sk, peers[matched], w, hs[matched].now)
    ensures forall k :: matched < k < i ==> !PeerMatches(c, sk, peers[k], w, hs[k].now)
  {
    hide Open;
    i, matched := 0, -1;
    while i < |peers|
      invariant i <= |peers| && -1 <= matched < i
      invariant forall k :: 0 <= k < i ==> !(PeerMatches(c, sk, peers[k], w, hs[k].now) && hs[k].eph.Some?)
      invariant matched >= 0 ==> PeerMatches(c, sk, peers[matched], w, hs[matched].now)
      invariant forall k :: matched < k < i ==> !PeerMatches(c, sk, peers[k], w, hs[k].now)
    {
      var its := Open(Udp, w, ServerInitKey(c, sk, peers[i], w));
      if its.Some? && Fresh(hs[i].now, its.value) {
        matched := i;
        if hs[i].eph.Some? {
          return;
        }
      }
      i := i + 1;
    }
  }

  /** Over UDP a peer is answered exactly when it matches and a key can be generated. */
  lemma MatchedPeerIsAnswered(c: Suite, sk: bytes, peer: bytes, w: bytes, h: Chance, fifo: seq<Entry>)
    requires Digests(c) && |w| == HS_LEN
    ensures PeerMatches(c, sk, peer, w, h.now) && h.eph.Some? <==> Serve(Udp, c, sk, peer, w, h, fifo).Some?
  {
    hide Open, Message;
  }
}
