/** What goes into the keys of a handshake. A digest that hands back a window of its input
    makes the input visible, and an exchange that only adds its two keys makes visible which
    keys were exchanged; both are lawful, so what holds of every lawful suite holds of them. */
module KeyDerivation {
  import opened Bytes
  import opened Aes
  import opened Aegis
  import opened Frames
  import opened Replay
  import opened Handshake

  /** Thirty-two bytes of x from position k on, zeros behind its end. */
  function Window(x: bytes, k: nat): (r: bytes)
    ensures |r| == 32
  {
    seq(32, i requires 0 <= i < 32 => if k + i < |x| then x[k + i] else 0)
  }

  function Combine(a: bytes, b: bytes): (r: bytes)
    ensures |r| == 32
  {
    Xor(Window(a, 0), Window(b, 0))
  }

  /** Public keys are the private ones, exchanging adds, and the digest shows its input from
      position k on. */
  function Glass(k: nat): Suite {
    Suite(a => Window(a, 0), (a, b) => Combine(a, b), x => Window(x, k))
  }

  lemma WindowTwice(a: bytes)
    ensures Window(Window(a, 0), 0) == Window(a, 0)
  {
  }

  lemma GlassIsLawful(k: nat)
    ensures Lawful(Glass(k))
  {
    var c := Glass(k);
    forall a, b ensures c.dh(a, c.pub(b)) == c.dh(b, c.pub(a)) {
      WindowTwice(a);
      WindowTwice(b);
      XorCommutes(Window(a, 0), Window(b, 0));
    }
    forall a ensures |c.pub(a)| == 32 {
    }
    forall x ensures |c.hash(x)| == 32 {
    }
  }

  lemma WindowAtEnd(a: bytes, word: bytes)
    requires |word| <= 32
    ensures Window(a + word, |a|) == word + Zeros(32 - |word|)
  {
  }

  // ---- The inputs of the four digests ----

  /** The init key digests the two secrets in order and then the word "init". */
  lemma InitKeyInput(ee: bytes, es: bytes)
    requires |ee| == |es| == 32
    ensures Digests(Glass(0)) && Digests(Glass(16)) && Digests(Glass(32)) && Digests(Glass(48)) && Digests(Glass(64))
    ensures InitKey(Glass(0), ee, es) + InitKey(Glass(16), ee, es) == ee
    ensures InitKey(Glass(32), ee, es) + InitKey(Glass(48), ee, es) == es
    ensures InitKey(Glass(64), ee, es) == INIT_LABEL + Zeros(12)
  {
    GlassIsLawful(0);
    GlassIsLawful(16);
    GlassIsLawful(32);
    GlassIsLawful(48);
    GlassIsLawful(64);
    hide Window;
    Parts(ee, es, INIT_LABEL);
    WindowAtEnd(ee + es, INIT_LABEL);
    LabelTail(INIT_LABEL);
  }

  /** Windows into a string of two 32-byte parts, sixteen bytes at a time. */
  lemma Parts(a: bytes, b: bytes, word: bytes)
    requires |a| == |b| == 32
    ensures var x := a + b + word;
            && Window(x, 0)[..16] + Window(x, 16)[..16] == a
            && Window(x, 32)[..16] + Window(x, 48)[..16] == b
  {
  }

  /** The shared secret digests three secrets in order and then the word "shared". */
  lemma SharedInput(ee: bytes, es: bytes, se: bytes)
    requires |ee| == |es| == |se| == 32
    ensures Shared(Glass(0), ee, es, se) == ee && Shared(Glass(32), ee, es, se) == es && Shared(Glass(64), ee, es, se) == se
    ensures Shared(Glass(96), ee, es, se) == SHARED_LABEL + Zeros(26)
  {
    ThreeWindows(ee, es, se, SHARED_LABEL);
  }

  lemma ThreeWindows(a: bytes, b: bytes, c: bytes, word: bytes)
    requires |a| == |b| == |c| == 32 && |word| <= 32
    ensures var x := a + b + c + word;
            && Window(x, 0) == a && Window(x, 32) == b && Window(x, 64) == c
            && Window(x, 96) == word + Zeros(32 - |word|)
  {
    WindowAtEnd(a + b + c, word);
  }

  /** The response key digests the shared secret and the word "resp". */
  lemma RespKeyInput(sh: bytes)
    requires |sh| == 32
    ensures Digests(Glass(0)) && Digests(Glass(16)) && Digests(Glass(32))
    ensures RespKey(Glass(0), sh) + RespKey(Glass(16), sh) == sh
    ensures RespKey(Glass(32), sh) == RESP_LABEL + Zeros(12)
  {
    GlassIsLawful(0);
    GlassIsLawful(16);
    GlassIsLawful(32);
    hide Window;
    OnePart(sh, RESP_LABEL);
    WindowAtEnd(sh, RESP_LABEL);
    LabelTail(RESP_LABEL);
  }

  lemma OnePart(a: bytes, word: bytes)
    requires |a| == 32
    ensures Window(a + word, 0)[..16] + Window(a + word, 16)[..16] == a
  {
  }

  lemma LabelTail(word: bytes)
    requires |word| <= 16
    ensures (word + Zeros(32 - |word|))[..16] == word + Zeros(16 - |word|)
  {
  }

  /** The session keys digest the shared secret, over TCP both ephemeral keys in the order
      initiator, responder, and the word "session". */
  lemma SessionInput(sh: bytes, initEph: bytes, respEph: bytes)
    requires |sh| == |initEph| == |respEph| == 32
    ensures SessionHash(Tcp, Glass(0), sh, initEph, respEph) == sh == SessionHash(Udp, Glass(0), sh, initEph, respEph)
    ensures SessionHash(Tcp, Glass(32), sh, initEph, respEph) == initEph
    ensures SessionHash(Tcp, Glass(64), sh, initEph, respEph) == respEph
    ensures SessionHash(Tcp, Glass(96), sh, initEph, respEph) == SESSION_LABEL + Zeros(25)
    ensures SessionHash(Udp, Glass(32), sh, initEph, respEph) == SESSION_LABEL + Zeros(25)
  {
    ThreeWindows(sh, initEph, respEph, SESSION_LABEL);
    WindowAtEnd(sh, SESSION_LABEL);
  }

  /** The bytes are the characters of a word. */
  ghost predicate Spells(b: bytes, s: string) {
    |b| == |s| && forall i :: 0 <= i < |b| ==> b[i] as int == s[i] as int
  }

  lemma LabelsSpell()
    ensures Spells(INIT_LABEL, "init") && Spells(SHARED_LABEL, "shared")
    ensures Spells(RESP_LABEL, "resp") && Spells(SESSION_LABEL, "session")
  {
  }

  // ---- Different secrets can give different keys ----

  /** A digest that tells one string from all others. */
  function Telling(t: bytes): Suite {
    Suite(a => Window(a, 0), (a, b) => Combine(a, b), x => if x == t then seq(32, _ => 1) else Zeros(32))
  }

  lemma TellingIsLawful(t: bytes)
    ensures Lawful(Telling(t))
  {
    var c := Telling(t);
    forall a, b ensures c.dh(a, c.pub(b)) == c.dh(b, c.pub(a)) {
      WindowTwice(a);
      WindowTwice(b);
      XorCommutes(Window(a, 0), Window(b, 0));
    }
    forall a ensures |c.pub(a)| == 32 {
    }
    forall x ensures |c.hash(x)| == 32 {
    }
  }

  lemma OnesAndZeros()
    ensures (seq(32, _ => 1 as byte))[..16] != Zeros(32)[..16]
  {
    assert (seq(32, _ => 1 as byte))[..16][0] == 1 && Zeros(32)[..16][0] == 0;
  }

  /** The init key takes in both secrets: whichever differs, some lawful suite gives two keys. */
  lemma InitKeyTakesBoth(ee: bytes, es: bytes, ee': bytes, es': bytes) returns (c: Suite)
    requires |ee| == |es| == |ee'| == |es'| == 32 && (ee != ee' || es != es')
    ensures Lawful(c) && InitKey(c, ee, es) != InitKey(c, ee', es')
  {
    var t, t' := ee + es + INIT_LABEL, ee' + es' + INIT_LABEL;
    c := Telling(t);
    TellingIsLawful(t);
    assert t[..32] == ee && t[32..64] == es && t'[..32] == ee' && t'[32..64] == es';
    OnesAndZeros();
  }

  /** The shared secret takes in all three. */
  lemma SharedTakesAll(ee: bytes, es: bytes, se: bytes, ee': bytes, es': bytes, se': bytes) returns (c: Suite)
    requires |ee| == |es| == |se| == |ee'| == |es'| == |se'| == 32 && (ee != ee' || es != es' || se != se')
    ensures Lawful(c) && Shared(c, ee, es, se) != Shared(c, ee', es', se')
  {
    var t, t' := ee + es + se + SHARED_LABEL, ee' + es' + se' + SHARED_LABEL;
    c := Telling(t);
    TellingIsLawful(t);
    assert t[..32] == ee && t[32..64] == es && t[64..96] == se;
    assert t'[..32] == ee' && t'[32..64] == es' && t'[64..96] == se';
    OnesAndZeros();
  }

  /** The response key takes in the shared secret. */
  lemma RespKeyTakesIt(sh: bytes, sh': bytes) returns (c: Suite)
    requires |sh| == |sh'| == 32 && sh != sh'
    ensures Lawful(c) && RespKey(c, sh) != RespKey(c, sh')
  {
    var t, t' := sh + RESP_LABEL, sh' + RESP_LABEL;
    c := Telling(t);
    TellingIsLawful(t);
    assert t[..32] == sh && t'[..32] == sh';
    OnesAndZeros();
  }

  /** The session keys take in the shared secret and, over TCP, both ephemeral keys. */
  lemma SessionTakesAll(sh: bytes, i: bytes, r: bytes, sh': bytes, i': bytes, r': bytes) returns (c: Suite)
    requires |sh| == |i| == |r| == |sh'| == |i'| == |r'| == 32 && (sh != sh' || i != i' || r != r')
    ensures Lawful(c) && SessionHash(Tcp, c, sh, i, r) != SessionHash(Tcp, c, sh', i', r')
  {
    var t, t' := sh + i + r + SESSION_LABEL, sh' + i' + r' + SESSION_LABEL;
    c := Telling(t);
    TellingIsLawful(t);
    assert t[..32] == sh && t[32..64] == i && t[64..96] == r;
    assert t'[..32] == sh' && t'[32..64] == i' && t'[64..96] == r';
    OnesAndZeros();
  }

  // ---- Which keys are exchanged ----

  /** Both sides' shared secret comes from three exchanges: the client's ephemeral key with the
      server's static key, the two static keys, and the client's static key with the server's
      ephemeral key. The init key comes from the first two. */
  lemma ExchangesUsed(sc: bytes, ec: bytes, ss: bytes, es: bytes, init: bytes, resp: bytes)
    requires |sc| == |ec| == |ss| == |es| == 32 && |init| == HS_LEN == |resp| && Eph(init) == ec && Eph(resp) == es
    ensures Digests(Glass(0)) && Digests(Glass(32))
    ensures ServerInitKey(Glass(0), ss, sc, init) == Combine(ec, ss)[..16]
    ensures ServerInitKey(Glass(32), ss, sc, init) == Combine(sc, ss)[..16]
    ensures ServerShared(Glass(0), ss, es, sc, init) == Combine(ec, ss) == ClientShared(Glass(0), sc, ec, ss, resp)
    ensures ServerShared(Glass(32), ss, es, sc, init) == Combine(sc, ss) == ClientShared(Glass(32), sc, ec, ss, resp)
    ensures ServerShared(Glass(64), ss, es, sc, init) == Combine(sc, es) == ClientShared(Glass(64), sc, ec, ss, resp)
  {
    hide Combine;
    GlassIsLawful(0);
    GlassIsLawful(32);
    CombineCommutes(ec, ss);
    CombineCommutes(sc, ss);
    CombineCommutes(sc, es);
    InitWindows(Combine(ec, ss), Combine(sc, ss));
    ThreeWindows(Combine(ec, ss), Combine(sc, ss), Combine(sc, es), SHARED_LABEL);
  }

  lemma InitWindows(a: bytes, b: bytes)
    requires |a| == |b| == 32
    ensures Window(a + b + INIT_LABEL, 0) == a && Window(a + b + INIT_LABEL, 32) == b
  {
  }

  lemma CombineCommutes(a: bytes, b: bytes)
    ensures Combine(a, b) == Combine(b, a)
  {
    XorCommutes(Window(a, 0), Window(b, 0));
  }

  // ---- Keys and messages ----

  /** The client sends with the first half of the session digest, the server with the second. */
  lemma KeysAreHalves(t: Transport, c: Suite, sk: bytes, ek: bytes, peer: bytes, w: bytes, now: int, ts: int, fifo: seq<Entry>)
    requires Digests(c) && |w| == HS_LEN
    ensures var k := Client(t, c, sk, ek, peer, w, now, fifo);
            k.Some? ==> k.value.enc + k.value.dec == SessionHash(t, c, ClientShared(c, sk, ek, peer, w), c.pub(ek), Eph(w))
    ensures var a := Server(t, c, sk, ek, peer, w, now, ts, fifo);
            a.Some? ==> a.value.keys.dec + a.value.keys.enc == SessionHash(t, c, ServerShared(c, sk, ek, peer, w), Eph(w), c.pub(ek))
  {
    hide Open, Message, ClientShared, ServerShared;
    var h := SessionHash(t, c, ClientShared(c, sk, ek, peer, w), c.pub(ek), Eph(w));
    var h' := SessionHash(t, c, ServerShared(c, sk, ek, peer, w), Eph(w), c.pub(ek));
    assert h == h[..16] + h[16..] && h' == h'[..16] + h'[16..];
  }

  /** A message authenticates its header and ephemeral key, under a zero nonce; its payload is
      the timestamp. */
  lemma MessageLayout(epk: bytes, ts: int, key: Block)
    requires |epk| == 32
    ensures var w := Message(HS_HEADER, epk, ts, key);
            && |w| == 60 && w[..4] == [1, 0, 0, 8] && w[4..36] == epk
            && Decrypt(key, Zeros(16), w[..36], w[36..44], w[44..60]) == Some(TsBytes(ts))
  {
    hide Encrypt, Decrypt, TsBytes, Message;
    var s := Encrypt(key, Zeros(16), HS_HEADER + epk, TsBytes(ts));
    MessageParts(HS_HEADER, epk, ts, key);
    DecryptInvertsEncrypt(key, Zeros(16), HS_HEADER + epk, TsBytes(ts));
    SixParts(HS_HEADER, epk, s.ciphertext, s.tag);
  }

  lemma SixParts(a: bytes, b: bytes, c: bytes, d: bytes)
    requires |a| == 4 && |b| == 32 && |c| == 8 && |d| == 16
    ensures var w := a + b + c + d;
            |w| == 60 && w[..4] == a && w[4..36] == b && w[..36] == a + b && w[36..44] == c && w[44..60] == d
  {
  }

  /** Byte i of a timestamp, most significant first, negative ones in two's complement. */
  lemma TsByte(ts: int, i: nat)
    requires i < 8
    ensures Num(TsBytes(ts)[i]) == (ts % TWO64) / Pow256(7 - i) % 256
  {
    hide Num;
    BigEndianByte(ts % TWO64, 8, i);
  }

  /** After a message with a fresh timestamp, another with the same timestamp is refused exactly
      when the first eight bytes of its ephemeral key are the same, as long as neither was
      seen before. */
  lemma EightBytesDecide(now: int, ts: int, eph: bytes, eph': bytes, fifo: seq<Entry>)
    requires |fifo| == SLOTS && |eph| == |eph'| == 32 && Fresh(now, ts)
    requires Entry(ts, eph[..8]) !in fifo && Entry(ts, eph'[..8]) !in fifo
    ensures Acceptable(Tcp, now, ts, eph', CacheAfter(fifo, Some(ts), now, eph)) <==> eph'[..8] != eph[..8]
  {
    hide Fresh;
  }
}
