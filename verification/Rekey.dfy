/** An attempt at a new key inside a running tunnel: what each side sends and under which
    counter, when it succeeds, and what it leaves behind when it does not. */
module Rekey {
  import opened Bytes
  import opened Aes
  import opened Frames
  import FS = FrameStream
  import opened TunnelSteps
  import TD = TunnelDelivery
  import opened SessionNonces
  import H = Handshake

  /** What a side's attempt meets: its new private key unless generation fails, whether sending
      works, whether the rest of the derivation does, and the random bytes it draws. */
  datatype Luck = Luck(priv: Option<bytes>, sent: bool, derives: bool, salt: bytes)

  const KEY_LEN: nat := 32
  const KEY_WIRE: nat := HEADER_LEN + KEY_LEN + TAG_LEN

  function KeyFrame(pub: bytes): Frame {
    Frame(REKEY, FLAG_NONE, pub)
  }

  /** The first frame-sized piece of what arrives, opened under a counter; its kind is not
      looked at. */
  function ReadKey(incoming: bytes, counter: nat, key: Block): Option<bytes> {
    if |incoming| < KEY_WIRE then None
    else
      match Parse(incoming[..KEY_WIRE], counter, key)
      case Some(f) => Some(f.payload)
      case None => None
  }

  /** The frames a side encrypts in an attempt, and its new keys if it succeeds. */
  datatype Outcome = Outcome(sealed: seq<Sealing>, keys: Option<Keys>)

  function Digest(c: H.Suite, psk: bytes, priv: bytes, pub: bytes, salt: bytes): bytes {
    c.hash(psk + c.dh(priv, pub) + salt)
  }

  /** The side that asks: its request goes out under its sending counter. */
  function Initiate(c: H.Suite, psk: bytes, keys: Keys, counter: nat, luck: Luck, incoming: bytes): Outcome
    requires H.Digests(c)
  {
    if luck.priv.None? then Outcome([], None)
    else
      var sealed := [Sealing(counter, KeyFrame(c.pub(luck.priv.value)))];
      var pub := ReadKey(incoming, counter + 1, keys.dec);
      if !luck.sent || pub.None? || !luck.derives then Outcome(sealed, None)
      else
        var h := Digest(c, psk, luck.priv.value, pub.value, luck.salt);
        Outcome(sealed, Some(Keys(h[..16], h[16..])))
  }

  /** The side that is asked: counter is the one it expects next, and its answer goes out
      under the one after that, with its sending key. */
  function Respond(c: H.Suite, psk: bytes, keys: Keys, counter: nat, luck: Luck, incoming: bytes): Outcome
    requires H.Digests(c)
  {
    var pub := ReadKey(incoming, counter, keys.dec);
    if luck.priv.None? || pub.None? then Outcome([], None)
    else
      var sealed := [Sealing(counter + 1, KeyFrame(c.pub(luck.priv.value)))];
      if !luck.sent || !luck.derives then Outcome(sealed, None)
      else
        var h := Digest(c, psk, luck.priv.value, pub.value, luck.salt);
        Outcome(sealed, Some(Keys(h[16..], h[..16])))
  }

  // ---- When an attempt succeeds ----

  /** These bytes begin with a frame of 32 payload bytes, of any kind, under this counter. */
  ghost predicate BeginsWithKey(incoming: bytes, counter: nat, key: Block) {
    exists f: Frame :: |f.payload| == KEY_LEN && FS.Wire(f, counter, key) <= incoming
  }

  lemma ReadKeyExactly(incoming: bytes, counter: nat, key: Block)
    ensures ReadKey(incoming, counter, key).Some? <==> BeginsWithKey(incoming, counter, key)
  {
    hide Build, Parse;
    if ReadKey(incoming, counter, key).Some? {
      var p := incoming[..KEY_WIRE];
      var f := Parse(p, counter, key).value;
      ParsedBuilds(p, counter, key);
      BuildFails(f, counter, key);
      BuiltParses(f, counter, key);
      assert FS.Wire(f, counter, key) == p;
    }
    if BeginsWithKey(incoming, counter, key) {
      var f: Frame :| |f.payload| == KEY_LEN && FS.Wire(f, counter, key) <= incoming;
      BuiltParses(f, counter, key);
      assert incoming[..KEY_WIRE] == FS.Wire(f, counter, key);
    }
  }

  /** The asking side succeeds exactly when nothing fails on its side and what arrives begins
      with such a frame under the counter after its request's. */
  lemma InitiateSucceedsExactly(c: H.Suite, psk: bytes, keys: Keys, counter: nat, luck: Luck, incoming: bytes)
    requires H.Digests(c)
    ensures Initiate(c, psk, keys, counter, luck, incoming).keys.Some? <==>
            luck.priv.Some? && luck.sent && luck.derives && BeginsWithKey(incoming, counter + 1, keys.dec)
  {
    hide ReadKey, BeginsWithKey;
    ReadKeyExactly(incoming, counter + 1, keys.dec);
  }

  /** The asked side has already taken the request when its attempt begins, and waits for a
      further key frame before it answers. */
  lemma RespondSucceedsExactly(c: H.Suite, psk: bytes, keys: Keys, counter: nat, luck: Luck, incoming: bytes)
    requires H.Digests(c)
    ensures var r := Respond(c, psk, keys, counter, luck, incoming);
            && (r.sealed != [] <==> luck.priv.Some? && BeginsWithKey(incoming, counter, keys.dec))
            && (r.keys.Some? <==> r.sealed != [] && luck.sent && luck.derives)
  {
    hide ReadKey, BeginsWithKey;
    ReadKeyExactly(incoming, counter, keys.dec);
  }

  /** So one request is not enough: with nothing behind it the asked side sends nothing and
      keeps its keys, and with nothing coming back the asking side keeps its own. */
  lemma OneRequestIsNotEnough(c: H.Suite, psk: bytes, asking: Keys, asked: Keys, n: nat, m: nat, luck: Luck, luck': Luck)
    requires H.Digests(c)
    ensures Respond(c, psk, asked, m, luck', []) == Outcome([], None)
    ensures Initiate(c, psk, asking, n, luck, []).keys == None
  {
  }

  /** Both sides start from the same pre-shared value. */
  lemma PskAgrees(k: Keys)
    ensures Xor(k.enc, k.dec) == Xor(k.dec, k.enc)
  {
    XorCommutes(k.enc, k.dec);
  }

  /** When both succeed on each other's public keys, each side can open what the other sends
      if and only if the two digests are equal; the digests take in bytes that each side
      draws for itself. */
  lemma NewKeysAgreeExactly(c: H.Suite, psk: bytes, asking: Keys, asked: Keys, n: nat, m: nat,
                            luck: Luck, luck': Luck, incoming: bytes, incoming': bytes)
    requires H.Lawful(c)
    requires var r, r' := Initiate(c, psk, asking, n, luck, incoming), Respond(c, psk, asked, m, luck', incoming');
             r.keys.Some? && r'.keys.Some?
    requires ReadKey(incoming, n + 1, asking.dec) == Some(c.pub(luck'.priv.value))
    requires ReadKey(incoming', m, asked.dec) == Some(c.pub(luck.priv.value))
    ensures var k, k' := Initiate(c, psk, asking, n, luck, incoming).keys.value, Respond(c, psk, asked, m, luck', incoming').keys.value;
            var sh := c.dh(luck.priv.value, c.pub(luck'.priv.value));
            k == Keys(k'.dec, k'.enc) <==> c.hash(psk + sh + luck.salt) == c.hash(psk + sh + luck'.salt)
  {
    hide ReadKey;
    assert c.dh(luck.priv.value, c.pub(luck'.priv.value)) == c.dh(luck'.priv.value, c.pub(luck.priv.value));
    var h := Digest(c, psk, luck.priv.value, c.pub(luck'.priv.value), luck.salt);
    var h' := Digest(c, psk, luck'.priv.value, c.pub(luck.priv.value), luck'.salt);
    assert h == h[..16] + h[16..] && h' == h'[..16] + h'[16..];
  }

  // ---- What an attempt does to the counters ----

  /** The asking endpoint afterwards: a success replaces both keys and restarts the sending
      counter, a failure leaves keys and counter as they were. */
  function AfterAsking(e: TD.Endpoint, r: Outcome): TD.Endpoint {
    if r.keys.None? then e
    else e.(tx := e.tx.(key := r.keys.value.enc, nonce := 0), rx := e.rx.(key := r.keys.value.dec))
  }

  /** The next frame is encrypted under the key and counter of the request exactly when the
      request was built and the attempt failed. */
  lemma RequestRepeatsExactly(c: H.Suite, psk: bytes, e: TD.Endpoint, luck: Luck, incoming: bytes, action: TD.Action)
    requires H.Digests(c) && e.tx.nonce > 0
    requires var r := Initiate(c, psk, Keys(e.tx.key, e.rx.key), e.tx.nonce, luck, incoming);
             Encrypts(AfterAsking(e, r), action) != []
    ensures var r := Initiate(c, psk, Keys(e.tx.key, e.rx.key), e.tx.nonce, luck, incoming);
            var e' := AfterAsking(e, r);
            var next := Encrypts(e', action)[0];
            (r.sealed != [] && e'.tx.key == e.tx.key && next.counter == r.sealed[0].counter) <==>
            (luck.priv.Some? && r.keys.None?)
  {
    hide ReadKey, Digest;
  }

  /** An answer is encrypted under a counter that its side has already used with the same key
      exactly when that side has sent beyond it. */
  lemma AnswerRepeatsExactly(c: H.Suite, psk: bytes, s: TD.System, schedule: seq<(bool, TD.Action)>, onA: bool,
                             luck: Luck, incoming: bytes)
    requires H.Digests(c) && Acting(s, onA).tx.nonce <= NONCE_LIMIT
    requires var e := Acting(TD.Runs(s, schedule), onA);
             Respond(c, psk, Keys(e.tx.key, e.rx.key), e.rx.nonce, luck, incoming).sealed != []
    ensures var e, ps := Acting(TD.Runs(s, schedule), onA), EncryptsIn(s, schedule, onA);
            var answer := Respond(c, psk, Keys(e.tx.key, e.rx.key), e.rx.nonce, luck, incoming).sealed[0];
            && e.tx.key == Acting(s, onA).tx.key
            && ((exists i :: 0 <= i < |ps| && ps[i].counter == answer.counter) <==>
                Acting(s, onA).tx.nonce <= e.rx.nonce + 1 < e.tx.nonce)
  {
    hide TD.Runs, EncryptsIn, AddsIn, ReadKey, Digest, FrontsOf, Joined;
    var parts := RunSendsWhatItEncrypts(s, schedule, onA);
    var n, e, ps := Acting(s, onA).tx.nonce, Acting(TD.Runs(s, schedule), onA), EncryptsIn(s, schedule, onA);
    if n <= e.rx.nonce + 1 < e.tx.nonce {
      assert ps[e.rx.nonce + 1 - n].counter == e.rx.nonce + 1;
    }
  }
}
