/** One direction of the tunnel as values: what each call of the event loop does to the
    sending half, to the receiving half and to the bytes between them. */
module TunnelSteps {
  import opened Bytes
  import opened Aes
  import opened Frames
  import opened FrameStream

  const NONCE_LIMIT: nat := 0xFFFF_FFFF_FFFF_FFF0
  const REKEY_MARGIN: nat := 10000

  /** The sending half. The first group is program state: the key, the next counter and the
      part of the current frame that send has not accepted yet. The rest is history: the
      first counter of the key epoch, the frames sent whole, the plaintext read, the bytes
      of a control frame that send accepted only in part, and whether anything was sent
      after such a frame. */
  datatype Sender = Sender(
    key: Block, nonce: nat, outbox: bytes,
    start: nat, sent: seq<Frame>, read: bytes, cut: Option<bytes>, garbled: bool)

  /** The receiving half: key, expected counter, buffered bytes, and whether extraction has
      asked for more bytes; then the plaintext written and how the half ended. */
  datatype Receiver = Receiver(
    key: Block, nonce: nat, pending: bytes, waiting: bool,
    written: bytes, end: End)

  datatype End = Open | PeerClosed | AuthFailed | WriteFailed | RekeyDue | RekeyAsked

  function FreshSender(key: Block, start: nat): Sender {
    Sender(key, start, [], start, [], [], None, false)
  }

  function FreshReceiver(key: Block, start: nat): Receiver {
    Receiver(key, start, [], true, [], Open)
  }

  // ---- Sending ----

  /** Plaintext of 1..65535 bytes was read: it becomes one DATA frame. */
  function SendData(tx: Sender, d: bytes): Sender
    requires |d| <= MAX_PAYLOAD
  {
    var f := Frame(DATA, FLAG_NONE, d);
    tx.(nonce := tx.nonce + 1, outbox := Wire(f, tx.nonce, tx.key), sent := tx.sent + [f],
        read := tx.read + d, garbled := tx.garbled || tx.cut.Some?)
  }

  function Control(kind: byte): Frame {
    Frame(kind, FLAG_NONE, [])
  }

  /** A KEEPALIVE or CLOSE frame goes out in a single send call, which accepts k bytes. */
  function SendControl(tx: Sender, kind: byte, k: nat): Sender {
    var f := Control(kind);
    var w := Wire(f, tx.nonce, tx.key);
    if tx.cut.Some? then tx.(nonce := tx.nonce + 1, garbled := true)
    else if k >= |w| then tx.(nonce := tx.nonce + 1, sent := tx.sent + [f])
    else tx.(nonce := tx.nonce + 1, cut := Some(w[..k]))
  }

  function ControlBytes(tx: Sender, kind: byte, k: nat): bytes {
    var w := Wire(Control(kind), tx.nonce, tx.key);
    w[..Min(k, |w|)]
  }

  // ---- Receiving ----

  /** One turn of the extraction loop; room is how many bytes the plaintext side accepts
      before it fails. */
  function ExtractOne(rx: Receiver, room: nat): Receiver {
    if rx.nonce >= NONCE_LIMIT - REKEY_MARGIN then rx.(end := RekeyDue)
    else
      match Extract(rx.pending, rx.nonce, rx.key)
      case NeedMore => rx.(waiting := true)
      case Bad => rx.(end := AuthFailed)
      case Got(f, used) => Handle(rx.(nonce := rx.nonce + 1, pending := rx.pending[used..]), f, room)
  }

  function Handle(rx: Receiver, f: Frame, room: nat): Receiver {
    if f.kind == CLOSE then rx.(end := PeerClosed)
    else if f.kind == KEEPALIVE || f.kind == KEYCONFIRM then rx
    else if f.kind == REKEY then rx.(end := RekeyAsked)
    else if |f.payload| <= room then rx.(written := rx.written + f.payload)
    else rx.(written := rx.written + f.payload[..room], end := WriteFailed)
  }

  // ---- What links the two halves ----

  /** The plaintext a sequence of frames carries. */
  function Plain(frames: seq<Frame>): bytes {
    if frames == [] then []
    else Plain(frames[..|frames| - 1]) + (if frames[|frames| - 1].kind == DATA then frames[|frames| - 1].payload else [])
  }

  /** Frames as tunnel_run builds them: data, and empty control frames, CLOSE only last. */
  ghost predicate Ordinary(frames: seq<Frame>) {
    && Sendable(frames)
    && (forall i :: 0 <= i < |frames| ==>
          frames[i].kind == DATA || frames[i] == Control(KEEPALIVE) || frames[i] == Control(CLOSE))
    && (forall i :: 0 <= i < |frames| - 1 ==> frames[i].kind != CLOSE)
  }

  /** A sender that has sent CLOSE, whole or in part, has returned from its loop. */
  ghost predicate NotClosed(tx: Sender) {
    forall i :: 0 <= i < |tx.sent| ==> tx.sent[i].kind != CLOSE
  }

  /** How many frames the receiver has taken. */
  function Delivered(tx: Sender, rx: Receiver): int {
    rx.nonce - tx.start
  }

  ghost predicate Counters(tx: Sender, rx: Receiver) {
    && tx.key == rx.key
    && tx.nonce == tx.start + |tx.sent| + (if tx.cut.Some? then 1 else 0)
    && 0 <= Delivered(tx, rx) <= |tx.sent|
    && tx.nonce <= NONCE_LIMIT
  }

  /** The bytes on their way are exactly the frames not yet taken, then the accepted part of
      a cut control frame. */
  ghost predicate InTransit(tx: Sender, channel: bytes, rx: Receiver)
    requires Sendable(tx.sent) && 0 <= Delivered(tx, rx) <= |tx.sent|
  {
    var k := Delivered(tx, rx);
    rx.pending + channel + tx.outbox ==
    Encode(tx.sent[k..], rx.nonce, rx.key) + (if tx.cut.Some? then tx.cut.value else [])
  }

  ghost predicate CutControl(tx: Sender) {
    tx.cut.Some? ==>
      exists kind: byte, n: nat :: |tx.cut.value| < |Wire(Control(kind), n, tx.key)| && tx.cut.value <= Wire(Control(kind), n, tx.key)
  }

  /** How the receiver's output and ending relate to the frames it has taken. */
  ghost predicate Output(tx: Sender, rx: Receiver)
    requires 0 <= Delivered(tx, rx) <= |tx.sent|
  {
    var k := Delivered(tx, rx);
    && (rx.end != WriteFailed ==> rx.written == Plain(tx.sent[..k]))
    && rx.written <= Plain(tx.sent[..k])
    && rx.end != AuthFailed && rx.end != RekeyAsked
    && (rx.end == PeerClosed <==> k > 0 && tx.sent[k - 1].kind == CLOSE)
  }

  /** The invariant of one direction. */
  ghost predicate Linked(tx: Sender, channel: bytes, rx: Receiver) {
    && Ordinary(tx.sent) && Counters(tx, rx) && CutControl(tx)
    && tx.read == Plain(tx.sent)
    && InTransit(tx, channel, rx) && Output(tx, rx)
  }
}
