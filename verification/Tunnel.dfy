/** The tunnel object and the calls of its event loop, tied to the steps of TunnelSteps. */
module Tunnel {
  import opened Bytes
  import opened Aes
  import opened Frames
  import opened FrameStream
  import opened FrameReader
  import opened TunnelSteps
  import TD = TunnelDelivery

  /** One write or send call: it accepted n bytes, asked to be called again, or failed. A list
      of results stands for the calls of a loop that ends: behind its last one comes a
      failure, if the loop gets there. */
  datatype Io = Accepted(n: nat) | Again | Error

  /** How many bytes the calls accept before the first failure. */
  function Room(results: seq<Io>): nat {
    if results == [] || results[0].Error? then 0
    else (if results[0].Accepted? then results[0].n else 0) + Room(results[1..])
  }

  /** A call that asks to be called again takes nothing away, and nothing behind a failure counts. */
  lemma {:induction false} RoomOf(before: seq<Io>, after: seq<Io>)
    ensures Room(before + [Again] + after) == Room(before + after)
    ensures Room(before + [Error] + after) == Room(before)
    ensures forall n: nat :: Room([Accepted(n)] + after) == n + Room(after)
    decreases |before|
  {
    if before == [] {
      assert [] + [Again] + after == [Again] + after && [] + [Error] + after == [Error] + after && [] + after == after;
      assert ([Again] + after)[1..] == after;
      forall n: nat ensures Room([Accepted(n)] + after) == n + Room(after) {
        assert ([Accepted(n)] + after)[1..] == after;
      }
    } else {
      RoomOf(before[1..], after);
      assert (before + [Again] + after)[1..] == before[1..] + [Again] + after;
      assert (before + [Error] + after)[1..] == before[1..] + [Error] + after;
      assert (before + after)[1..] == before[1..] + after;
    }
  }

  /** The retry loop of tunnel_send_data and write_all: it ends when everything is accepted
      or a call fails. */
  method PushAll(len: nat, results: seq<Io>) returns (ok: bool, sent: nat)
    ensures sent == Min(len, Room(results))
    ensures ok <==> sent == len
  {
    sent := 0;
    var i := 0;
    while sent < len
      invariant i <= |results| && sent <= len
      invariant sent + Min(len - sent, Room(results[i..])) == Min(len, Room(results))
      decreases |results| - i
    {
      if i == |results| {
        return false, sent;
      }
      assert results[i..][0] == results[i] && results[i..][1..] == results[i + 1..];
      match results[i] {
        case Accepted(n) => sent := sent + Min(n, len - sent);
        case Again =>
        case Error => return false, sent;
      }
      i := i + 1;
    }
    ok := true;
  }

  /** The extraction loop: turn after turn until more bytes are needed or the loop ends. The
      i-th element of sinks is what the plaintext side does with the i-th frame. */
  function Drain(rx: Receiver, sinks: seq<seq<Io>>): (r: Receiver)
    requires rx.end == Open && !rx.waiting
    ensures r.waiting || r.end != Open
    decreases |rx.pending|
  {
    var next := ExtractOne(rx, Room(if sinks == [] then [] else sinks[0]));
    if next.waiting || next.end != Open then next
    else
      Shrinks(rx, Room(if sinks == [] then [] else sinks[0]));
      Drain(next, if sinks == [] then [] else sinks[1..])
  }

  lemma Shrinks(rx: Receiver, room: nat)
    requires rx.end == Open && !rx.waiting
    requires var next := ExtractOne(rx, room); !next.waiting && next.end == Open
    ensures |ExtractOne(rx, room).pending| < |rx.pending|
  {
    hide Extract;
  }

  // ---- The calls as runs of the two-endpoint system ----

  /** A call of the extraction loop is a run of extraction steps, so it keeps what they keep. */
  lemma {:induction false} DrainIsARun(s: TD.System, sinks: seq<seq<Io>>) returns (schedule: seq<(bool, TD.Action)>)
    requires s.a.running && s.a.rx.end == Open && !s.a.rx.waiting
    ensures var rx := Drain(s.a.rx, sinks);
            TD.Runs(s, schedule) == s.(a := s.a.(rx := rx, running := rx.end == Open))
    decreases |s.a.rx.pending|
  {
    hide ExtractOne, TD.Runs;
    var room := Room(if sinks == [] then [] else sinks[0]);
    var next := ExtractOne(s.a.rx, room);
    var turn := (true, TD.ExtractNext(room));
    TD.OneStep(s, turn);
    schedule := [turn];
    if !next.waiting && next.end == Open {
      Shrinks(s.a.rx, room);
      var rest := DrainIsARun(s.(a := s.a.(rx := next)), if sinks == [] then [] else sinks[1..]);
      TD.RunsAppend(s, [turn], rest);
      schedule := [turn] + rest;
    }
  }

  /** A call of tunnel_send_data is one read step and one flush of what its send calls accept. */
  lemma SendDataIsARun(s: TD.System, d: bytes, results: seq<Io>)
    requires s.a.running && s.a.tx.outbox == [] && 0 < |d| <= MAX_PAYLOAD && s.a.tx.nonce < NONCE_LIMIT
    ensures var w := Wire(Frame(DATA, FLAG_NONE, d), s.a.tx.nonce, s.a.tx.key);
            var k := Min(Room(results), |w|);
            var t := TD.Runs(s, [(true, TD.ReadPlain(d)), (true, TD.Flush(Room(results)))]);
            && t.ab == s.ab + w[..k] && t.a.tx.outbox == w[k..] && t.a.tx.nonce == s.a.tx.nonce + 1
            && t.a.tx.read == s.a.tx.read + d && t.b == s.b && t.ba == s.ba
  {
    hide Wire;
    var one, two := (true, TD.ReadPlain(d)), (true, TD.Flush(Room(results)));
    TD.RunsAppend(s, [one], [two]);
    assert [one] + [two] == [one, two];
    TD.OneStep(s, one);
    TD.OneStep(TD.Runs(s, [one]), two);
  }

  class Tunnel {
    var encKey: Block
    var decKey: Block
    var encNonce: nat
    var decNonce: nat
    const reader: Reader
    // bytes the encrypted socket has accepted, and bytes the plaintext side has accepted
    var wire: bytes
    var written: bytes

    ghost predicate Valid()
      reads this, reader
    {
      reader.Valid()
    }

    constructor (encKey: Block, decKey: Block)
      ensures Valid() && fresh(reader) && fresh(reader.buf) && reader.Pending() == []
      ensures this.encKey == encKey && this.decKey == decKey
      ensures encNonce == 1 && decNonce == 1 && wire == [] && written == []
    {
      this.encKey, this.decKey := encKey, decKey;
      encNonce, decNonce := 1, 1;
      reader := new Reader();
      wire, written := [], [];
    }

    /** -2 asks for a re-key, -1 is an error, otherwise the frame's length. The counter
        moves on even when the frame does not get out whole. */
    method SendData(d: array<byte>, len: nat, results: seq<Io>) returns (code: int)
      requires Valid() && len <= d.Length
      modifies this
      ensures Valid() && encKey == old(encKey) && decKey == old(decKey) && decNonce == old(decNonce) && written == old(written)
      ensures old(encNonce) >= NONCE_LIMIT ==> code == -2 && encNonce == old(encNonce) && wire == old(wire)
      ensures old(encNonce) < NONCE_LIMIT && len > MAX_PAYLOAD ==>
                code == -1 && encNonce == old(encNonce) && wire == old(wire)
      ensures old(encNonce) < NONCE_LIMIT && len <= MAX_PAYLOAD ==>
                var w := Wire(Frame(DATA, FLAG_NONE, d[..len]), old(encNonce), encKey);
                && encNonce == old(encNonce) + 1
                && wire == old(wire) + w[..Min(|w|, Room(results))]
                && code == if Room(results) >= |w| then |w| else -1
    {
      hide Build;
      if encNonce >= NONCE_LIMIT {
        return -2;
      }
      var buf := new byte[MAX_WIRE];
      BuildFails(Frame(DATA, FLAG_NONE, d[..len]), encNonce, encKey);
      var ok, n := FrameBuild(buf, DATA, FLAG_NONE, d, len, encNonce, encKey);
      if !ok {
        return -1;
      }
      encNonce := encNonce + 1;
      var all, sent := PushAll(n, results);
      assert buf[..sent] == buf[..n][..sent];
      wire := wire + buf[..sent];
      code := if all then n else -1;
    }

    /** Keepalive and CLOSE: one send call, which accepts up to n bytes. */
    method SendControl(kind: byte, n: nat)
      requires Valid() && encNonce < NONCE_LIMIT
      modifies this
      ensures Valid() && encKey == old(encKey) && decKey == old(decKey) && decNonce == old(decNonce) && written == old(written)
      ensures encNonce == old(encNonce) + 1
      ensures var w := Wire(Control(kind), old(encNonce), encKey); wire == old(wire) + w[..Min(n, |w|)]
    {
      hide Build;
      var buf, none := new byte[MAX_WIRE], new byte[0];
      BuildFails(Control(kind), encNonce, encKey);
      assert none[..0] == [];
      var ok, len := FrameBuild(buf, kind, FLAG_NONE, none, 0, encNonce, encKey);
      encNonce := encNonce + 1;
      var k := Min(n, len);
      assert buf[..k] == buf[..len][..k];
      wire := wire + buf[..k];
    }

    ghost function Rx(): Receiver
      requires Valid()
      reads this, reader, reader.buf
    {
      Receiver(decKey, decNonce, reader.Pending(), false, written, Open)
    }

    /** One turn of the extraction loop. */
    method DrainTurn(payload: array<byte>, sink: seq<Io>) returns (end: End, again: bool)
      requires Valid() && payload != reader.buf && payload.Length >= MAX_PAYLOAD
      modifies this`decNonce, this`written, reader, payload
      ensures Valid()
      ensures var r := ExtractOne(old(Rx()), Room(sink));
              && end == r.end && (again <==> !r.waiting && r.end == Open)
              && Rx() == r.(waiting := false, end := Open)
    {
      hide Extract;
      if decNonce >= NONCE_LIMIT - REKEY_MARGIN {
        return RekeyDue, false;
      }
      var code, kind, flags, plen := reader.TryNext(payload, decNonce, decKey);
      if code == 0 {
        return Open, false;
      }
      if code < 0 {
        return AuthFailed, false;
      }
      decNonce := decNonce + 1;
      if kind == CLOSE {
        return PeerClosed, false;
      }
      if kind == KEEPALIVE || kind == KEYCONFIRM {
        return Open, true;
      }
      if kind == REKEY {
        return RekeyAsked, false;
      }
      if plen > 0 {
        var ok, n := PushAll(plen, sink);
        assert payload[..n] == payload[..plen][..n];
        written := written + payload[..n];
        if !ok {
          return WriteFailed, false;
        }
      }
      return Open, true;
    }

    /** Extracts and handles frames until more bytes are needed or the loop ends. */
    method DrainFrames(payload: array<byte>, sinks: seq<seq<Io>>) returns (end: End)
      requires Valid() && payload != reader.buf && payload.Length >= MAX_PAYLOAD
      modifies this`decNonce, this`written, reader, payload
      ensures Valid()
      ensures var r := Drain(old(Rx()), sinks); end == r.end && Rx() == r.(waiting := false, end := Open)
    {
      hide ExtractOne;
      ghost var goal := Drain(Rx(), sinks);
      var rest, again := sinks, true;
      end := Open;
      while again
        invariant Valid()
        invariant again ==> Drain(Rx(), rest) == goal
        invariant !again ==> end == goal.end && Rx() == goal.(waiting := false, end := Open)
        decreases again, |reader.Pending()|
      {
        var sink := if rest == [] then [] else rest[0];
        ghost var rx := Rx();
        end, again := DrainTurn(payload, sink);
        if again {
          Shrinks(rx, Room(sink));
        }
        rest := if rest == [] then [] else rest[1..];
      }
    }
  }
}
