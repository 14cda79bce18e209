/** Frames on a byte stream: what a concatenation of frames looks like from inside, and why
    cutting it anywhere loses and invents nothing. */
module FrameStream {
  import opened Bytes
  import opened Aes
  import opened Frames

  datatype Extracted = NeedMore | Bad | Got(frame: Frame, used: nat)

  /** What the reader makes of its unprocessed bytes. */
  function Extract(pending: bytes, counter: nat, key: Block): (r: Extracted)
    ensures r.Got? ==> HEADER_LEN + TAG_LEN <= r.used <= |pending|
  {
    if |pending| < HEADER_LEN then NeedMore
    else
      var total := HEADER_LEN + PayloadLen(pending) + TAG_LEN;
      if |pending| < total then NeedMore
      else
        match Parse(pending[..total], counter, key)
        case None => Bad
        case Some(f) => Got(f, total)
  }

  ghost predicate Sendable(frames: seq<Frame>) {
    forall i :: 0 <= i < |frames| ==> |frames[i].payload| <= MAX_PAYLOAD
  }

  /** The wire form of one frame. */
  function Wire(f: Frame, counter: nat, key: Block): (w: bytes)
    requires |f.payload| <= MAX_PAYLOAD
  {
    Build(f, counter, key).value
  }

  /** Frames sent one after the other, each under the next counter. */
  function Encode(frames: seq<Frame>, counter: nat, key: Block): bytes
    requires Sendable(frames)
  {
    if frames == [] then [] else Wire(frames[0], counter, key) + Encode(frames[1..], counter + 1, key)
  }

  lemma {:induction false} EncodeAppend(a: seq<Frame>, b: seq<Frame>, counter: nat, key: Block)
    requires Sendable(a) && Sendable(b)
    ensures Sendable(a + b)
    ensures Encode(a + b, counter, key) == Encode(a, counter, key) + Encode(b, counter + |a|, key)
    decreases |a|
  {
    hide Wire;
    if a == [] {
      assert a + b == b;
    } else {
      EncodeAppend(a[1..], b, counter + 1, key);
      assert (a + b)[0] == a[0] && (a + b)[1..] == a[1..] + b;
    }
  }

  lemma EncodeSnoc(frames: seq<Frame>, f: Frame, counter: nat, key: Block)
    requires Sendable(frames) && |f.payload| <= MAX_PAYLOAD
    ensures Sendable(frames + [f])
    ensures Encode(frames + [f], counter, key) == Encode(frames, counter, key) + Wire(f, counter + |frames|, key)
  {
    hide Wire;
    EncodeAppend(frames, [f], counter, key);
    assert Encode([f], counter + |frames|, key) == Wire(f, counter + |frames|, key) + [];
  }

  /** Faced with any prefix of a stream that starts with a frame, the reader waits until the
      frame is complete and then returns exactly that frame. */
  lemma ExtractPrefix(f: Frame, counter: nat, key: Block, pending: bytes, unread: bytes, rest: bytes)
    requires |f.payload| <= MAX_PAYLOAD
    requires pending + unread == Wire(f, counter, key) + rest
    ensures var w := Wire(f, counter, key);
            Extract(pending, counter, key) == if |pending| < |w| then NeedMore else Got(f, |w|)
    ensures |pending| >= |Wire(f, counter, key)| ==>
              pending[..|Wire(f, counter, key)|] == Wire(f, counter, key) &&
              pending[|Wire(f, counter, key)|..] + unread == rest
  {
    hide Build, Parse, FromBigEndian;
    var w := Wire(f, counter, key);
    BuiltParses(f, counter, key);
    var all := pending + unread;
    if |pending| >= HEADER_LEN {
      assert pending[2..4] == all[2..4] == (w + rest)[2..4] == w[2..4];
    }
    if |pending| >= |w| {
      assert pending[..|w|] == all[..|w|] == (w + rest)[..|w|] == w;
      assert pending[|w|..] + unread == all[|w|..] == (w + rest)[|w|..] == rest;
    }
  }

  /** With nothing left to send, an incomplete frame never comes out. */
  lemma ExtractCut(f: Frame, counter: nat, key: Block, pending: bytes, other: nat, otherKey: Block)
    requires |f.payload| <= MAX_PAYLOAD
    requires |pending| < |Wire(f, counter, key)| && pending <= Wire(f, counter, key)
    ensures Extract(pending, other, otherKey) == NeedMore
  {
    hide Build, Parse, FromBigEndian;
    var w := Wire(f, counter, key);
    BuiltParses(f, counter, key);
    if |pending| >= HEADER_LEN {
      assert pending[2..4] == w[2..4];
    }
  }

  /** Waiting for more means less than one maximal frame is buffered. */
  lemma NeedMoreLeavesRoom(pending: bytes, counter: nat, key: Block)
    requires Extract(pending, counter, key) == NeedMore
    ensures |pending| < MAX_WIRE
  {
    hide Parse;
    if |pending| >= HEADER_LEN {
      HeaderOfBytes(pending[..HEADER_LEN]);
      assert pending[..HEADER_LEN][2..4] == pending[2..4];
    }
  }

  // ---- Reassembly under every schedule ----

  /** One reader run: bytes already turned into frames, buffered bytes, bytes not yet
      received, and the frames returned. */
  datatype Run = Run(consumed: bytes, pending: bytes, unread: bytes, out: seq<Frame>, failed: bool)

  datatype Action = Receive(n: nat) | TryNext

  function Min(a: nat, b: nat): nat {
    if a < b then a else b
  }

  /** A receive takes what the socket has, up to n and to the free space; an extraction
      uses the counter of the next frame. */
  function Step(r: Run, action: Action, counter: nat, key: Block): Run {
    if r.failed then r
    else
      match action
      case Receive(n) =>
        var space := if |r.pending| <= MAX_WIRE then MAX_WIRE - |r.pending| else 0;
        var k := Min(Min(n, space), |r.unread|);
        r.(pending := r.pending + r.unread[..k], unread := r.unread[k..])
      case TryNext =>
        match Extract(r.pending, counter + |r.out|, key)
        case NeedMore => r
        case Bad => r.(failed := true)
        case Got(f, used) =>
          r.(consumed := r.consumed + r.pending[..used], pending := r.pending[used..], out := r.out + [f])
  }

  function Execute(r: Run, schedule: seq<Action>, counter: nat, key: Block): Run {
    if schedule == [] then r
    else Step(Execute(r, schedule[..|schedule| - 1], counter, key), schedule[|schedule| - 1], counter, key)
  }

  /** Exactly the first |out| frames have been returned, and every byte is accounted for. */
  ghost predicate Faithful(r: Run, frames: seq<Frame>, counter: nat, key: Block)
    requires Sendable(frames)
  {
    && !r.failed
    && |r.out| <= |frames| && r.out == frames[..|r.out|]
    && r.consumed == Encode(frames[..|r.out|], counter, key)
    && r.pending + r.unread == Encode(frames[|r.out|..], counter + |r.out|, key)
  }

  lemma ReceiveFaithful(r: Run, n: nat, frames: seq<Frame>, counter: nat, key: Block)
    requires Sendable(frames) && Faithful(r, frames, counter, key)
    ensures Faithful(Step(r, Receive(n), counter, key), frames, counter, key)
  {
    hide Encode;
    var r' := Step(r, Receive(n), counter, key);
    assert r'.pending + r'.unread == r.pending + r.unread;
  }

  lemma GotFaithful(r: Run, frames: seq<Frame>, counter: nat, key: Block)
    requires Sendable(frames) && Faithful(r, frames, counter, key) && |r.out| < |frames|
    ensures Faithful(Step(r, TryNext, counter, key), frames, counter, key)
  {
    hide Extract, Wire;
    var k := |r.out|;
    var f, rest := frames[k], Encode(frames[k + 1..], counter + k + 1, key);
    assert frames[k..][0] == f && frames[k..][1..] == frames[k + 1..];
    assert Encode(frames[k..], counter + k, key) == Wire(f, counter + k, key) + rest;
    ExtractPrefix(f, counter + k, key, r.pending, r.unread, rest);
    EncodeSnoc(frames[..k], f, counter, key);
    assert frames[..k] + [f] == frames[..k + 1];
  }

  lemma StepFaithful(r: Run, action: Action, frames: seq<Frame>, counter: nat, key: Block)
    requires Sendable(frames) && Faithful(r, frames, counter, key)
    ensures Faithful(Step(r, action, counter, key), frames, counter, key)
  {
    hide Extract, Wire;
    match action
    case Receive(n) => ReceiveFaithful(r, n, frames, counter, key);
    case TryNext =>
      if |r.out| < |frames| {
        GotFaithful(r, frames, counter, key);
      } else {
        assert r.pending == [];
        ExtractNothing(counter + |r.out|, key);
      }
  }

  lemma ExtractNothing(counter: nat, key: Block)
    ensures Extract([], counter, key) == NeedMore
  {
  }

  lemma {:induction false} ExecuteFaithful(r: Run, schedule: seq<Action>, frames: seq<Frame>, counter: nat, key: Block)
    requires Sendable(frames) && Faithful(r, frames, counter, key)
    ensures Faithful(Execute(r, schedule, counter, key), frames, counter, key)
    decreases |schedule|
  {
    hide Faithful, Step;
    if schedule != [] {
      var before := schedule[..|schedule| - 1];
      ExecuteFaithful(r, before, frames, counter, key);
      StepFaithful(Execute(r, before, counter, key), schedule[|schedule| - 1], frames, counter, key);
    }
  }

  lemma FaithfulAccounts(r: Run, frames: seq<Frame>, counter: nat, key: Block)
    requires Sendable(frames) && Faithful(r, frames, counter, key)
    ensures r.consumed + r.pending + r.unread == Encode(frames, counter, key)
  {
    hide Encode;
    var k := |r.out|;
    EncodeAppend(frames[..k], frames[k..], counter, key);
    assert frames[..k] + frames[k..] == frames;
    assert r.consumed + r.pending + r.unread == r.consumed + (r.pending + r.unread);
  }

  lemma FaithfulFinishes(r: Run, frames: seq<Frame>, counter: nat, key: Block)
    requires Sendable(frames) && Faithful(r, frames, counter, key)
    requires r.unread == [] && Extract(r.pending, counter + |r.out|, key) == NeedMore
    ensures r.out == frames
  {
    hide Extract, Wire;
    var k := |r.out|;
    if k < |frames| {
      var rest := Encode(frames[k + 1..], counter + k + 1, key);
      assert frames[k..][0] == frames[k] && frames[k..][1..] == frames[k + 1..];
      ExtractPrefix(frames[k], counter + k, key, r.pending, [], rest);
    }
  }

  /** However the stream is cut and whenever extraction is tried: the frames come out in
      order, none lost, none invented; no byte is lost; and a reader that has received
      everything and still waits has returned every frame. */
  lemma Reassembly(frames: seq<Frame>, counter: nat, key: Block, schedule: seq<Action>)
    requires Sendable(frames)
    ensures var stream := Encode(frames, counter, key);
            var r := Execute(Run([], [], stream, [], false), schedule, counter, key);
            && r.out <= frames && !r.failed
            && r.consumed + r.pending + r.unread == stream
            && (r.unread == [] && Extract(r.pending, counter + |r.out|, key) == NeedMore ==> r.out == frames)
  {
    hide Extract, Step, Execute, Wire;
    var stream := Encode(frames, counter, key);
    var start := Run([], [], stream, [], false);
    assert frames[0..] == frames && frames[..0] == [] && [] + stream == stream;
    ExecuteFaithful(start, schedule, frames, counter, key);
    var r := Execute(start, schedule, counter, key);
    FaithfulAccounts(r, frames, counter, key);
    if r.unread == [] && Extract(r.pending, counter + |r.out|, key) == NeedMore {
      FaithfulFinishes(r, frames, counter, key);
    }
  }
}
