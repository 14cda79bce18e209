/** The buffered stream reader: one fixed buffer, compacted before every receive. */
module FrameReader {
  import opened Bytes
  import opened Aes
  import opened AegisCipher
  import opened Frames
  import opened FrameStream

  /** What one recv call reports. Available(b) offers the bytes b; it delivers as many of
      them as fit, and end of stream when there are none. */
  datatype Recv = Available(b: bytes) | Interrupted | WouldBlock | Failed

  datatype Filled = GotData | NoData | BufferFull | ReadError

  /** Bytes a receive takes into a buffer that holds pending. */
  function Taken(pending: bytes, eof: bool, r: Recv): (t: bytes)
    requires |pending| <= MAX_WIRE
    ensures |pending + t| <= MAX_WIRE
  {
    if !eof && r.Available? then r.b[..Min(|r.b|, MAX_WIRE - |pending|)] else []
  }

  function FillResult(pending: bytes, eof: bool, r: Recv): Filled
    requires |pending| <= MAX_WIRE
  {
    if eof then NoData
    else if |pending| == MAX_WIRE then BufferFull
    else
      match r
      case Failed => ReadError
      case Interrupted => GotData
      case WouldBlock => NoData
      case Available(b) => if b == [] then NoData else GotData
  }

  datatype Outcome =
    | Received(frame: Frame)
    | CleanEof
    | Truncated
    | Unauthentic
    | Overflow
    | Broken
    | Blocked

  /** What is left to arrive when the first recv has delivered n bytes: bytes that did not fit
      stay in the socket. */
  function Left(arrivals: seq<Recv>, n: nat): seq<Recv>
    requires arrivals != []
  {
    if arrivals[0].Available? && n < |arrivals[0].b| then [Available(arrivals[0].b[n..])] + arrivals[1..]
    else arrivals[1..]
  }

  /** How much there is to receive, in bytes and calls. */
  function Supply(arrivals: seq<Recv>): nat {
    if arrivals == [] then 0
    else 1 + (if arrivals[0].Available? then |arrivals[0].b| else 0) + Supply(arrivals[1..])
  }

  /** A read: what it returns, and buffer, end-of-file mark and arrivals afterwards. */
  datatype Read = Read(outcome: Outcome, pending: bytes, eof: bool, arrivals: seq<Recv>)

  /** The blocking read on a given sequence of recv results. Blocked means the sequence ended
      while the call was still waiting. */
  function NextRead(pending: bytes, eof: bool, arrivals: seq<Recv>, counter: nat, key: Block): (r: Read)
    requires |pending| <= MAX_WIRE
    ensures |r.pending| <= MAX_WIRE
    decreases Supply(arrivals)
  {
    match Extract(pending, counter, key)
    case Got(f, used) => Read(Received(f), pending[used..], eof, arrivals)
    case Bad => Read(Unauthentic, pending, eof, arrivals)
    case NeedMore =>
      if arrivals == [] then Read(Blocked, pending, eof, arrivals)
      else
        var r := arrivals[0];
        var t := Taken(pending, eof, r);
        match FillResult(pending, eof, r)
        case BufferFull => Read(Overflow, pending, eof, arrivals)
        case ReadError => Read(Broken, pending, eof, arrivals[1..])
        case NoData =>
          Read(if pending != [] then Truncated else CleanEof, pending, eof || r == Available([]),
               if eof then arrivals else arrivals[1..])
        case GotData => LeftIsLess(pending, eof, arrivals); NextRead(pending + t, eof, Left(arrivals, |t|), counter, key)
  }

  lemma LeftIsLess(pending: bytes, eof: bool, arrivals: seq<Recv>)
    requires |pending| <= MAX_WIRE && arrivals != [] && FillResult(pending, eof, arrivals[0]) == GotData
    ensures Supply(Left(arrivals, |Taken(pending, eof, arrivals[0])|)) < Supply(arrivals)
  {
    var n := |Taken(pending, eof, arrivals[0])|;
    if arrivals[0].Available? && n < |arrivals[0].b| {
      assert Left(arrivals, n)[1..] == arrivals[1..];
    }
  }

  /** The buffer-full error cannot happen: a reader that asks for more has room for more. */
  lemma {:induction false} NeverOverflows(pending: bytes, eof: bool, arrivals: seq<Recv>, counter: nat, key: Block)
    requires |pending| <= MAX_WIRE
    ensures NextRead(pending, eof, arrivals, counter, key).outcome != Overflow
    decreases Supply(arrivals)
  {
    hide Extract;
    if Extract(pending, counter, key) == NeedMore && arrivals != [] {
      NeedMoreLeavesRoom(pending, counter, key);
      if FillResult(pending, eof, arrivals[0]) == GotData {
        LeftIsLess(pending, eof, arrivals);
        var t := Taken(pending, eof, arrivals[0]);
        NeverOverflows(pending + t, eof, Left(arrivals, |t|), counter, key);
      }
    }
  }

  /** What the other answers of recv do to a read that needs more: an interruption changes nothing,
      a failure is reported, and an empty socket is reported like the end of the stream but
      not remembered as one. */
  lemma OtherAnswers(pending: bytes, rest: seq<Recv>, counter: nat, key: Block)
    requires |pending| <= MAX_WIRE && Extract(pending, counter, key) == NeedMore
    ensures NextRead(pending, false, [Interrupted] + rest, counter, key) == NextRead(pending, false, rest, counter, key)
    ensures NextRead(pending, false, [Failed] + rest, counter, key) == Read(Broken, pending, false, rest)
    ensures NextRead(pending, false, [WouldBlock] + rest, counter, key) ==
            Read(if pending == [] then CleanEof else Truncated, pending, false, rest)
  {
    hide Extract;
    NeedMoreLeavesRoom(pending, counter, key);
    assert ([Interrupted] + rest)[1..] == rest && ([Failed] + rest)[1..] == rest && ([WouldBlock] + rest)[1..] == rest;
    assert pending + [] == pending;
  }

  // ---- A stream that ends ----

  /** Bytes arrive in nonempty pieces, with interruptions, and then the stream ends. */
  ghost predicate Ends(arrivals: seq<Recv>) {
    && arrivals != [] && arrivals[|arrivals| - 1] == Available([])
    && forall i :: 0 <= i < |arrivals| - 1 ==> arrivals[i] == Interrupted || (arrivals[i].Available? && arrivals[i].b != [])
  }

  function Arriving(arrivals: seq<Recv>): bytes {
    if arrivals == [] then []
    else (if arrivals[0].Available? then arrivals[0].b else []) + Arriving(arrivals[1..])
  }

  /** A proper front part of some frame, or nothing. */
  ghost predicate PartOfFrame(part: bytes, key: Block) {
    part == [] ||
    exists f: Frame, n: nat :: |f.payload| <= MAX_PAYLOAD && |part| < |Wire(f, n, key)| && part <= Wire(f, n, key)
  }

  lemma EndsAfter(pending: bytes, arrivals: seq<Recv>)
    requires |pending| < MAX_WIRE && Ends(arrivals) && arrivals[0] != Available([])
    ensures FillResult(pending, false, arrivals[0]) == GotData
    ensures var t := Taken(pending, false, arrivals[0]);
            && Ends(Left(arrivals, |t|)) && t + Arriving(Left(arrivals, |t|)) == Arriving(arrivals)
  {
    hide Ends, Arriving, Taken, FillResult;
    EndsSome(arrivals);
    EndsLater(arrivals);
    ArrivesFirst(arrivals);
    TakenIs(pending, arrivals[0]);
    if arrivals[0].Available? {
      var b, k := arrivals[0].b, Min(|arrivals[0].b|, MAX_WIRE - |pending|);
      CutInTwo(b, k);
      if k < |b| {
        EndsWith(b[k..], arrivals);
        JoinArriving(b[..k], b[k..], arrivals);
      }
    }
  }

  lemma TakenIs(pending: bytes, r: Recv)
    requires |pending| < MAX_WIRE && (r == Interrupted || (r.Available? && r.b != []))
    ensures FillResult(pending, false, r) == GotData
    ensures Taken(pending, false, r) == if r.Available? then r.b[..Min(|r.b|, MAX_WIRE - |pending|)] else []
  {
  }

  lemma CutInTwo(b: bytes, k: nat)
    requires k <= |b|
    ensures b[..k] + b[k..] == b && (k == |b| ==> b[..k] == b)
  {
  }

  lemma EndsLater(arrivals: seq<Recv>)
    requires Ends(arrivals) && arrivals[0] != Available([])
    ensures Ends(arrivals[1..])
    ensures arrivals[0] == Interrupted || (arrivals[0].Available? && arrivals[0].b != [])
  {
    var n := |arrivals|;
    assert n > 1;
    var later := arrivals[1..];
    assert later[n - 2] == arrivals[n - 1];
    forall i | 0 <= i < |later| - 1 ensures later[i] == Interrupted || (later[i].Available? && later[i].b != []) {
      assert later[i] == arrivals[i + 1];
    }
  }

  lemma ArrivesFirst(arrivals: seq<Recv>)
    requires arrivals != []
    ensures Arriving(arrivals) == (if arrivals[0].Available? then arrivals[0].b else []) + Arriving(arrivals[1..])
    ensures [] + Arriving(arrivals[1..]) == Arriving(arrivals[1..])
  {
  }

  lemma EndsWith(b: bytes, arrivals: seq<Recv>)
    requires arrivals != [] && Ends(arrivals[1..]) && b != []
    ensures Ends([Available(b)] + arrivals[1..])
  {
    var all := [Available(b)] + arrivals[1..];
    assert all[1..] == arrivals[1..];
  }

  lemma JoinArriving(a: bytes, b: bytes, arrivals: seq<Recv>)
    requires arrivals != []
    ensures a + Arriving([Available(b)] + arrivals[1..]) == (a + b) + Arriving(arrivals[1..])
  {
    var all := [Available(b)] + arrivals[1..];
    assert all[1..] == arrivals[1..] && all[0] == Available(b);
    assert Arriving(all) == b + Arriving(arrivals[1..]);
  }

  lemma NothingArrives(arrivals: seq<Recv>)
    requires Ends(arrivals) && arrivals[0] == Available([])
    ensures Arriving(arrivals) == [] && arrivals == [Available([])]
  {
    assert |arrivals| == 1;
    assert arrivals[1..] == [];
  }

  /** One read of a stream that ends: the next frame if there is one; otherwise a clean end, or a
      truncated frame if a part of one is there. */
  lemma {:induction false} ReadOfEndingStream(pending: bytes, arrivals: seq<Recv>, frames: seq<Frame>, part: bytes, counter: nat, key: Block)
    requires |pending| <= MAX_WIRE && Ends(arrivals) && Sendable(frames) && PartOfFrame(part, key)
    requires pending + Arriving(arrivals) == Encode(frames, counter, key) + part
    ensures var r := NextRead(pending, false, arrivals, counter, key);
            if frames == [] then r.outcome == (if part == [] then CleanEof else Truncated)
            else
              && r.outcome == Received(frames[0]) && !r.eof && Ends(r.arrivals)
              && r.pending + Arriving(r.arrivals) == Encode(frames[1..], counter + 1, key) + part
    decreases Supply(arrivals)
  {
    hide Wire, Extract, PartOfFrame, Arriving, Ends;
    if frames == [] {
      PartWaits(pending, Arriving(arrivals), part, counter, key);
    } else {
      assert Encode(frames, counter, key) + part == Wire(frames[0], counter, key) + (Encode(frames[1..], counter + 1, key) + part);
      ExtractPrefix(frames[0], counter, key, pending, Arriving(arrivals), Encode(frames[1..], counter + 1, key) + part);
    }
    if Extract(pending, counter, key) == NeedMore {
      EndsSome(arrivals);
      NeedMoreLeavesRoom(pending, counter, key);
      if arrivals[0] == Available([]) {
        NothingArrives(arrivals);
      } else {
        EndsAfter(pending, arrivals);
        LeftIsLess(pending, false, arrivals);
        var t := Taken(pending, false, arrivals[0]);
        var left := Left(arrivals, |t|);
        assert (pending + t) + Arriving(left) == pending + Arriving(arrivals);
        ReadOfEndingStream(pending + t, left, frames, part, counter, key);
      }
    }
  }

  lemma EndsSome(arrivals: seq<Recv>)
    requires Ends(arrivals)
    ensures arrivals != []
  {
  }

  lemma PartWaits(pending: bytes, unread: bytes, part: bytes, counter: nat, key: Block)
    requires PartOfFrame(part, key) && pending + unread == part
    ensures Extract(pending, counter, key) == NeedMore
  {
    hide Wire, Extract;
    if part == [] {
      assert pending == [];
      ExtractNothing(counter, key);
    } else {
      var f: Frame, n: nat :| |f.payload| <= MAX_PAYLOAD && |part| < |Wire(f, n, key)| && part <= Wire(f, n, key);
      assert pending <= part;
      ExtractCut(f, n, key, pending, counter, key);
    }
  }

  /** Reads repeated, each under the next counter, until one returns no frame or, behind the
      first limit frames, once more. */
  function ReadAll(pending: bytes, eof: bool, arrivals: seq<Recv>, counter: nat, key: Block, limit: nat): (seq<Frame>, Outcome)
    requires |pending| <= MAX_WIRE
    decreases limit
  {
    var r := NextRead(pending, eof, arrivals, counter, key);
    if !r.outcome.Received? || limit == 0 then ([], r.outcome)
    else
      var (frames, end) := ReadAll(r.pending, r.eof, r.arrivals, counter + 1, key, limit - 1);
      ([r.outcome.frame] + frames, end)
  }

  /** A stream of frames that ends, cut into any pieces, is read as exactly those frames and then
      a clean end; with a part of a further frame at its end, a truncated frame is reported. */
  lemma {:induction false} StreamEnds(pending: bytes, arrivals: seq<Recv>, frames: seq<Frame>, part: bytes, counter: nat, key: Block)
    requires |pending| <= MAX_WIRE && Ends(arrivals) && Sendable(frames) && PartOfFrame(part, key)
    requires pending + Arriving(arrivals) == Encode(frames, counter, key) + part
    ensures ReadAll(pending, false, arrivals, counter, key, |frames|) == (frames, if part == [] then CleanEof else Truncated)
    decreases |frames|
  {
    hide NextRead, Wire, PartOfFrame, Arriving, Ends;
    ReadOfEndingStream(pending, arrivals, frames, part, counter, key);
    if frames != [] {
      var r := NextRead(pending, false, arrivals, counter, key);
      StreamEnds(r.pending, r.arrivals, frames[1..], part, counter + 1, key);
      assert [frames[0]] + frames[1..] == frames;
    }
  }

  lemma Appended(before: bytes, buf: array<byte>, len: nat, x: bytes)
    requires len + |x| <= |before| == buf.Length && buf[..] == Splice(before, len, x)
    ensures buf[0..len + |x|] == before[..len] + x
  {
    SpliceParts(before, len, x);
    assert buf[0..len + |x|] == buf[..][..len] + buf[..][len..len + |x|];
  }

  // The three answers of Extract, case by case.

  lemma ExtractShort(p: bytes, counter: nat, key: Block)
    requires |p| < HEADER_LEN || |p| < HEADER_LEN + PayloadLen(p) + TAG_LEN
    ensures Extract(p, counter, key) == NeedMore
  {
    hide Parse;
  }

  lemma ExtractWhole(p: bytes, counter: nat, key: Block)
    requires |p| >= HEADER_LEN && |p| >= HEADER_LEN + PayloadLen(p) + TAG_LEN
    ensures var total := HEADER_LEN + PayloadLen(p) + TAG_LEN;
            var r := Parse(p[..total], counter, key);
            Extract(p, counter, key) == if r.Some? then Got(r.value, total) else Bad
  {
    hide Parse;
  }

  lemma PayloadLenOf(p: bytes)
    requires |p| >= HEADER_LEN
    ensures PayloadLen(p) == PayloadLen(p[..HEADER_LEN]) <= MAX_PAYLOAD
  {
    HeaderOfBytes(p[..HEADER_LEN]);
    assert p[..HEADER_LEN][2..4] == p[2..4];
  }

  class Reader {
    const buf: array<byte>
    var bufLen: nat
    var bufOff: nat
    var eof: bool

    ghost predicate Valid()
      reads this
    {
      buf.Length == MAX_WIRE && bufOff <= bufLen <= MAX_WIRE
    }

    ghost function Pending(): (p: bytes)
      requires Valid()
      reads this, buf
      ensures |p| <= MAX_WIRE
    {
      buf[bufOff..bufLen]
    }

    constructor ()
      ensures Valid() && fresh(buf) && Pending() == [] && !eof
    {
      buf := new byte[MAX_WIRE];
      bufLen, bufOff, eof := 0, 0, false;
    }

    /** Copies n bytes from off to the front; the ranges may overlap. */
    method MoveDown(off: nat, n: nat)
      requires off + n <= buf.Length
      modifies buf
      ensures buf[..n] == old(buf[off..off + n])
    {
      ghost var p := buf[off..off + n];
      for i := 0 to n
        invariant forall k :: 0 <= k < i ==> buf[k] == p[k]
        invariant forall k :: i <= k < n ==> buf[off + k] == p[k]
      {
        buf[i] := buf[off + i];
      }
      assert buf[..n] == p;
    }

    /** Moves the unprocessed bytes to the front. */
    method Compact()
      requires Valid()
      modifies this, buf
      ensures Valid() && Pending() == old(Pending()) && bufOff == 0 && eof == old(eof)
    {
      if bufOff > 0 && bufOff < bufLen {
        var remaining := bufLen - bufOff;
        MoveDown(bufOff, remaining);
        bufLen := remaining;
      } else if bufOff >= bufLen {
        bufLen := 0;
      }
      bufOff := 0;
    }

    method Fill(r: Recv) returns (f: Filled)
      requires Valid()
      modifies this, buf
      ensures Valid() && f == FillResult(old(Pending()), old(eof), r)
      ensures Pending() == old(Pending()) + (if f == GotData then Taken(old(Pending()), old(eof), r) else [])
      ensures eof == (old(eof) || (f == NoData && r == Available([])))
    {
      if eof {
        return NoData;
      }
      Compact();
      ghost var all := buf[..];
      assert Pending() == all[..bufLen];
      var space := MAX_WIRE - bufLen;
      if space == 0 {
        return BufferFull;
      }
      match r {
        case Failed => return ReadError;
        case Interrupted => return GotData;
        case WouldBlock => return NoData;
        case Available(b) =>
          var n := Min(|b|, space);
          if n == 0 {
            eof := true;
            return NoData;
          }
          Write(buf, bufLen, b[..n]);
          Appended(all, buf, bufLen, b[..n]);
          bufLen := bufLen + n;
          return GotData;
      }
    }

    /** Extracts one complete frame, if there is one. The code is 1 for a frame, 0 to wait
        and -1 for a frame that fails to authenticate. */
    method TryNext(payload: array<byte>, counter: nat, key: Block)
      returns (code: int, kind: byte, flags: byte, plen: nat)
      requires Valid() && payload != buf && payload.Length >= MAX_PAYLOAD
      modifies this, payload
      ensures Valid() && eof == old(eof) && plen <= payload.Length
      ensures match Extract(old(Pending()), counter, key)
              case NeedMore => code == 0 && Pending() == old(Pending())
              case Bad => code == -1 && Pending() == old(Pending())
              case Got(f, used) =>
                code == 1 && f == Frame(kind, flags, payload[..plen]) && Pending() == old(Pending())[used..]
    {
      hide Parse, PayloadLen, Extract;
      kind, flags, plen := 0, 0, 0;
      ghost var p := Pending();
      if bufLen - bufOff < HEADER_LEN {
        ExtractShort(p, counter, key);
        return 0, kind, flags, plen;
      }
      SliceOfSlice(buf, bufOff, bufLen - bufOff, 0, HEADER_LEN);
      PayloadLenOf(p);
      var n := PayloadLen(buf[bufOff..bufOff + HEADER_LEN]);
      var total := HEADER_LEN + n + TAG_LEN;
      if bufLen - bufOff < total {
        ExtractShort(p, counter, key);
        return 0, kind, flags, plen;
      }
      ExtractWhole(p, counter, key);
      SliceOfSlice(buf, bufOff, bufLen - bufOff, 0, total);
      SliceOfSlice(buf, bufOff, bufLen - bufOff, total, bufLen - bufOff);
      var ok: bool;
      ok, kind, flags, plen := FrameParse(buf, bufOff, total, payload, counter, key);
      if !ok {
        return -1, kind, flags, 0;
      }
      bufOff := bufOff + total;
      code := 1;
    }

    /** Blocks until a frame, an error or the end of the stream. */
    method Next(payload: array<byte>, arrivals: seq<Recv>, counter: nat, key: Block)
      returns (o: Outcome, left: seq<Recv>)
      requires Valid() && payload != buf && payload.Length >= MAX_PAYLOAD
      modifies this, buf, payload
      ensures Valid() && Read(o, Pending(), eof, left) == NextRead(old(Pending()), old(eof), arrivals, counter, key)
      ensures o != Overflow
    {
      hide Extract;
      ghost var goal := NextRead(Pending(), eof, arrivals, counter, key);
      NeverOverflows(Pending(), eof, arrivals, counter, key);
      left := arrivals;
      while true
        invariant Valid() && NextRead(Pending(), eof, left, counter, key) == goal
        decreases Supply(left)
      {
        var code, kind, flags, plen := TryNext(payload, counter, key);
        if code == 1 {
          return Received(Frame(kind, flags, payload[..plen])), left;
        } else if code == -1 {
          return Unauthentic, left;
        }
        if left == [] {
          return Blocked, left;
        }
        var had, ended := bufLen - bufOff, eof;
        ghost var p := Pending();
        var f := Fill(left[0]);
        match f {
          case BufferFull => return Overflow, left;
          case ReadError => return Broken, left[1..];
          case NoData =>
            return if bufLen - bufOff > 0 then Truncated else CleanEof, if ended then left else left[1..];
          case GotData =>
            LeftIsLess(p, ended, left);
            left := Left(left, (bufLen - bufOff) - had);
        }
      }
    }
  }
}
