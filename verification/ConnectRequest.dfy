/** The SOCKS5 connect request: the first frame of a proxied connection, under counter 1. */
module ConnectRequest {
  import opened Bytes
  import opened Aes
  import opened Frames
  import opened FrameStream

  datatype Target = Target(host: bytes, port: nat)

  const MAX_HOST: nat := 255
  const MAX_REQUEST: nat := 260
  const REQUEST_COUNTER: nat := 1

  /** Port and host length, two bytes each, then the host; the length field keeps the low
      sixteen bits. */
  function BuildRequest(t: Target): bytes {
    BigEndian(t.port, 2) + BigEndian(|t.host|, 2) + t.host
  }

  function ParseRequest(p: bytes): Option<Target> {
    if |p| < 4 then None
    else
      var n := FromBigEndian(p[2..4]);
      if |p| < 4 + n || n > MAX_HOST then None
      else Some(Target(p[4..4 + n], FromBigEndian(p[..2])))
  }

  lemma BuiltFields(t: Target, rest: bytes)
    requires t.port < 65536 && |t.host| <= MAX_HOST
    ensures var p := BuildRequest(t) + rest;
            FromBigEndian(p[..2]) == t.port && FromBigEndian(p[2..4]) == |t.host| && p[4..4 + |t.host|] == t.host
  {
    hide BigEndian, FromBigEndian;
    var p := BuildRequest(t) + rest;
    FromBigEndianInverts(t.port, 2);
    FromBigEndianInverts(|t.host|, 2);
    assert p[..2] == BigEndian(t.port, 2) && p[2..4] == BigEndian(|t.host|, 2);
  }

  /** A request is read as a target exactly when it begins with that target's encoding;
      bytes after it are ignored. */
  lemma ParseRequestExact(p: bytes, t: Target)
    ensures ParseRequest(p) == Some(t) <==> t.port < 65536 && |t.host| <= MAX_HOST && BuildRequest(t) <= p
  {
    hide BigEndian, FromBigEndian;
    if ParseRequest(p) == Some(t) {
      BigEndianInverts(p[..2]);
      BigEndianInverts(p[2..4]);
      assert BuildRequest(t) == p[..2] + p[2..4] + p[4..4 + |t.host|] == p[..4 + |t.host|];
    }
    if t.port < 65536 && |t.host| <= MAX_HOST && BuildRequest(t) <= p {
      BuiltFields(t, p[|BuildRequest(t)|..]);
      assert BuildRequest(t) + p[|BuildRequest(t)|..] == p;
    }
  }

  /** The encoding reads back exactly for hosts of at most 255 bytes. */
  lemma RequestRoundTrip(t: Target)
    requires t.port < 65536
    ensures ParseRequest(BuildRequest(t)) == Some(t) <==> |t.host| <= MAX_HOST
  {
    ParseRequestExact(BuildRequest(t), t);
  }

  /** What the client puts on the stream. */
  function SendRequest(t: Target, key: Block): bytes
    requires |t.host| <= MAX_HOST
  {
    Wire(Frame(DATA, FLAG_NONE, BuildRequest(t)), REQUEST_COUNTER, key)
  }

  /** What the server reads from the front of the stream, and how many bytes that takes. */
  function ReceiveRequest(stream: bytes, key: Block): Option<(Target, nat)> {
    if |stream| < HEADER_LEN then None
    else
      var n := PayloadLen(stream);
      var total := HEADER_LEN + n + TAG_LEN;
      if n < 4 || n > MAX_REQUEST || |stream| < total then None
      else
        match Parse(stream[..total], REQUEST_COUNTER, key)
        case None => None
        case Some(f) =>
          match ParseRequest(f.payload)
          case None => None
          case Some(t) => Some((t, total))
  }

  /** Whatever follows it on the stream, the server reads the client's target and leaves the
      rest untouched. */
  lemma RequestArrives(t: Target, key: Block, rest: bytes)
    requires t.port < 65536 && |t.host| <= MAX_HOST
    ensures ReceiveRequest(SendRequest(t, key) + rest, key) == Some((t, |SendRequest(t, key)|))
  {
    hide Build, Parse, BuildRequest, ParseRequest, FromBigEndian;
    var f := Frame(DATA, FLAG_NONE, BuildRequest(t));
    var w := SendRequest(t, key);
    RequestLength(t);
    BuiltParses(f, REQUEST_COUNTER, key);
    RequestRoundTrip(t);
    assert (w + rest)[2..4] == w[2..4] && (w + rest)[..|w|] == w;
  }

  /** A request is read from a stream exactly when the stream begins, under counter 1, with a frame
      of at most 260 payload bytes, of any kind, whose payload begins with the encoding. */
  ghost predicate BeginsWithRequest(stream: bytes, key: Block, t: Target, n: nat) {
    exists f: Frame :: |f.payload| <= MAX_REQUEST && Wire(f, REQUEST_COUNTER, key) <= stream &&
                       n == |Wire(f, REQUEST_COUNTER, key)| && ParseRequest(f.payload) == Some(t)
  }

  lemma ReceiveRequestExact(stream: bytes, key: Block, t: Target, n: nat)
    ensures ReceiveRequest(stream, key) == Some((t, n)) <==> BeginsWithRequest(stream, key, t, n)
  {
    hide Build, Parse, FromBigEndian;
    if ReceiveRequest(stream, key) == Some((t, n)) {
      var p := stream[..n];
      var f := Parse(p, REQUEST_COUNTER, key).value;
      ParsedBuilds(p, REQUEST_COUNTER, key);
      BuildFails(f, REQUEST_COUNTER, key);
      BuiltParses(f, REQUEST_COUNTER, key);
      assert Wire(f, REQUEST_COUNTER, key) == p;
    }
    if BeginsWithRequest(stream, key, t, n) {
      var f: Frame :| |f.payload| <= MAX_REQUEST && Wire(f, REQUEST_COUNTER, key) <= stream &&
                      n == |Wire(f, REQUEST_COUNTER, key)| && ParseRequest(f.payload) == Some(t);
      BuiltParses(f, REQUEST_COUNTER, key);
      assert stream[2..4] == Wire(f, REQUEST_COUNTER, key)[2..4] && stream[..n] == Wire(f, REQUEST_COUNTER, key);
    }
  }

  lemma RequestLength(t: Target)
    ensures |BuildRequest(t)| == 4 + |t.host|
  {
  }

  // ---- Buffers ----

  method BuildConnectReq(out: array<byte>, host: bytes, port: nat) returns (olen: nat)
    requires 4 + |host| <= out.Length
    modifies out
    ensures olen == 4 + |host| && out[..olen] == BuildRequest(Target(host, port))
  {
    hide BigEndian;
    var p, n := BigEndian(port, 2), BigEndian(|host|, 2);
    out[0], out[1], out[2], out[3] := p[0], p[1], n[0], n[1];
    for i := 0 to |host|
      invariant out[0] == p[0] && out[1] == p[1] && out[2] == n[0] && out[3] == n[1]
      invariant forall k :: 0 <= k < i ==> out[4 + k] == host[k]
    {
      out[4 + i] := host[i];
    }
    olen := 4 + |host|;
    ghost var r := BuildRequest(Target(host, port));
    forall k | 0 <= k < olen ensures out[k] == r[k] {
      if k >= 4 {
        assert out[4 + (k - 4)] == host[k - 4];
      }
    }
  }

  method ParseConnectReq(p: array<byte>, len: nat) returns (t: Option<Target>)
    requires len <= p.Length
    ensures t == ParseRequest(p[..len])
  {
    if len < 4 {
      return None;
    }
    var port, n := FromBigEndian(p[0..2]), FromBigEndian(p[2..4]);
    assert p[..len][..2] == p[0..2] && p[..len][2..4] == p[2..4];
    if len < 4 + n {
      return None;
    }
    if n > MAX_HOST {
      return None;
    }
    assert p[..len][4..4 + n] == p[4..4 + n];
    t := Some(Target(p[4..4 + n], port));
  }
}
