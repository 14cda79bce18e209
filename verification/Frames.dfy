/** Encrypted wire frames: a four-byte header that is also the associated data, the
    ciphertext and a sixteen-byte tag. Counter frames take their nonce from a 64-bit
    counter; explicit frames carry eight nonce bytes in a twelve-byte header. */
module Frames {
  import opened Bytes
  import opened Aes
  import opened Aegis
  import opened AegisCipher

  const HEADER_LEN: nat := 4
  const EXPLICIT_HEADER_LEN: nat := 12
  const TAG_LEN: nat := 16
  const MAX_PAYLOAD: nat := 65535
  const MAX_WIRE: nat := HEADER_LEN + MAX_PAYLOAD + TAG_LEN

  const HANDSHAKE: byte := 0x01
  const DATA: byte := 0x02
  const KEEPALIVE: byte := 0x03
  const CLOSE: byte := 0x04
  const KEYCONFIRM: byte := 0x05
  const REKEY: byte := 0x06
  const FLAG_NONE: byte := 0x00

  datatype Frame = Frame(kind: byte, flags: byte, payload: bytes)

  /** The two keys of a session: one to send with, one to receive with. */
  datatype Keys = Keys(enc: Block, dec: Block)

  // ---- Nonces ----

  /** The counter's low 64 bits, little-endian, then eight zero bytes. */
  function Nonce(counter: nat): Block {
    LittleEndian(counter, 8) + Zeros(8)
  }

  /** Counters below 2^64 never share a nonce. */
  lemma NonceInjective(a: nat, b: nat)
    requires a < Pow256(8) && b < Pow256(8)
    requires Nonce(a) == Nonce(b)
    ensures a == b
  {
    FromLittleEndianInverts(a, 8);
    FromLittleEndianInverts(b, 8);
    assert Nonce(a)[..8] == LittleEndian(a, 8) && Nonce(b)[..8] == LittleEndian(b, 8);
  }

  /** Byte i of a nonce is digit i of the counter in base 256, for the low eight bytes, and zero
      beyond; a counter of 64 bits is read back from them. */
  lemma NonceBytes(counter: nat, i: nat)
    requires i < 16
    ensures Num(Nonce(counter)[i]) == if i < 8 then counter / Pow256(i) % 256 else 0
    ensures counter < Pow256(8) ==> FromLittleEndian(Nonce(counter)[..8]) == counter
  {
    hide LittleEndian, FromLittleEndian, Pow256, Num;
    assert Nonce(counter)[..8] == LittleEndian(counter, 8);
    if i < 8 {
      LittleEndianByte(counter, 8, i);
    } else {
      ZeroIsZero();
    }
    if counter < Pow256(8) {
      FromLittleEndianInverts(counter, 8);
    }
  }

  lemma ZeroIsZero()
    ensures Num(0) == 0
  {
  }

  // ---- Counter frames ----

  function Header(kind: byte, flags: byte, len: nat): (h: bytes)
    ensures |h| == HEADER_LEN
  {
    [kind, flags] + BigEndian(len, 2)
  }

  /** The payload length a header announces. */
  function PayloadLen(h: bytes): nat
    requires |h| >= HEADER_LEN
  {
    FromBigEndian(h[2..4])
  }

  function Build(f: Frame, counter: nat, key: Block): Option<bytes> {
    if |f.payload| > MAX_PAYLOAD then None
    else
      var h := Header(f.kind, f.flags, |f.payload|);
      var s := Encrypt(key, Nonce(counter), h, f.payload);
      Some(h + s.ciphertext + s.tag)
  }

  function Parse(buf: bytes, counter: nat, key: Block): Option<Frame> {
    if |buf| < HEADER_LEN + TAG_LEN then None
    else
      var n := PayloadLen(buf);
      if |buf| != HEADER_LEN + n + TAG_LEN then None
      else
        match Decrypt(key, Nonce(counter), buf[..HEADER_LEN], buf[HEADER_LEN..HEADER_LEN + n], buf[HEADER_LEN + n..])
        case None => None
        case Some(d) => Some(Frame(buf[0], buf[1], d))
  }

  /** The four header bytes: kind, flags, and the length's high and low byte. */
  lemma HeaderBytes(kind: byte, flags: byte, len: nat)
    requires len <= MAX_PAYLOAD
    ensures var h := Header(kind, flags, len);
            h[0] == kind && h[1] == flags && Num(h[2]) == len / 256 && Num(h[3]) == len % 256
  {
    hide Num;
    BigEndianByte(len, 2, 0);
    BigEndianByte(len, 2, 1);
    assert Pow256(1) == 256 * Pow256(0) && Pow256(0) == 1;
  }

  /** The length read from a header is 256 times its high byte plus its low byte. */
  lemma LengthBytes(h: bytes)
    requires |h| >= HEADER_LEN
    ensures PayloadLen(h) == 256 * Num(h[2]) + Num(h[3])
  {
    hide Num;
    var s := h[2..4];
    assert s[..1] == [h[2]] && [h[2]][..0] == [];
    assert FromBigEndian([h[2]]) == 256 * FromBigEndian([h[2]][..0]) + Num(h[2]);
    assert FromBigEndian(s) == 256 * FromBigEndian(s[..1]) + Num(h[3]);
  }

  lemma HeaderFields(kind: byte, flags: byte, len: nat, rest: bytes)
    requires len <= MAX_PAYLOAD
    ensures var b := Header(kind, flags, len) + rest;
            b[0] == kind && b[1] == flags && PayloadLen(b) == len
  {
    var b := Header(kind, flags, len) + rest;
    assert b[2..4] == BigEndian(len, 2);
    FromBigEndianInverts(len, 2);
  }

  /** A header is determined by its fields. */
  lemma HeaderOfBytes(h: bytes)
    requires |h| == HEADER_LEN
    ensures PayloadLen(h) <= MAX_PAYLOAD
    ensures h == Header(h[0], h[1], PayloadLen(h))
  {
    BigEndianInverts(h[2..4]);
  }

  lemma BuiltParses(f: Frame, counter: nat, key: Block)
    requires |f.payload| <= MAX_PAYLOAD
    ensures var w := Build(f, counter, key).value;
            |w| == HEADER_LEN + |f.payload| + TAG_LEN && PayloadLen(w) == |f.payload| &&
            Parse(w, counter, key) == Some(f)
  {
    hide Encrypt, Decrypt, Nonce, Header, PayloadLen;
    var n := |f.payload|;
    var h := Header(f.kind, f.flags, n);
    var s := Encrypt(key, Nonce(counter), h, f.payload);
    var w := h + s.ciphertext + s.tag;
    DecryptInvertsEncrypt(key, Nonce(counter), h, f.payload);
    HeaderFields(f.kind, f.flags, n, s.ciphertext + s.tag);
    assert w == h + (s.ciphertext + s.tag);
    assert w[..HEADER_LEN] == h;
    assert w[HEADER_LEN..HEADER_LEN + n] == s.ciphertext && w[HEADER_LEN + n..] == s.tag;
  }

  lemma ParsedBuilds(buf: bytes, counter: nat, key: Block)
    requires Parse(buf, counter, key).Some?
    ensures Build(Parse(buf, counter, key).value, counter, key) == Some(buf)
  {
    hide Encrypt, Decrypt, Nonce, Header;
    var f := Parse(buf, counter, key).value;
    var n := PayloadLen(buf);
    var h, c, tag := buf[..HEADER_LEN], buf[HEADER_LEN..HEADER_LEN + n], buf[HEADER_LEN + n..];
    DecryptExact(key, Nonce(counter), h, c, tag, f.payload);
    DecryptInvertsEncrypt(key, Nonce(counter), h, f.payload);
    HeaderOfBytes(h);
    assert h[2..4] == buf[2..4];
    assert buf == h + c + tag;
  }

  /** Parsing returns a frame exactly when building that frame gives the buffer, byte for byte. */
  lemma ParseExact(buf: bytes, f: Frame, counter: nat, key: Block)
    ensures Parse(buf, counter, key) == Some(f) <==> Build(f, counter, key) == Some(buf)
  {
    hide Build, Parse;
    if Parse(buf, counter, key) == Some(f) {
      ParsedBuilds(buf, counter, key);
    }
    if Build(f, counter, key) == Some(buf) {
      BuildFails(f, counter, key);
      BuiltParses(f, counter, key);
    }
  }

  /** Where things stand in a frame: the first four bytes are authenticated, the payload's
      ciphertext follows, and the tag comes last, under the counter's nonce. */
  lemma FrameLayout(f: Frame, counter: nat, key: Block)
    requires |f.payload| <= MAX_PAYLOAD
    ensures var w, n := Build(f, counter, key).value, |f.payload|;
            && |w| == 4 + n + 16 && w[0] == f.kind && w[1] == f.flags
            && Decrypt(key, LittleEndian(counter, 8) + Zeros(8), w[..4], w[4..4 + n], w[4 + n..]) == Some(f.payload)
  {
    hide Encrypt, Decrypt, LittleEndian, Header, PayloadLen;
    var n := |f.payload|;
    var h := Header(f.kind, f.flags, n);
    var s := Encrypt(key, Nonce(counter), h, f.payload);
    var w := h + s.ciphertext + s.tag;
    DecryptInvertsEncrypt(key, Nonce(counter), h, f.payload);
    HeaderFields(f.kind, f.flags, n, s.ciphertext + s.tag);
    assert w == h + (s.ciphertext + s.tag);
    assert w[..4] == h && w[4..4 + n] == s.ciphertext && w[4 + n..] == s.tag;
  }

  /** Building fails for oversized payloads only. */
  lemma BuildFails(f: Frame, counter: nat, key: Block)
    ensures Build(f, counter, key).None? <==> |f.payload| > MAX_PAYLOAD
  {
  }

  // ---- Explicit-nonce frames ----

  function BuildExplicit(f: Frame, nonce8: bytes, key: Block): Option<bytes>
    requires |nonce8| == 8
  {
    if |f.payload| > MAX_PAYLOAD then None
    else
      var h := Header(f.kind, f.flags, |f.payload|) + nonce8;
      var s := Encrypt(key, nonce8 + Zeros(8), h, f.payload);
      Some(h + s.ciphertext + s.tag)
  }

  function ParseExplicit(buf: bytes, key: Block): Option<Frame> {
    if |buf| < EXPLICIT_HEADER_LEN + TAG_LEN then None
    else
      var n := PayloadLen(buf);
      if |buf| != EXPLICIT_HEADER_LEN + n + TAG_LEN then None
      else
        var E := EXPLICIT_HEADER_LEN;
        match Decrypt(key, buf[4..E] + Zeros(8), buf[..E], buf[E..E + n], buf[E + n..])
        case None => None
        case Some(d) => Some(Frame(buf[0], buf[1], d))
  }

  lemma BuiltExplicitParses(f: Frame, nonce8: bytes, key: Block)
    requires |f.payload| <= MAX_PAYLOAD && |nonce8| == 8
    ensures var w := BuildExplicit(f, nonce8, key).value;
            |w| == EXPLICIT_HEADER_LEN + |f.payload| + TAG_LEN && w[4..12] == nonce8 &&
            ParseExplicit(w, key) == Some(f)
  {
    hide Encrypt, Decrypt, Header, PayloadLen;
    var n, E := |f.payload|, EXPLICIT_HEADER_LEN;
    var h := Header(f.kind, f.flags, n) + nonce8;
    var s := Encrypt(key, nonce8 + Zeros(8), h, f.payload);
    var w := h + s.ciphertext + s.tag;
    DecryptInvertsEncrypt(key, nonce8 + Zeros(8), h, f.payload);
    HeaderFields(f.kind, f.flags, n, nonce8 + s.ciphertext + s.tag);
    assert w == Header(f.kind, f.flags, n) + (nonce8 + s.ciphertext + s.tag);
    assert w[..E] == h && w[4..E] == nonce8;
    assert w[E..E + n] == s.ciphertext && w[E + n..] == s.tag;
  }

  /** In the explicit form twelve bytes are authenticated, the last eight of them being the
      nonce's first eight. */
  lemma ExplicitLayout(f: Frame, nonce8: bytes, key: Block)
    requires |f.payload| <= MAX_PAYLOAD && |nonce8| == 8
    ensures var w, n := BuildExplicit(f, nonce8, key).value, |f.payload|;
            && |w| == 12 + n + 16 && w[0] == f.kind && w[1] == f.flags && w[4..12] == nonce8
            && Decrypt(key, w[4..12] + Zeros(8), w[..12], w[12..12 + n], w[12 + n..]) == Some(f.payload)
  {
    hide Encrypt, Decrypt, Header, PayloadLen;
    var n := |f.payload|;
    var h4 := Header(f.kind, f.flags, n);
    var h := h4 + nonce8;
    var s := Encrypt(key, nonce8 + Zeros(8), h, f.payload);
    var w := h + s.ciphertext + s.tag;
    DecryptInvertsEncrypt(key, nonce8 + Zeros(8), h, f.payload);
    HeaderFields(f.kind, f.flags, n, nonce8 + s.ciphertext + s.tag);
    assert w == h4 + (nonce8 + s.ciphertext + s.tag);
    assert w[..12] == h && w[4..12] == nonce8 && w[12..12 + n] == s.ciphertext && w[12 + n..] == s.tag;
  }

  lemma ParsedExplicitBuilds(buf: bytes, key: Block)
    requires ParseExplicit(buf, key).Some?
    ensures |buf| >= 12 && BuildExplicit(ParseExplicit(buf, key).value, buf[4..12], key) == Some(buf)
  {
    hide Encrypt, Decrypt, Header;
    var f := ParseExplicit(buf, key).value;
    var n, E := PayloadLen(buf), EXPLICIT_HEADER_LEN;
    var h, c, tag := buf[..E], buf[E..E + n], buf[E + n..];
    var nonce := buf[4..E] + Zeros(8);
    DecryptExact(key, nonce, h, c, tag, f.payload);
    DecryptInvertsEncrypt(key, nonce, h, f.payload);
    HeaderOfBytes(buf[..4]);
    assert buf[..4][2..4] == buf[2..4];
    assert h == buf[..4] + buf[4..E];
    assert buf == h + c + tag;
  }

  /** The explicit form too: accepted buffers are exactly those built with the nonce they carry. */
  lemma ParseExplicitExact(buf: bytes, f: Frame, key: Block)
    ensures ParseExplicit(buf, key) == Some(f) <==>
            |buf| >= 12 && BuildExplicit(f, buf[4..12], key) == Some(buf)
  {
    if ParseExplicit(buf, key) == Some(f) {
      ParsedExplicitBuilds(buf, key);
    }
    if |buf| >= 12 && BuildExplicit(f, buf[4..12], key) == Some(buf) {
      BuiltExplicitParses(f, buf[4..12], key);
    }
  }

  // ---- Buffers ----

  lemma SliceOfSlice(buf: array<byte>, off: nat, n: nat, i: nat, j: nat)
    requires off + n <= buf.Length && i <= j <= n
    ensures buf[off..off + n][i..j] == buf[off + i..off + j]
  {
    var w := buf[off..off + n];
    forall k | 0 <= k < j - i ensures w[i..j][k] == buf[off + i..off + j][k] {
      assert w[i..j][k] == w[i + k] == buf[off + (i + k)];
    }
  }

  lemma Assembled(b: bytes, h: bytes, c: bytes, tag: bytes)
    requires |h| + |c| + |tag| <= |b|
    ensures var r := Splice(Splice(Splice(b, 0, h), |h|, c), |h| + |c|, tag);
            var n := |h| + |c| + |tag|;
            r[..n] == h + c + tag && r[n..] == b[n..]
  {
    SpliceTwice(b, 0, h, c);
    SpliceTwice(b, 0, h + c, tag);
    SpliceParts(b, 0, h + c + tag);
  }

  /** Header, ciphertext and tag in place, the header bytes in the buffer being the associated data. */
  method SealInto(buf: array<byte>, h: bytes, d: array<byte>, len: nat, nonce: Block, key: Block) returns (outLen: nat)
    requires buf != d && len <= d.Length && |h| + len + TAG_LEN <= buf.Length
    modifies buf
    ensures outLen == |h| + len + TAG_LEN && buf[outLen..] == old(buf[outLen..])
    ensures var s := Encrypt(key, nonce, h, d[..len]); buf[..outLen] == h + s.ciphertext + s.tag
  {
    hide Encrypt, Splice;
    ghost var b, s := buf[..], Encrypt(key, nonce, h, d[..len]);
    DecryptInvertsEncrypt(key, nonce, h, d[..len]);
    Write(buf, 0, h);
    SpliceParts(b, 0, h);
    assert buf[0..0 + |h|] == buf[..][0..0 + |h|] && d[0..0 + len] == d[..len];
    var tag := EncryptInto(buf, |h|, d, 0, len, buf, 0, |h|, nonce, key);
    Write(buf, |h| + len, tag);
    outLen := |h| + len + TAG_LEN;
    Assembled(b, h, s.ciphertext, s.tag);
    assert buf[..outLen] == buf[..][..outLen] && buf[outLen..] == buf[..][outLen..];
  }

  /** Opens a frame at buf[off..] with a header of hlen bytes and n bytes of ciphertext. */
  method OpenFrom(buf: array<byte>, off: nat, hlen: nat, n: nat, d: array<byte>, nonce: Block, key: Block) returns (ok: bool)
    requires buf != d && off + hlen + n + TAG_LEN <= buf.Length && n <= d.Length
    modifies d
    ensures var w := buf[off..off + hlen + n + TAG_LEN];
            var r := Decrypt(key, nonce, w[..hlen], w[hlen..hlen + n], w[hlen + n..]);
            (ok <==> r.Some?) && (ok ==> r.value == d[..n])
  {
    hide Decrypt, Splice, Absorb, Init, Decipher;
    ghost var w, d0 := buf[off..off + hlen + n + TAG_LEN], d[..];
    var tag := buf[off + hlen + n..off + hlen + n + TAG_LEN];
    SliceOfSlice(buf, off, |w|, 0, hlen);
    SliceOfSlice(buf, off, |w|, hlen, hlen + n);
    SliceOfSlice(buf, off, |w|, hlen + n, |w|);
    ok := DecryptInto(d, 0, buf, off + hlen, n, buf, off, hlen, nonce, key, tag);
    if ok {
      DecryptLength(key, nonce, w[..hlen], w[hlen..hlen + n], tag);
      SpliceParts(d0, 0, Decrypt(key, nonce, w[..hlen], w[hlen..hlen + n], tag).value);
      assert d[..n] == d[..][0..0 + n];
    }
  }

  lemma DecryptLength(key: Block, nonce: Block, ad: bytes, c: bytes, tag: Block)
    requires Decrypt(key, nonce, ad, c, tag).Some?
    ensures |Decrypt(key, nonce, ad, c, tag).value| == |c|
  {
  }

  method FrameBuild(buf: array<byte>, kind: byte, flags: byte, d: array<byte>, len: nat, counter: nat, key: Block)
    returns (ok: bool, outLen: nat)
    requires buf != d && len <= d.Length
    requires len <= MAX_PAYLOAD ==> HEADER_LEN + len + TAG_LEN <= buf.Length
    modifies buf
    ensures ok <==> Build(Frame(kind, flags, d[..len]), counter, key).Some?
    ensures ok ==> outLen <= buf.Length && buf[outLen..] == old(buf[outLen..]) &&
                   Build(Frame(kind, flags, d[..len]), counter, key) == Some(buf[..outLen])
    ensures !ok ==> buf[..] == old(buf[..])
  {
    hide Encrypt, Nonce, Header;
    if len > MAX_PAYLOAD {
      return false, 0;
    }
    outLen := SealInto(buf, Header(kind, flags, len), d, len, Nonce(counter), key);
    ok := true;
  }

  /** Reads one frame of buflen bytes at buf[off..]; d receives the payload. */
  method FrameParse(buf: array<byte>, off: nat, buflen: nat, d: array<byte>, counter: nat, key: Block)
    returns (ok: bool, kind: byte, flags: byte, dlen: nat)
    requires buf != d && off + buflen <= buf.Length
    requires buflen <= d.Length + HEADER_LEN + TAG_LEN
    modifies d
    ensures ok <==> Parse(buf[off..off + buflen], counter, key).Some?
    ensures ok ==> dlen <= d.Length && Parse(buf[off..off + buflen], counter, key) == Some(Frame(kind, flags, d[..dlen]))
  {
    hide Decrypt, Nonce, FromBigEndian;
    ghost var w := buf[off..off + buflen];
    if buflen < HEADER_LEN + TAG_LEN {
      return false, 0, 0, 0;
    }
    kind, flags := buf[off], buf[off + 1];
    var n := PayloadLen(buf[off..off + HEADER_LEN]);
    SliceOfSlice(buf, off, buflen, 2, 4);
    SliceOfSlice(buf, off, HEADER_LEN, 2, 4);
    if buflen != HEADER_LEN + n + TAG_LEN {
      return false, kind, flags, 0;
    }
    ok := OpenFrom(buf, off, HEADER_LEN, n, d, Nonce(counter), key);
    dlen := if ok then n else 0;
  }

  /** nonce8 stands for the eight random bytes, or their failure. */
  method FrameBuildExplicit(buf: array<byte>, kind: byte, flags: byte, d: array<byte>, len: nat,
                            nonce8: Option<bytes>, key: Block)
    returns (ok: bool, outLen: nat)
    requires buf != d && len <= d.Length && (nonce8.Some? ==> |nonce8.value| == 8)
    requires len <= MAX_PAYLOAD ==> EXPLICIT_HEADER_LEN + len + TAG_LEN <= buf.Length
    modifies buf
    ensures ok <==> nonce8.Some? && len <= MAX_PAYLOAD
    ensures ok ==> outLen <= buf.Length && buf[outLen..] == old(buf[outLen..]) &&
                   BuildExplicit(Frame(kind, flags, d[..len]), nonce8.value, key) == Some(buf[..outLen])
  {
    hide Encrypt, Header;
    if len > MAX_PAYLOAD {
      return false, 0;
    }
    var h := Header(kind, flags, len);
    Write(buf, 0, h);
    if nonce8.None? {
      return false, 0;
    }
    ghost var b := buf[..];
    outLen := SealInto(buf, h + nonce8.value, d, len, nonce8.value + Zeros(8), key);
    SpliceParts(old(buf[..]), 0, h);
    assert b[outLen..] == b[HEADER_LEN..][outLen - HEADER_LEN..] == old(buf[..])[HEADER_LEN..][outLen - HEADER_LEN..];
    ok := true;
  }

  method FrameParseExplicit(buf: array<byte>, off: nat, buflen: nat, d: array<byte>, key: Block)
    returns (ok: bool, kind: byte, flags: byte, dlen: nat)
    requires buf != d && off + buflen <= buf.Length
    requires buflen <= d.Length + EXPLICIT_HEADER_LEN + TAG_LEN
    modifies d
    ensures ok <==> ParseExplicit(buf[off..off + buflen], key).Some?
    ensures ok ==> dlen <= d.Length && ParseExplicit(buf[off..off + buflen], key) == Some(Frame(kind, flags, d[..dlen]))
  {
    hide Decrypt, FromBigEndian;
    ghost var w := buf[off..off + buflen];
    if buflen < EXPLICIT_HEADER_LEN + TAG_LEN {
      return false, 0, 0, 0;
    }
    kind, flags := buf[off], buf[off + 1];
    var n := PayloadLen(buf[off..off + HEADER_LEN]);
    SliceOfSlice(buf, off, buflen, 2, 4);
    SliceOfSlice(buf, off, HEADER_LEN, 2, 4);
    if buflen != EXPLICIT_HEADER_LEN + n + TAG_LEN {
      return false, kind, flags, 0;
    }
    var nonce8 := buf[off + 4..off + EXPLICIT_HEADER_LEN];
    SliceOfSlice(buf, off, buflen, 4, EXPLICIT_HEADER_LEN);
    ok := OpenFrom(buf, off, EXPLICIT_HEADER_LEN, n, d, nonce8 + Zeros(8), key);
    dlen := if ok then n else 0;
  }
}
