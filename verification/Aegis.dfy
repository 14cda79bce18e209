/** AEGIS-128 as the portable C implementation computes it, written as recursion over
    16-byte blocks. The buffers, loops and streaming calls are in AegisCipher. */
module Aegis {
  import opened Bytes
  import opened Aes

  /** The five state words. */
  datatype State = State(s0: Block, s1: Block, s2: Block, s3: Block, s4: Block)

  /** Every word is computed from the old values of its own word and its neighbour. */
  function Update(S: State, m: Block): State {
    State(Xor(Xor(Round(S.s4), S.s0), m),
          Xor(Round(S.s0), S.s1),
          Xor(Round(S.s1), S.s2),
          Xor(Round(S.s2), S.s3),
          Xor(Round(S.s3), S.s4))
  }

  function KeyStream(S: State): Block {
    Xor(Xor(S.s1, S.s4), And(S.s2, S.s3))
  }

  /** Zero padding of a final partial block. */
  function Pad(m: bytes): Block
    requires |m| <= 16
  {
    m + Zeros(16 - |m|)
  }

  // ---- Initialisation ----

  const C0: Block := [0x00, 0x01, 0x01, 0x02, 0x03, 0x05, 0x08, 0x0d, 0x15, 0x22, 0x33, 0x59, 0x90, 0xe9, 0x62, 0x62]

  const C1: Block := [0xdb, 0x3d, 0x18, 0x55, 0x6d, 0xc2, 0x2f, 0xf1, 0x20, 0x11, 0x31, 0x42, 0x73, 0xb5, 0x28, 0xdd]

  /** The state after n initialisation rounds, which absorb key ^ nonce and the key in turn. */
  function InitRounds(key: Block, nonce: Block, n: nat): State {
    if n == 0 then State(Xor(key, nonce), C1, C0, key, Xor(key, nonce))
    else Update(InitRounds(key, nonce, n - 1), if (n - 1) % 2 == 0 then Xor(key, nonce) else key)
  }

  function Init(key: Block, nonce: Block): State {
    InitRounds(key, nonce, 10)
  }

  // ---- Absorbing, enciphering, deciphering ----

  /** The state after absorbing data block by block, the last partial block zero-padded.
      Associated data and plaintext drive the state alike. */
  function Absorb(S: State, data: bytes): State
    decreases |data|
  {
    if |data| == 0 then S
    else if |data| < 16 then Update(S, Pad(data))
    else Absorb(Update(S, data[..16]), data[16..])
  }

  /** Ciphertext of m from state S; the state afterwards is Absorb(S, m). */
  function Encipher(S: State, m: bytes): (c: bytes)
    ensures |c| == |m|
    decreases |m|
  {
    if |m| < 16 then Xor(m, KeyStream(S))
    else Xor(m[..16], KeyStream(S)) + Encipher(Update(S, m[..16]), m[16..])
  }

  /** Plaintext of c from state S; each recovered block is what the next state absorbs. */
  function Decipher(S: State, c: bytes): (m: bytes)
    ensures |m| == |c|
    decreases |c|
  {
    if |c| < 16 then Xor(c, KeyStream(S))
    else
      var p := Xor(c[..16], KeyStream(S));
      p + Decipher(Update(S, p), c[16..])
  }

  lemma {:induction false} DecipherInvertsEncipher(S: State, m: bytes)
    ensures Decipher(S, Encipher(S, m)) == m
    decreases |m|
  {
    hide Update, KeyStream, Xor;
    if |m| < 16 {
      XorTwice(m, KeyStream(S));
    } else {
      var p := m[..16];
      var c := Encipher(S, m);
      XorTwice(p, KeyStream(S));
      DecipherInvertsEncipher(Update(S, p), m[16..]);
      assert c[..16] == Xor(p, KeyStream(S)) && c[16..] == Encipher(Update(S, p), m[16..]);
    }
  }

  lemma {:induction false} EncipherInvertsDecipher(S: State, c: bytes)
    ensures Encipher(S, Decipher(S, c)) == c
    decreases |c|
  {
    hide Update, KeyStream, Xor;
    if |c| < 16 {
      XorTwice(c, KeyStream(S));
    } else {
      var p := Xor(c[..16], KeyStream(S));
      var m := Decipher(S, c);
      XorTwice(c[..16], KeyStream(S));
      EncipherInvertsDecipher(Update(S, p), c[16..]);
      assert m[..16] == p && m[16..] == Decipher(Update(S, p), c[16..]);
    }
  }

  lemma NothingToDo(S: State)
    ensures Absorb(S, []) == S && Encipher(S, []) == [] && Decipher(S, []) == []
  {
  }

  // ---- Tag ----

  function Xor5(S: State): Block {
    Xor(Xor(Xor(Xor(S.s0, S.s1), S.s2), S.s3), S.s4)
  }

  /** The state after n tag rounds, each of which absorbs the sum of the five words. */
  function TagRounds(S: State, n: nat): State {
    if n == 0 then S else var T := TagRounds(S, n - 1); Update(T, Xor5(T))
  }

  function Tag(S: State): Block {
    Xor5(TagRounds(S, 7))
  }

  // ---- One-shot authenticated encryption ----

  datatype Sealed = Sealed(ciphertext: bytes, tag: Block)

  function Encrypt(key: Block, nonce: Block, ad: bytes, m: bytes): Sealed {
    var S := Absorb(Init(key, nonce), ad);
    Sealed(Encipher(S, m), Tag(Absorb(S, m)))
  }

  /** The candidate plaintext, if its tag is the one received. */
  function Decrypt(key: Block, nonce: Block, ad: bytes, c: bytes, tag: Block): Option<bytes> {
    var S := Absorb(Init(key, nonce), ad);
    var m := Decipher(S, c);
    if Tag(Absorb(S, m)) == tag then Some(m) else None
  }

  /** Decryption returns m exactly when m encrypts to the ciphertext and tag it was given. */
  lemma DecryptExact(key: Block, nonce: Block, ad: bytes, c: bytes, tag: Block, m: bytes)
    ensures Decrypt(key, nonce, ad, c, tag) == Some(m) <==> Encrypt(key, nonce, ad, m) == Sealed(c, tag)
  {
    hide Init, Absorb, Encipher, Decipher, Tag;
    var S := Absorb(Init(key, nonce), ad);
    DecipherInvertsEncipher(S, m);
    EncipherInvertsDecipher(S, c);
  }

  /** Decryption rejects exactly the pairs that no message encrypts to. */
  lemma DecryptRejectsExactly(key: Block, nonce: Block, ad: bytes, c: bytes, tag: Block)
    ensures Decrypt(key, nonce, ad, c, tag) == None <==>
            forall m: bytes :: Encrypt(key, nonce, ad, m) != Sealed(c, tag)
  {
    hide Encrypt, Decrypt;
    forall m: bytes ensures Decrypt(key, nonce, ad, c, tag) == Some(m) <==> Encrypt(key, nonce, ad, m) == Sealed(c, tag) {
      DecryptExact(key, nonce, ad, c, tag, m);
    }
    var d := Decrypt(key, nonce, ad, c, tag);
    if d.Some? {
      assert Encrypt(key, nonce, ad, d.value) == Sealed(c, tag);
    }
  }

  lemma DecryptInvertsEncrypt(key: Block, nonce: Block, ad: bytes, m: bytes)
    ensures var s := Encrypt(key, nonce, ad, m);
            |s.ciphertext| == |m| && Decrypt(key, nonce, ad, s.ciphertext, s.tag) == Some(m)
  {
    hide Init, Absorb, Tag;
    var s := Encrypt(key, nonce, ad, m);
    DecryptExact(key, nonce, ad, s.ciphertext, s.tag, m);
  }

  // ---- Streaming in pieces ----

  lemma {:induction false} AbsorbSplit(S: State, a: bytes, b: bytes)
    requires |a| % 16 == 0
    ensures Absorb(S, a + b) == Absorb(Absorb(S, a), b)
    decreases |a|
  {
    hide Update;
    if a == [] {
      assert a + b == b;
    } else {
      AbsorbSplit(Update(S, a[..16]), a[16..], b);
      assert (a + b)[..16] == a[..16] && (a + b)[16..] == a[16..] + b;
    }
  }

  lemma {:induction false} EncipherSplit(S: State, a: bytes, b: bytes)
    requires |a| % 16 == 0
    ensures Encipher(S, a + b) == Encipher(S, a) + Encipher(Absorb(S, a), b)
    decreases |a|
  {
    hide Update, KeyStream, Xor;
    if a == [] {
      assert a + b == b;
    } else {
      EncipherSplit(Update(S, a[..16]), a[16..], b);
      assert (a + b)[..16] == a[..16] && (a + b)[16..] == a[16..] + b;
    }
  }

  lemma {:induction false} DecipherSplit(S: State, a: bytes, b: bytes)
    requires |a| % 16 == 0
    ensures Decipher(S, a + b) == Decipher(S, a) + Decipher(Absorb(S, Decipher(S, a)), b)
    decreases |a|
  {
    hide Update, KeyStream, Xor;
    if a == [] {
      assert a + b == b;
    } else {
      var p := Xor(a[..16], KeyStream(S));
      DecipherSplit(Update(S, p), a[16..], b);
      assert (a + b)[..16] == a[..16] && (a + b)[16..] == a[16..] + b;
      assert Decipher(S, a)[..16] == p && Decipher(S, a)[16..] == Decipher(Update(S, p), a[16..]);
    }
  }

  function Concat(pieces: seq<bytes>): bytes {
    if pieces == [] then [] else pieces[0] + Concat(pieces[1..])
  }

  ghost predicate WholeBlocks(pieces: seq<bytes>) {
    forall i :: 0 <= i < |pieces| ==> |pieces[i]| % 16 == 0
  }

  function AbsorbPieces(S: State, pieces: seq<bytes>): State
    decreases |pieces|
  {
    if pieces == [] then S else AbsorbPieces(Absorb(S, pieces[0]), pieces[1..])
  }

  function EncipherPieces(S: State, pieces: seq<bytes>): bytes
    decreases |pieces|
  {
    if pieces == [] then [] else Encipher(S, pieces[0]) + EncipherPieces(Absorb(S, pieces[0]), pieces[1..])
  }

  function DecipherPieces(S: State, pieces: seq<bytes>): bytes
    decreases |pieces|
  {
    if pieces == [] then []
    else
      var m := Decipher(S, pieces[0]);
      m + DecipherPieces(Absorb(S, m), pieces[1..])
  }

  /** The decryptor too: it recovers the plaintext of the uncut ciphertext, and its state is
      the one that plaintext leads to. */
  lemma {:induction false} DecipherPiecesAgree(S: State, pieces: seq<bytes>, last: bytes)
    requires WholeBlocks(pieces)
    ensures var m := DecipherPieces(S, pieces);
            m + Decipher(Absorb(S, m), last) == Decipher(S, Concat(pieces) + last) && |m| % 16 == 0
    decreases |pieces|
  {
    hide Absorb, Decipher;
    if pieces == [] {
      assert Concat(pieces) + last == last;
      NothingToDo(S);
    } else {
      var first, rest := pieces[0], Concat(pieces[1..]) + last;
      var m := Decipher(S, first);
      var T := Absorb(S, m);
      DecipherPiecesAgree(T, pieces[1..], last);
      DecipherSplit(S, first, rest);
      AbsorbSplit(S, m, DecipherPieces(T, pieces[1..]));
      assert Concat(pieces) + last == first + rest;
    }
  }

  /** However the data is cut at block boundaries across streaming calls, with a last piece
      of any length, the state and the ciphertext are those of the uncut data. */
  lemma {:induction false} PiecesAgree(S: State, pieces: seq<bytes>, last: bytes)
    requires WholeBlocks(pieces)
    ensures Absorb(AbsorbPieces(S, pieces), last) == Absorb(S, Concat(pieces) + last)
    ensures EncipherPieces(S, pieces) + Encipher(AbsorbPieces(S, pieces), last) == Encipher(S, Concat(pieces) + last)
    decreases |pieces|
  {
    hide Absorb, Encipher;
    if pieces == [] {
      assert Concat(pieces) + last == last;
    } else {
      var first, rest := pieces[0], Concat(pieces[1..]) + last;
      PiecesAgree(Absorb(S, first), pieces[1..], last);
      AbsorbSplit(S, first, rest);
      EncipherSplit(S, first, rest);
      assert Concat(pieces) + last == first + rest;
    }
  }

  // ---- What the tag depends on ----

  /** The blocks that data is absorbed as. */
  function Blocks(data: bytes): seq<Block>
    decreases |data|
  {
    if |data| == 0 then []
    else if |data| < 16 then [Pad(data)]
    else var b: Block := data[..16]; [b] + Blocks(data[16..])
  }

  function AbsorbBlocks(S: State, ms: seq<Block>): State
    decreases |ms|
  {
    if ms == [] then S else AbsorbBlocks(Update(S, ms[0]), ms[1..])
  }

  lemma {:induction false} AbsorbIsOfBlocks(S: State, data: bytes)
    ensures Absorb(S, data) == AbsorbBlocks(S, Blocks(data))
    decreases |data|
  {
    hide Update;
    if |data| >= 16 {
      AbsorbIsOfBlocks(Update(S, data[..16]), data[16..]);
      assert Blocks(data)[1..] == Blocks(data[16..]);
    } else if data != [] {
      assert Blocks(data)[1..] == [];
    }
  }

  lemma {:induction false} AbsorbBlocksSplit(S: State, a: seq<Block>, b: seq<Block>)
    ensures AbsorbBlocks(S, a + b) == AbsorbBlocks(AbsorbBlocks(S, a), b)
    decreases |a|
  {
    hide Update;
    if a == [] {
      assert a + b == b;
    } else {
      AbsorbBlocksSplit(Update(S, a[0]), a[1..], b);
      assert (a + b)[0] == a[0] && (a + b)[1..] == a[1..] + b;
    }
  }

  /** The tag sees the padded blocks of associated data and message in one row, and neither
      their lengths nor where the one ends and the other begins. */
  lemma TagSeesBlocksOnly(key: Block, nonce: Block, ad: bytes, m: bytes, ad': bytes, m': bytes)
    requires Blocks(ad) + Blocks(m) == Blocks(ad') + Blocks(m')
    ensures Encrypt(key, nonce, ad, m).tag == Encrypt(key, nonce, ad', m').tag
  {
    hide Absorb, AbsorbBlocks, Blocks, Encipher, Init, Tag;
    var S := Init(key, nonce);
    AbsorbIsOfBlocks(S, ad);
    AbsorbIsOfBlocks(Absorb(S, ad), m);
    AbsorbBlocksSplit(S, Blocks(ad), Blocks(m));
    AbsorbIsOfBlocks(S, ad');
    AbsorbIsOfBlocks(Absorb(S, ad'), m');
    AbsorbBlocksSplit(S, Blocks(ad'), Blocks(m'));
  }

  lemma {:induction false} BlocksIgnoreZero(data: bytes)
    requires |data| % 16 != 0
    ensures Blocks(data + [0]) == Blocks(data)
    decreases |data|
  {
    if |data| < 16 {
      assert Pad(data) == data + Zeros(16 - |data|);
      if |data| == 15 {
        assert (data + [0])[..16] == data + [0] == Pad(data) && (data + [0])[16..] == [];
      } else {
        assert Pad(data + [0]) == Pad(data);
      }
    } else {
      BlocksIgnoreZero(data[16..]);
      assert (data + [0])[..16] == data[..16] && (data + [0])[16..] == data[16..] + [0];
    }
  }

  lemma {:induction false} BlocksSplit(a: bytes, b: bytes)
    requires |a| % 16 == 0
    ensures Blocks(a + b) == Blocks(a) + Blocks(b)
    decreases |a|
  {
    if a == [] {
      assert a + b == b;
    } else {
      BlocksSplit(a[16..], b);
      assert (a + b)[..16] == a[..16] && (a + b)[16..] == a[16..] + b;
    }
  }

  /** A zero byte behind a partial block changes no tag, in the message or in the associated
      data, and a whole-block piece has one tag whichever of the two it is counted as. */
  lemma TagIgnoresLengths(key: Block, nonce: Block, ad: bytes, m: bytes, piece: bytes)
    ensures |m| % 16 != 0 ==> Encrypt(key, nonce, ad, m + [0]).tag == Encrypt(key, nonce, ad, m).tag
    ensures |ad| % 16 != 0 ==> Encrypt(key, nonce, ad + [0], m).tag == Encrypt(key, nonce, ad, m).tag
    ensures |ad| % 16 == 0 && |piece| % 16 == 0 ==>
              Encrypt(key, nonce, ad + piece, m).tag == Encrypt(key, nonce, ad, piece + m).tag
  {
    hide Encrypt, Blocks;
    if |m| % 16 != 0 {
      BlocksIgnoreZero(m);
      TagSeesBlocksOnly(key, nonce, ad, m + [0], ad, m);
    }
    if |ad| % 16 != 0 {
      BlocksIgnoreZero(ad);
      TagSeesBlocksOnly(key, nonce, ad + [0], m, ad, m);
    }
    if |ad| % 16 == 0 && |piece| % 16 == 0 {
      BlocksSplit(ad, piece);
      BlocksSplit(piece, m);
      assert Blocks(ad + piece) + Blocks(m) == Blocks(ad) + (Blocks(piece) + Blocks(m));
      TagSeesBlocksOnly(key, nonce, ad + piece, m, ad, piece + m);
    }
  }

  // ---- Difference propagation ----

  /** Word i is the last in which the states differ: words i+1..4 agree. */
  ghost predicate DiffersLastAt(A: State, B: State, i: nat)
    requires i < 5
  {
    && (i == 0 ==> A.s0 != B.s0)
    && (i == 1 ==> A.s1 != B.s1)
    && (i == 2 ==> A.s2 != B.s2)
    && (i == 3 ==> A.s3 != B.s3)
    && (i == 4 ==> A.s4 != B.s4)
    && (i < 1 ==> A.s1 == B.s1)
    && (i < 2 ==> A.s2 == B.s2)
    && (i < 3 ==> A.s3 == B.s3)
    && (i < 4 ==> A.s4 == B.s4)
  }

  lemma XorKeepsDifference(a: Block, b: Block, k: Block)
    requires a != b
    ensures Xor(a, k) != Xor(b, k)
  {
    if Xor(a, k) == Xor(b, k) {
      XorInjective(a, b, k);
    }
  }

  lemma DifferenceEnters(S: State, m: Block, m': Block)
    requires m != m'
    ensures DiffersLastAt(Update(S, m), Update(S, m'), 0)
  {
    var k := Xor(Round(S.s4), S.s0);
    XorKeepsDifference(m, m', k);
    XorCommutes(k, m);
    XorCommutes(k, m');
  }

  lemma RoundKeepsDifference(a: Block, b: Block, k: Block)
    requires a != b
    ensures Xor(Round(a), k) != Xor(Round(b), k)
  {
    RoundInjective(a, b);
    XorKeepsDifference(Round(a), Round(b), k);
  }

  /** One update moves the difference to the next word, whatever either run absorbs. */
  lemma DifferenceMoves(A: State, B: State, m: Block, m': Block, i: nat)
    requires i < 4
    requires DiffersLastAt(A, B, i)
    ensures DiffersLastAt(Update(A, m), Update(B, m'), i + 1)
  {
    match i {
      case 0 => RoundKeepsDifference(A.s0, B.s0, A.s1);
      case 1 => RoundKeepsDifference(A.s1, B.s1, A.s2);
      case 2 => RoundKeepsDifference(A.s2, B.s2, A.s3);
      case _ => RoundKeepsDifference(A.s3, B.s3, A.s4);
    }
  }

  lemma {:induction false} DifferenceSurvives(A: State, B: State, ms: seq<Block>, ns: seq<Block>, i: nat)
    requires i + |ms| < 5 && |ms| == |ns|
    requires DiffersLastAt(A, B, i)
    ensures AbsorbBlocks(A, ms) != AbsorbBlocks(B, ns)
    decreases |ms|
  {
    if ms != [] {
      DifferenceMoves(A, B, ms[0], ns[0], i);
      DifferenceSurvives(Update(A, ms[0]), Update(B, ns[0]), ms[1..], ns[1..], i + 1);
    }
  }

  /** Two runs that absorb different blocks from the same state stay different after that
      update and each of the next four, whatever blocks either of them absorbs meanwhile. */
  lemma DifferenceCannotCancelEarly(S: State, m: Block, m': Block, ms: seq<Block>, ns: seq<Block>)
    requires m != m' && |ms| == |ns| <= 4
    ensures AbsorbBlocks(Update(S, m), ms) != AbsorbBlocks(Update(S, m'), ns)
  {
    DifferenceEnters(S, m, m');
    DifferenceSurvives(Update(S, m), Update(S, m'), ms, ns, 0);
  }
}
