/** What the cipher computes, read off its bytes and its symmetries. */
module AegisBytes {
  import opened Bytes
  import opened Aes
  import opened Aegis

  // ---- Ciphertext ----

  lemma KeyStreamByte(S: State, j: nat)
    requires j < 16
    ensures KeyStream(S)[j] == S.s1[j] ^ S.s4[j] ^ (S.s2[j] & S.s3[j])
  {
  }

  lemma FirstBlockByte(S: State, m: bytes, j: nat)
    requires j < 16 && j < |m|
    ensures Encipher(S, m)[j] == m[j] ^ KeyStream(S)[j]
  {
    hide KeyStream, Update, Xor;
    XorByte(m[..if |m| < 16 then |m| else 16], KeyStream(S), j);
    if |m| < 16 {
      assert m[..|m|] == m;
    }
  }

  lemma XorByte(a: bytes, b: bytes, j: nat)
    requires |a| <= |b| && j < |a|
    ensures Xor(a, b)[j] == a[j] ^ b[j]
  {
  }

  /** Byte i of a ciphertext is byte i of the message combined with one byte each of words 1 to 4
      of the state that the blocks before it lead to. */
  lemma CiphertextByte(S: State, m: bytes, i: nat)
    requires i < |m|
    ensures var T, j := Absorb(S, m[..i - i % 16]), i % 16;
            Encipher(S, m)[i] == m[i] ^ (T.s1[j] ^ T.s4[j] ^ (T.s2[j] & T.s3[j]))
  {
    hide Absorb, Encipher, KeyStream;
    var k, j := i - i % 16, i % 16;
    var T := Absorb(S, m[..k]);
    EncipherSplit(S, m[..k], m[k..]);
    assert m == m[..k] + m[k..] && m[k..][j] == m[i];
    FirstBlockByte(T, m[k..], j);
    KeyStreamByte(T, j);
  }

  // ---- The state update ----

  function Rotated(S: State): State {
    State(S.s4, S.s0, S.s1, S.s2, S.s3)
  }

  /** Without a block the update treats all five words alike: it commutes with turning them. */
  lemma UpdateTurns(S: State)
    ensures Update(Rotated(S), Zeros(16)) == Rotated(Update(S, Zeros(16)))
  {
    hide Round;
    XorNothing(Xor(Round(S.s3), S.s4));
    XorNothing(Xor(Round(S.s4), S.s0));
  }

  lemma XorNothing(a: Block)
    ensures Xor(a, Zeros(16)) == a && Xor(Zeros(16), a) == a
  {
    forall i | 0 <= i < 16 ensures Xor(a, Zeros(16))[i] == a[i] && Xor(Zeros(16), a)[i] == a[i] {
      assert Zeros(16)[i] == 0;
    }
  }

  /** A zero word receives exactly the round of the word before it. */
  lemma UpdateOfZeroWord(S: State, m: Block)
    requires S.s1 == Zeros(16)
    ensures Update(S, m).s1 == Round(S.s0)
  {
    hide Round;
    XorNothing(Round(S.s0));
  }

  /** Each word is added to what it receives. */
  lemma UpdateAdds(S: State, m: Block)
    ensures Update(S, m).s1 == Xor(S.s1, Update(S.(s1 := Zeros(16)), m).s1)
  {
    hide Round;
    XorNothing(Round(S.s0));
    XorCommutes(S.s1, Round(S.s0));
  }

  /** The block enters word 0 only, and by addition. */
  lemma BlockEntersFirstWord(S: State, m: Block)
    ensures var T := Update(S, Zeros(16)); Update(S, m) == T.(s0 := Xor(T.s0, m))
  {
    hide Round;
    XorNothing(Xor(Round(S.s4), S.s0));
  }

  // ---- Initialisation ----

  /** Key and nonce can be read back from the first words; the constants stand in words 1 and 2. */
  lemma FirstWords(key: Block, nonce: Block)
    ensures var S := InitRounds(key, nonce, 0);
            S.s3 == key && Xor(S.s0, S.s3) == nonce && S.s4 == S.s0 && S.s1 == C1 && S.s2 == C0
  {
    XorCommutes(key, nonce);
    XorTwice(nonce, key);
  }

  /** Ten blocks are absorbed, the sum of key and nonce and the key in turn. */
  lemma InitAbsorbs(key: Block, nonce: Block)
    ensures var S, kn := InitRounds(key, nonce, 0), Xor(key, nonce);
            Init(key, nonce) == AbsorbBlocks(S, [kn, key, kn, key, kn, key, kn, key, kn, key])
  {
    hide Update;
    var kn := Xor(key, nonce);
    var blocks: seq<Block> := [kn, key, kn, key, kn, key, kn, key, kn, key];
    InitPrefix(key, nonce, blocks, 10);
    assert blocks[..10] == blocks;
  }

  lemma {:induction false} InitPrefix(key: Block, nonce: Block, blocks: seq<Block>, n: nat)
    requires n <= |blocks|
    requires forall i :: 0 <= i < |blocks| ==> blocks[i] == if i % 2 == 0 then Xor(key, nonce) else key
    ensures InitRounds(key, nonce, n) == AbsorbBlocks(InitRounds(key, nonce, 0), blocks[..n])
  {
    hide Update;
    if n > 0 {
      InitPrefix(key, nonce, blocks, n - 1);
      var S := InitRounds(key, nonce, 0);
      AbsorbBlocksSplit(S, blocks[..n - 1], [blocks[n - 1]]);
      assert blocks[..n] == blocks[..n - 1] + [blocks[n - 1]];
      OneBlock(AbsorbBlocks(S, blocks[..n - 1]), blocks[n - 1]);
    }
  }

  lemma OneBlock(S: State, m: Block)
    ensures AbsorbBlocks(S, [m]) == Update(S, m)
  {
    hide Update;
    assert [m][1..] == [];
  }

  /** With two bytes put right, the constants in a row are the Fibonacci numbers modulo 256. */
  lemma ConstantsAreFibonacci()
    ensures C0[10] == 0x33 && C0[14] == 0x62
    ensures var c10, c14: byte := 0x37, 0x79;
            && C0[0] == 0 && C0[1] == 1
            && C0[2] == C0[0] + C0[1] && C0[3] == C0[1] + C0[2] && C0[4] == C0[2] + C0[3] && C0[5] == C0[3] + C0[4] && C0[6] == C0[4] + C0[5]
            && C0[7] == C0[5] + C0[6] && C0[8] == C0[6] + C0[7] && C0[9] == C0[7] + C0[8] && c10 == C0[8] + C0[9] && C0[11] == C0[9] + c10
            && C0[12] == c10 + C0[11] && C0[13] == C0[11] + C0[12] && c14 == C0[12] + C0[13] && C0[15] == C0[13] + c14 && C1[0] == c14 + C0[15]
            && C1[1] == C0[15] + C1[0] && C1[2] == C1[0] + C1[1] && C1[3] == C1[1] + C1[2] && C1[4] == C1[2] + C1[3] && C1[5] == C1[3] + C1[4]
            && C1[6] == C1[4] + C1[5] && C1[7] == C1[5] + C1[6] && C1[8] == C1[6] + C1[7] && C1[9] == C1[7] + C1[8] && C1[10] == C1[8] + C1[9]
            && C1[11] == C1[9] + C1[10] && C1[12] == C1[10] + C1[11] && C1[13] == C1[11] + C1[12] && C1[14] == C1[12] + C1[13] && C1[15] == C1[13] + C1[14]
  {
  }

  // ---- The tag ----

  function TagStep(S: State): State {
    Update(S, Xor5(S))
  }

  lemma SevenRounds(S: State)
    ensures TagRounds(S, 7) == TagStep(TagStep(TagStep(TagStep(TagStep(TagStep(TagStep(S)))))))
  {
    hide Update, Xor5;
    assert TagRounds(S, 1) == TagStep(S);
    assert TagRounds(S, 2) == TagStep(TagRounds(S, 1));
    assert TagRounds(S, 3) == TagStep(TagRounds(S, 2));
    assert TagRounds(S, 4) == TagStep(TagRounds(S, 3));
    assert TagRounds(S, 5) == TagStep(TagRounds(S, 4));
    assert TagRounds(S, 6) == TagStep(TagRounds(S, 5));
  }

  lemma SumByte(S: State, j: nat)
    requires j < 16
    ensures Xor5(S)[j] == S.s0[j] ^ S.s1[j] ^ S.s2[j] ^ S.s3[j] ^ S.s4[j]
  {
  }

  /** Each byte of the tag is the sum of that byte of the five words after seven rounds. */
  lemma TagByte(S: State, j: nat)
    requires j < 16
    ensures var T := TagStep(TagStep(TagStep(TagStep(TagStep(TagStep(TagStep(S)))))));
            Tag(S)[j] == T.s0[j] ^ T.s1[j] ^ T.s2[j] ^ T.s3[j] ^ T.s4[j]
  {
    hide TagRounds, TagStep, Xor5;
    SevenRounds(S);
    SumByte(TagRounds(S, 7), j);
  }

  // ---- The whole cipher ----

  /** The blocks that lead from the first words to the state after associated data and message. */
  function Row(key: Block, nonce: Block, ad: bytes, m: bytes): seq<Block> {
    var kn := Xor(key, nonce);
    var init: seq<Block> := [kn, key, kn, key, kn, key, kn, key, kn, key];
    init + Blocks(ad) + Blocks(m)
  }

  lemma RowAbsorbs(key: Block, nonce: Block, ad: bytes, m: bytes)
    ensures Absorb(Absorb(Init(key, nonce), ad), m) == AbsorbBlocks(InitRounds(key, nonce, 0), Row(key, nonce, ad, m))
  {
    hide Absorb, AbsorbBlocks, Blocks, Init, InitRounds;
    var kn, S := Xor(key, nonce), InitRounds(key, nonce, 0);
    var init: seq<Block> := [kn, key, kn, key, kn, key, kn, key, kn, key];
    InitAbsorbs(key, nonce);
    AbsorbIsOfBlocks(Init(key, nonce), ad);
    AbsorbIsOfBlocks(Absorb(Init(key, nonce), ad), m);
    AbsorbBlocksSplit(S, init, Blocks(ad));
    AbsorbBlocksSplit(S, init + Blocks(ad), Blocks(m));
  }

  /** Encryption from the first words on: one row of blocks is absorbed, ten for key and nonce,
      then those of the associated data, then those of the message. The tag is that of the
      last state, and each ciphertext byte comes from the state before its block. */
  lemma EncryptAsRow(key: Block, nonce: Block, ad: bytes, m: bytes, i: nat)
    requires i < |m|
    ensures var s, S := Encrypt(key, nonce, ad, m), InitRounds(key, nonce, 0);
            var T, j := AbsorbBlocks(S, Row(key, nonce, ad, m[..i - i % 16])), i % 16;
            && s.tag == Tag(AbsorbBlocks(S, Row(key, nonce, ad, m)))
            && |s.ciphertext| == |m| && s.ciphertext[i] == m[i] ^ (T.s1[j] ^ T.s4[j] ^ (T.s2[j] & T.s3[j]))
  {
    hide Absorb, AbsorbBlocks, Row, Encipher, Init, InitRounds, Tag;
    RowAbsorbs(key, nonce, ad, m);
    RowAbsorbs(key, nonce, ad, m[..i - i % 16]);
    CiphertextByte(Absorb(Init(key, nonce), ad), m, i);
  }

  /** And with no message, the tag alone. */
  lemma EmptyMessage(key: Block, nonce: Block, ad: bytes)
    ensures Encrypt(key, nonce, ad, []) == Sealed([], Tag(AbsorbBlocks(InitRounds(key, nonce, 0), Row(key, nonce, ad, []))))
  {
    hide AbsorbBlocks, Row, Init, InitRounds, Tag;
    RowAbsorbs(key, nonce, ad, []);
    NothingToDo(Absorb(Init(key, nonce), ad));
  }
}
