/** The vector implementations: AES-NI, ARM Crypto and plain NEON. A 128-bit register is a
    block of sixteen bytes. The AES instructions are taken to be the FIPS 197 steps in the
    order their manuals give; everything built from them is proved to agree with Aegis. */
module Backends {
  import opened Bytes
  import opened Aes
  import opened Aegis
  import opened AegisCipher

  datatype Backend = AesNi | ArmCrypto | Neon

  // ---- AES-NI and ARM Crypto rounds ----

  /** AESENC: ShiftRows, SubBytes, MixColumns, then the round key. */
  function AesEnc(s: Block, key: Block): Block {
    Xor(MixColumns(SubBytes(ShiftRows(s))), key)
  }

  /** AESE: the round key first, then ShiftRows and SubBytes. AESMC is MixColumns. */
  function AesE(s: Block, key: Block): Block {
    SubBytes(ShiftRows(Xor(s, key)))
  }

  lemma XorZeros(a: bytes, n: nat)
    requires |a| <= n
    ensures Xor(a, Zeros(n)) == a
  {
    forall i | 0 <= i < |a| ensures Xor(a, Zeros(n))[i] == a[i] {
      assert Zeros(n)[i] == 0;
    }
  }

  // ---- Plain NEON round ----

  /** A lookup in one 64-byte quarter of the S-box; an index past its end gives zero. */
  function QuarterLookup(q: byte, index: byte): byte {
    if index < 64 then SBOX.At(4 * q + (index >> 4)).At(index & 15) else 0
  }

  function CompareMask(equal: bool): byte {
    if equal then 0xff else 0
  }

  function BitSelect(mask: byte, a: byte, b: byte): byte {
    (mask & a) | (!mask & b)
  }

  /** The masks of a lane's two high bits, each selecting over what came before. */
  function MaskedChoice(hi2: byte, r0: byte, r1: byte, r2: byte, r3: byte): byte {
    var mask0, mask1, mask2 := CompareMask(hi2 == 0), CompareMask(hi2 == 1), CompareMask(hi2 == 2);
    var mask3 := !((mask0 | mask1) | mask2);
    BitSelect(mask3, r3, BitSelect(mask2, r2, BitSelect(mask1, r1, r0)))
  }

  /** One lane of the masked four-quarter substitution. */
  function NeonSbox(x: byte): byte {
    MaskedChoice(x >> 6, QuarterLookup(0, x), QuarterLookup(1, x - 64), QuarterLookup(2, x - 128), QuarterLookup(3, x - 192))
  }

  lemma SelectsByMask(p: bool, a: byte, b: byte)
    ensures BitSelect(CompareMask(p), a, b) == if p then a else b
  {
  }

  lemma NoMask(p: bool, q: bool, r: bool)
    ensures !((CompareMask(p) | CompareMask(q)) | CompareMask(r)) == CompareMask(!(p || q || r))
  {
  }

  lemma MaskedChoiceIsChoice(hi2: byte, r0: byte, r1: byte, r2: byte, r3: byte)
    ensures MaskedChoice(hi2, r0, r1, r2, r3) ==
            if hi2 == 0 then r0 else if hi2 == 1 then r1 else if hi2 == 2 then r2 else r3
  {
    hide BitSelect, CompareMask;
    var p0, p1, p2 := hi2 == 0, hi2 == 1, hi2 == 2;
    NoMask(p0, p1, p2);
    SelectsByMask(p1, r1, r0);
    SelectsByMask(p2, r2, if p1 then r1 else r0);
    SelectsByMask(!(p0 || p1 || p2), r3, if p2 then r2 else if p1 then r1 else r0);
  }

  lemma OwnQuarter(x: byte)
    ensures x >> 6 == 0 || x >> 6 == 1 || x >> 6 == 2 || x >> 6 == 3
    ensures QuarterLookup(x >> 6, x - 64 * (x >> 6)) == Sbox(x)
  {
  }

  /** The masked quarters give the flat table for every byte. */
  lemma NeonSboxIsSbox(x: byte)
    ensures NeonSbox(x) == Sbox(x)
  {
    hide QuarterLookup, MaskedChoice, Sbox;
    OwnQuarter(x);
    MaskedChoiceIsChoice(x >> 6, QuarterLookup(0, x), QuarterLookup(1, x - 64), QuarterLookup(2, x - 128), QuarterLookup(3, x - 192));
  }

  function NeonSubBytes(b: Block): Block {
    seq(16, i requires 0 <= i < 16 => NeonSbox(b[i]))
  }

  function NeonDouble(a: byte): byte {
    (a << 1) ^ ((a >> 7) * 0x1b)
  }

  lemma NeonDoubleIsXtime(a: byte)
    ensures NeonDouble(a) == Xtime(a)
  {
  }

  function NeonMixColumn(a: Column): Column {
    var x0, x1, x2, x3 := NeonDouble(a.a0), NeonDouble(a.a1), NeonDouble(a.a2), NeonDouble(a.a3);
    Column(Sum(x0, Add(x1, a.a1), a.a2, a.a3),
           Sum(a.a0, x1, Add(x2, a.a2), a.a3),
           Sum(a.a0, a.a1, x2, Add(x3, a.a3)),
           Sum(Add(x0, a.a0), a.a1, a.a2, x3))
  }

  function VectorRound(v: Backend, s: Block): Block {
    match v
    case AesNi => AesEnc(s, Zeros(16))
    case ArmCrypto => MixColumns(AesE(s, Zeros(16)))
    case Neon => MapColumns(NeonMixColumn, ShiftRows(NeonSubBytes(s)))
  }

  lemma NeonSubBytesAgrees(s: Block)
    ensures NeonSubBytes(s) == SubBytes(s)
  {
    hide NeonSbox, Sbox;
    forall i | 0 <= i < 16 ensures NeonSubBytes(s)[i] == SubBytes(s)[i] {
      NeonSboxIsSbox(s[i]);
    }
  }

  lemma NeonMixColumnsAgrees(b: Block)
    ensures MapColumns(NeonMixColumn, b) == MixColumns(b)
  {
    forall c: nat | c < 4 ensures ColumnOf(MapColumns(NeonMixColumn, b), c) == ColumnOf(MixColumns(b), c) {
      MapColumnsAt(NeonMixColumn, b, c);
      MapColumnsAt(MixColumn, b, c);
      var a := ColumnOf(b, c);
      NeonDoubleIsXtime(a.a0);
      NeonDoubleIsXtime(a.a1);
      NeonDoubleIsXtime(a.a2);
      NeonDoubleIsXtime(a.a3);
    }
    ColumnsDetermineBlock(MapColumns(NeonMixColumn, b), MixColumns(b));
  }

  /** Every vector round is the portable round. */
  lemma VectorRoundAgrees(v: Backend, s: Block)
    ensures VectorRound(v, s) == Round(s)
  {
    SubBytesShiftRowsCommute(s);
    match v
    case AesNi => XorZeros(MixColumns(SubBytes(ShiftRows(s))), 16);
    case ArmCrypto => XorZeros(s, 16);
    case Neon =>
      NeonSubBytesAgrees(s);
      NeonMixColumnsAgrees(ShiftRows(SubBytes(s)));
  }

  // ---- Words summed in either order ----

  function VectorXor5(v: Backend, S: State): Block {
    if v == Neon then Xor(Xor(Xor(S.s0, S.s1), Xor(S.s2, S.s3)), S.s4)
    else Xor(Xor(Xor(Xor(S.s0, S.s1), S.s2), S.s3), S.s4)
  }

  lemma VectorXor5Agrees(v: Backend, S: State)
    ensures VectorXor5(v, S) == Xor5(S)
  {
    XorAssociates(Xor(S.s0, S.s1), S.s2, S.s3);
  }

  /** A padded block enciphered as a whole and cut back gives the partial block's bytes. */
  lemma CutBack(m: bytes, ks: Block)
    requires |m| <= 16
    ensures Xor(Pad(m), ks)[..|m|] == Xor(m, ks)
  {
    forall i | 0 <= i < |m| ensures Xor(Pad(m), ks)[i] == Xor(m, ks)[i] {
      assert Pad(m)[i] == m[i];
    }
  }

  // ---- The vector cipher ----

  /** The remaining length a final call of each backend takes: NEON copies it into one block. */
  predicate FinalLength(v: Backend, len: nat) {
    v == Neon ==> len <= 16
  }

  class VectorCipher {
    const v: Backend
    var S: seq<Block>

    ghost predicate Valid()
      reads this
    {
      |S| == 5
    }

    ghost function Words(): State
      requires Valid()
      reads this
    {
      State(S[0], S[1], S[2], S[3], S[4])
    }

    constructor (v: Backend, key: Block, nonce: Block)
      ensures Valid() && this.v == v && Words() == Init(key, nonce)
    {
      this.v := v;
      var kn := Xor(key, nonce);
      S := [kn, C1, C0, key, kn];
      new;
      for i := 0 to 10
        invariant Valid() && Words() == InitRounds(key, nonce, i)
      {
        StateUpdate(if i % 2 == 0 then kn else key);
      }
    }

    /** All five rounds are computed before any word is replaced. */
    method StateUpdate(m: Block)
      requires Valid()
      modifies this`S
      ensures Valid() && Words() == Update(old(Words()), m)
    {
      hide Round, VectorRound;
      VectorRoundAgrees(v, S[4]);
      VectorRoundAgrees(v, S[0]);
      VectorRoundAgrees(v, S[1]);
      VectorRoundAgrees(v, S[2]);
      VectorRoundAgrees(v, S[3]);
      var r0, r1, r2 := VectorRound(v, S[4]), VectorRound(v, S[0]), VectorRound(v, S[1]);
      var r3, r4 := VectorRound(v, S[2]), VectorRound(v, S[3]);
      S := [Xor(Xor(r0, S[0]), m), Xor(r1, S[1]), Xor(r2, S[2]), Xor(r3, S[3]), Xor(r4, S[4])];
    }

    method KeyStreamOf() returns (ks: Block)
      requires Valid()
      ensures ks == KeyStream(Words())
    {
      ks := Xor(Xor(S[1], S[4]), And(S[2], S[3]));
    }

    method AdUpdate(ad: array<byte>, a: nat, len: nat)
      requires Valid() && a + len <= ad.Length
      modifies this`S
      ensures Valid() && Words() == Absorb(old(Words()), ad[a..a + len])
    {
      hide Update, Absorb;
      ghost var S0, data := Words(), ad[a..a + len];
      NothingToDo(S0);
      assert data[..0] == [];
      var i := 0;
      while i + 16 <= len
        invariant i <= len && i % 16 == 0 && Valid()
        invariant Words() == Absorb(S0, data[..i])
      {
        AbsorbNext(S0, data, i);
        assert data[i..i + 16] == ad[a + i..a + i + 16];
        StateUpdate(ad[a + i..a + i + 16]);
        i := i + 16;
      }
      AbsorbSplit(S0, data[..i], data[i..]);
      AbsorbShort(Words(), data[i..]);
      assert data == data[..i] + data[i..] && data[i..] == ad[a + i..a + len];
      if len - i > 0 {
        StateUpdate(Pad(ad[a + i..a + len]));
      }
    }

    /** The plaintext is in a register before the ciphertext is stored, so any block may be in place. */
    method EncStep(dst: array<byte>, d: nat, src: array<byte>, s: nat, i: nat, ghost S0: State, ghost D0: bytes, ghost m: bytes)
      requires Valid() && Ranges(dst, d, src, s, |m|) && i % 16 == 0 && i + 16 <= |m| && |D0| == dst.Length
      requires Words() == Absorb(S0, m[..i]) && dst[..] == Splice(D0, d, Encipher(S0, m[..i]))
      requires src[s + i..s + i + 16] == m[i..i + 16]
      modifies this`S, dst
      ensures Valid() && Words() == Absorb(S0, m[..i + 16]) && dst[..] == Splice(D0, d, Encipher(S0, m[..i + 16]))
    {
      hide Update, KeyStream, Absorb, Encipher, Splice;
      AbsorbNext(S0, m, i);
      EncipherNext(S0, m, i);
      SpliceTwice(D0, d, Encipher(S0, m[..i]), Xor(m[i..i + 16], KeyStream(Words())));
      var ks := KeyStreamOf();
      var pt := src[s + i..s + i + 16];
      Write(dst, d + i, Xor(pt, ks));
      StateUpdate(pt);
    }

    method DecStep(dst: array<byte>, d: nat, src: array<byte>, s: nat, i: nat, ghost S0: State, ghost D0: bytes, ghost c: bytes)
      requires Valid() && Ranges(dst, d, src, s, |c|) && i % 16 == 0 && i + 16 <= |c| && |D0| == dst.Length
      requires Words() == Absorb(S0, Decipher(S0, c[..i])) && dst[..] == Splice(D0, d, Decipher(S0, c[..i]))
      requires src[s + i..s + i + 16] == c[i..i + 16]
      modifies this`S, dst
      ensures Valid() && Words() == Absorb(S0, Decipher(S0, c[..i + 16]))
      ensures dst[..] == Splice(D0, d, Decipher(S0, c[..i + 16]))
    {
      hide Update, KeyStream, Absorb, Decipher, Splice;
      DecipherNext(S0, c, i);
      DecipherAbsorbNext(S0, c, i);
      SpliceTwice(D0, d, Decipher(S0, c[..i]), Xor(c[i..i + 16], KeyStream(Words())));
      var ks := KeyStreamOf();
      var pt := Xor(src[s + i..s + i + 16], ks);
      Write(dst, d + i, pt);
      StateUpdate(pt);
    }

    method EncUpdate(dst: array<byte>, d: nat, src: array<byte>, s: nat, len: nat)
      requires Valid() && Ranges(dst, d, src, s, len) && len % 16 == 0
      modifies this`S, dst
      ensures Valid() && Words() == Absorb(old(Words()), old(src[s..s + len]))
      ensures dst[..] == Splice(old(dst[..]), d, Encipher(old(Words()), old(src[s..s + len])))
    {
      hide Update, Absorb, Encipher, Splice;
      ghost var S0, D0, s0, m := Words(), dst[..], src[..], src[s..s + len];
      SpliceNothing(D0, d);
      NothingToDo(S0);
      assert m[..0] == [];
      var i := 0;
      while i < len
        invariant i <= len && i % 16 == 0 && Valid()
        invariant Words() == Absorb(S0, m[..i])
        invariant dst[..] == Splice(D0, d, Encipher(S0, m[..i]))
      {
        SourceAhead(D0, s0, d, s, Encipher(S0, m[..i]), i, dst == src, src, len);
        EncStep(dst, d, src, s, i, S0, D0, m);
        i := i + 16;
      }
      assert m[..len] == m;
    }

    method DecUpdate(dst: array<byte>, d: nat, src: array<byte>, s: nat, len: nat)
      requires Valid() && Ranges(dst, d, src, s, len) && len % 16 == 0
      modifies this`S, dst
      ensures Valid() && Words() == Absorb(old(Words()), Decipher(old(Words()), old(src[s..s + len])))
      ensures dst[..] == Splice(old(dst[..]), d, Decipher(old(Words()), old(src[s..s + len])))
    {
      hide Update, Absorb, Decipher, Splice;
      ghost var S0, D0, s0, c := Words(), dst[..], src[..], src[s..s + len];
      SpliceNothing(D0, d);
      NothingToDo(S0);
      assert c[..0] == [];
      var i := 0;
      while i < len
        invariant i <= len && i % 16 == 0 && Valid()
        invariant Words() == Absorb(S0, Decipher(S0, c[..i]))
        invariant dst[..] == Splice(D0, d, Decipher(S0, c[..i]))
      {
        SourceAhead(D0, s0, d, s, Decipher(S0, c[..i]), i, dst == src, src, len);
        DecStep(dst, d, src, s, i, S0, D0, c);
        i := i + 16;
      }
      assert c[..len] == c;
    }

    method MakeTag() returns (tag: Block)
      requires Valid()
      modifies this`S
      ensures Valid() && tag == Tag(old(Words()))
    {
      hide Update, Xor5, VectorXor5;
      ghost var S0 := Words();
      VectorXor5Agrees(v, Words());
      tag := VectorXor5(v, State(S[0], S[1], S[2], S[3], S[4]));
      for i := 0 to 7
        invariant Valid() && Words() == TagRounds(S0, i) && tag == Xor5(Words())
      {
        StateUpdate(tag);
        VectorXor5Agrees(v, Words());
        tag := VectorXor5(v, State(S[0], S[1], S[2], S[3], S[4]));
      }
    }

    /** The number of bytes a final call treats as whole blocks; NEON has no such loop. */
    function WholeBytes(len: nat): nat {
      if v == Neon then 0 else len - len % 16
    }

    /** The last 1..16 bytes, enciphered as a padded register and cut back. */
    method EncLast(dst: array<byte>, d: nat, src: array<byte>, s: nat, len: nat)
      requires Valid() && Ranges(dst, d, src, s, len) && 0 < len <= 16
      modifies this`S, dst
      ensures Valid() && Words() == Absorb(old(Words()), old(src[s..s + len]))
      ensures dst[..] == Splice(old(dst[..]), d, Encipher(old(Words()), old(src[s..s + len])))
    {
      hide Update, KeyStream, Absorb, Encipher, Decipher, Xor;
      LastBlock(Words(), src[s..s + len]);
      var ks := KeyStreamOf();
      var pt := Pad(src[s..s + len]);
      CutBack(src[s..s + len], ks);
      Write(dst, d, Xor(pt, ks)[..len]);
      StateUpdate(pt);
    }

    method DecLast(dst: array<byte>, d: nat, src: array<byte>, s: nat, len: nat)
      requires Valid() && Ranges(dst, d, src, s, len) && 0 < len <= 16
      modifies this`S, dst
      ensures Valid() && Words() == Absorb(old(Words()), Decipher(old(Words()), old(src[s..s + len])))
      ensures dst[..] == Splice(old(dst[..]), d, Decipher(old(Words()), old(src[s..s + len])))
    {
      hide Update, KeyStream, Absorb, Encipher, Decipher, Xor;
      LastBlock(Words(), src[s..s + len]);
      var ks := KeyStreamOf();
      var pt := Xor(Pad(src[s..s + len]), ks);
      CutBack(src[s..s + len], ks);
      LastBlock(Words(), pt[..len]);
      Write(dst, d, pt[..len]);
      assert dst[d..d + len] == dst[..][d..d + len] == pt[..len];
      StateUpdate(Pad(dst[d..d + len]));
    }

    method EncFinal(dst: array<byte>, d: nat, src: array<byte>, s: nat, len: nat) returns (tag: Block)
      requires Valid() && Ranges(dst, d, src, s, len) && FinalLength(v, len)
      modifies this`S, dst
      ensures Valid() && tag == Tag(Absorb(old(Words()), old(src[s..s + len])))
      ensures dst[..] == Splice(old(dst[..]), d, Encipher(old(Words()), old(src[s..s + len])))
    {
      hide Update, Absorb, Encipher, KeyStream, Splice, Tag;
      ghost var S0, D0, s0, m := Words(), dst[..], src[..], src[s..s + len];
      var full := WholeBytes(len);
      Halves(src, s, len, full);
      EncUpdate(dst, d, src, s, full);
      EncipherSplit(S0, m[..full], m[full..]);
      AbsorbSplit(S0, m[..full], m[full..]);
      NothingToDo(Words());
      SourceTail(D0, s0, d, s, Encipher(S0, m[..full]), full, dst == src, src, len);
      SpliceTwice(D0, d, Encipher(S0, m[..full]), Encipher(Words(), m[full..]));
      if len - full > 0 {
        EncLast(dst, d + full, src, s + full, len - full);
      } else {
        assert m[full..] == [];
        SpliceNothing(dst[..], d + full);
      }
      tag := MakeTag();
    }

    method DecFinal(dst: array<byte>, d: nat, src: array<byte>, s: nat, len: nat, tag: Block) returns (ok: bool)
      requires Valid() && Ranges(dst, d, src, s, len) && FinalLength(v, len)
      modifies this`S, dst
      ensures Valid()
      ensures ok <==> Tag(Absorb(old(Words()), Decipher(old(Words()), old(src[s..s + len])))) == tag
      ensures dst[..] == Splice(old(dst[..]), d,
                                if ok then Decipher(old(Words()), old(src[s..s + len])) else Zeros(len))
    {
      hide Update, Absorb, Decipher, KeyStream, Splice, Tag;
      ghost var S0, D0, s0, c := Words(), dst[..], src[..], src[s..s + len];
      var full := WholeBytes(len);
      Halves(src, s, len, full);
      DecUpdate(dst, d, src, s, full);
      ghost var p := Decipher(S0, c[..full]);
      DecipherSplit(S0, c[..full], c[full..]);
      AbsorbSplit(S0, p, Decipher(Words(), c[full..]));
      NothingToDo(Words());
      SourceTail(D0, s0, d, s, p, full, dst == src, src, len);
      SpliceTwice(D0, d, p, Decipher(Words(), c[full..]));
      if len - full > 0 {
        DecLast(dst, d + full, src, s + full, len - full);
      } else {
        assert c[full..] == [];
        SpliceNothing(dst[..], d + full);
      }
      var expected := MakeTag();
      ok := TagsEqual(expected, tag);
      if !ok {
        ZeroRange(dst, d, len);
        SpliceOver(D0, d, Decipher(S0, c), Zeros(len));
      }
    }
  }

  /** One block of at most sixteen bytes, padded even when it is whole. */
  lemma LastBlock(S: State, m: bytes)
    requires 0 < |m| <= 16
    ensures Absorb(S, m) == Update(S, Pad(m))
    ensures Encipher(S, m) == Xor(m, KeyStream(S)) == Decipher(S, m)
  {
    hide Update, KeyStream, Xor;
    if |m| == 16 {
      assert m[..16] == m && m[16..] == [];
      assert Pad(m) == m + Zeros(0) == m;
      NothingToDo(Update(S, m));
      NothingToDo(Update(S, Xor(m, KeyStream(S))));
    }
  }

  // ---- One-shot calls of the AES-NI and ARM Crypto backends ----

  method VectorStart(v: Backend, ad: array<byte>, ao: nat, adlen: nat, nonce: Block, key: Block) returns (st: VectorCipher)
    requires ao + adlen <= ad.Length
    ensures fresh(st) && st.Valid() && st.v == v && st.Words() == Absorb(Init(key, nonce), ad[ao..ao + adlen])
  {
    hide Update, Init, Absorb;
    st := new VectorCipher(v, key, nonce);
    if adlen > 0 {
      st.AdUpdate(ad, ao, adlen);
    } else {
      NothingToDo(st.Words());
      assert ad[ao..ao + adlen] == [];
    }
  }

  /** Same ciphertext and tag as the portable one-shot call. */
  method VectorEncryptInto(v: Backend, c: array<byte>, co: nat, m: array<byte>, mo: nat, mlen: nat,
                           ad: array<byte>, ao: nat, adlen: nat, nonce: Block, key: Block) returns (tag: Block)
    requires Ranges(c, co, m, mo, mlen) && ao + adlen <= ad.Length
    modifies c
    ensures var s := Encrypt(key, nonce, old(ad[ao..ao + adlen]), old(m[mo..mo + mlen]));
            tag == s.tag && c[..] == Splice(old(c[..]), co, s.ciphertext)
  {
    hide Update, Absorb, Encipher, Splice, Tag, Init;
    ghost var D0, msg := c[..], m[mo..mo + mlen];
    var st := VectorStart(v, ad, ao, adlen, nonce, key);
    ghost var S := st.Words();
    NothingToDo(S);
    var full := mlen - mlen % 16;
    Halves(m, mo, mlen, full);
    SpliceNothing(D0, co);
    if full > 0 {
      st.EncUpdate(c, co, m, mo, full);
    } else {
      assert msg[..full] == [];
    }
    EncipherSplit(S, msg[..full], msg[full..]);
    AbsorbSplit(S, msg[..full], msg[full..]);
    SourceTail(D0, old(m[..]), co, mo, Encipher(S, msg[..full]), full, c == m, m, mlen);
    SpliceTwice(D0, co, Encipher(S, msg[..full]), Encipher(Absorb(S, msg[..full]), msg[full..]));
    tag := st.EncFinal(c, co + full, m, mo + full, mlen - full);
  }

  /** Same decision and same plaintext as the portable one-shot call. */
  method VectorDecryptInto(v: Backend, m: array<byte>, mo: nat, c: array<byte>, co: nat, clen: nat,
                           ad: array<byte>, ao: nat, adlen: nat, nonce: Block, key: Block, tag: Block) returns (ok: bool)
    requires Ranges(m, mo, c, co, clen) && ao + adlen <= ad.Length
    modifies m
    ensures var r := Decrypt(key, nonce, old(ad[ao..ao + adlen]), old(c[co..co + clen]), tag);
            && (ok <==> r.Some?)
            && (ok ==> m[..] == Splice(old(m[..]), mo, r.value))
    ensures !ok ==>
      var full := clen - clen % 16;
      var S := Absorb(Init(key, nonce), old(ad[ao..ao + adlen]));
      m[..] == Splice(old(m[..]), mo, Decipher(S, old(c[co..co + clen])[..full]) + Zeros(clen - full))
  {
    hide Update, Absorb, Decipher, Splice, Tag, Init;
    ghost var D0, ct := m[..], c[co..co + clen];
    var st := VectorStart(v, ad, ao, adlen, nonce, key);
    ghost var S := st.Words();
    NothingToDo(S);
    var full := clen - clen % 16;
    Halves(c, co, clen, full);
    SpliceNothing(D0, mo);
    if full > 0 {
      st.DecUpdate(m, mo, c, co, full);
    } else {
      assert ct[..full] == [];
    }
    ghost var p := Decipher(S, ct[..full]);
    DecipherSplit(S, ct[..full], ct[full..]);
    AbsorbSplit(S, p, Decipher(Absorb(S, p), ct[full..]));
    SourceTail(D0, old(c[..]), mo, co, p, full, m == c, c, clen);
    SpliceTwice(D0, mo, p, Decipher(Absorb(S, p), ct[full..]));
    SpliceTwice(D0, mo, p, Zeros(clen - full));
    ok := st.DecFinal(m, mo + full, c, co + full, clen - full, tag);
  }
}
