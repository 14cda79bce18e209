/** The mutable form of AEGIS-128: five state words updated in place, block loops over
    byte buffers, the streaming calls and the one-shot calls built on them. Every method
    allows the destination to be the source buffer itself. */
module AegisCipher {
  import opened Bytes
  import opened Aes
  import opened Aegis

  // ---- One block further ----

  /** A final partial block is padded; an absent one changes nothing. */
  lemma AbsorbShort(S: State, d: bytes)
    requires |d| < 16
    ensures Absorb(S, d) == if |d| == 0 then S else Update(S, Pad(d))
  {
    hide Update;
  }

  lemma AbsorbNext(S: State, m: bytes, i: nat)
    requires i % 16 == 0 && i + 16 <= |m|
    ensures Absorb(S, m[..i + 16]) == Update(Absorb(S, m[..i]), m[i..i + 16])
  {
    hide Update;
    AbsorbSplit(S, m[..i], m[i..i + 16]);
    assert m[..i + 16] == m[..i] + m[i..i + 16];
    var b := m[i..i + 16];
    assert b[..16] == b && b[16..] == [];
  }

  lemma EncipherNext(S: State, m: bytes, i: nat)
    requires i % 16 == 0 && i + 16 <= |m|
    ensures Encipher(S, m[..i + 16]) ==
            Encipher(S, m[..i]) + Xor(m[i..i + 16], KeyStream(Absorb(S, m[..i])))
  {
    hide Update;
    EncipherSplit(S, m[..i], m[i..i + 16]);
    assert m[..i + 16] == m[..i] + m[i..i + 16];
    var b, T := m[i..i + 16], Absorb(S, m[..i]);
    assert b[..16] == b && b[16..] == [];
    assert Encipher(T, b) == Xor(b, KeyStream(T)) + [];
  }

  lemma DecipherNext(S: State, c: bytes, i: nat)
    requires i % 16 == 0 && i + 16 <= |c|
    ensures var m := Decipher(S, c[..i]);
            Decipher(S, c[..i + 16]) == m + Xor(c[i..i + 16], KeyStream(Absorb(S, m)))
  {
    hide Update;
    DecipherSplit(S, c[..i], c[i..i + 16]);
    assert c[..i + 16] == c[..i] + c[i..i + 16];
    var b, T := c[i..i + 16], Absorb(S, Decipher(S, c[..i]));
    assert b[..16] == b && b[16..] == [];
    assert Decipher(T, b) == Xor(b, KeyStream(T)) + [];
  }

  /** Deciphering a longer input extends the plaintext of its whole-block prefix, and
      absorbs that plaintext one block at a time. */
  lemma DecipherAbsorbNext(S: State, c: bytes, i: nat)
    requires i % 16 == 0 && i + 16 <= |c|
    ensures var m := Decipher(S, c[..i]);
            Absorb(S, Decipher(S, c[..i + 16])) ==
            Update(Absorb(S, m), Xor(c[i..i + 16], KeyStream(Absorb(S, m))))
  {
    hide Update, KeyStream, Absorb, Decipher;
    DecipherNext(S, c, i);
    var m, m' := Decipher(S, c[..i]), Decipher(S, c[..i + 16]);
    AbsorbNext(S, m', i);
    assert m'[..i] == m && m'[..i + 16] == m' && m'[i..i + 16] == Xor(c[i..i + 16], KeyStream(Absorb(S, m)));
  }

  // ---- Buffers ----

  /** Buffer a with x written at offset d. */
  ghost function Splice(a: bytes, d: nat, x: bytes): (r: bytes)
    requires d + |x| <= |a|
    ensures |r| == |a|
  {
    a[..d] + x + a[d + |x|..]
  }

  lemma SpliceTwice(a: bytes, d: nat, x: bytes, y: bytes)
    requires d + |x| + |y| <= |a|
    ensures Splice(Splice(a, d, x), d + |x|, y) == Splice(a, d, x + y)
  {
  }

  lemma SpliceNothing(a: bytes, d: nat)
    requires d <= |a|
    ensures Splice(a, d, []) == a
  {
  }

  lemma SpliceParts(a: bytes, d: nat, x: bytes)
    requires d + |x| <= |a|
    ensures Splice(a, d, x)[..d] == a[..d] && Splice(a, d, x)[d..d + |x|] == x
    ensures Splice(a, d, x)[d + |x|..] == a[d + |x|..]
  {
  }

  /** Copies x into buf, byte by byte. */
  method Write(buf: array<byte>, at: nat, x: bytes)
    requires at + |x| <= buf.Length
    modifies buf
    ensures buf[..] == Splice(old(buf[..]), at, x)
  {
    for i := 0 to |x|
      invariant forall k :: 0 <= k < buf.Length ==> buf[k] == if at <= k < at + i then x[k - at] else old(buf[k])
    {
      buf[at + i] := x[i];
    }
  }

  /** A destination range that is the source range itself or lies in another buffer. */
  ghost predicate Ranges(dst: array<byte>, d: nat, src: array<byte>, s: nat, len: nat) {
    d + len <= dst.Length && s + len <= src.Length && (dst == src ==> d == s)
  }

  /** dst[d..d+len] = src[s..s+len] ^ ks, byte by byte. */
  method XorInto(dst: array<byte>, d: nat, src: array<byte>, s: nat, len: nat, ks: bytes)
    requires Ranges(dst, d, src, s, len) && len <= |ks|
    modifies dst
    ensures dst[..] == Splice(old(dst[..]), d, Xor(old(src[s..s + len]), ks))
  {
    ghost var was := src[s..s + len];
    for i := 0 to len
      invariant forall k :: 0 <= k < i ==> dst[d + k] == was[k] ^ ks[k]
      invariant forall k :: i <= k < len ==> src[s + k] == was[k]
      invariant forall k :: 0 <= k < dst.Length && !(d <= k < d + len) ==> dst[k] == old(dst[k])
    {
      dst[d + i] := src[s + i] ^ ks[i];
    }
  }

  /** The comparison accumulates every difference and decides at the end. */
  method TagsEqual(a: Block, b: Block) returns (equal: bool)
    ensures equal <==> a == b
  {
    var diff: byte := 0;
    for i := 0 to 16
      invariant diff == 0 <==> a[..i] == b[..i]
    {
      XorZero(a[i], b[i]);
      OrZero(diff, a[i] ^ b[i]);
      assert a[..i + 1] == a[..i] + [a[i]] && b[..i + 1] == b[..i] + [b[i]];
      diff := diff | (a[i] ^ b[i]);
    }
    assert a[..16] == a && b[..16] == b;
    equal := diff == 0;
  }

  lemma XorZero(x: byte, y: byte)
    ensures x ^ y == 0 <==> x == y
  {
  }

  lemma OrZero(x: byte, y: byte)
    ensures x | y == 0 <==> x == 0 && y == 0
  {
  }

  // ---- The cipher ----

  class Cipher {
    var S: seq<Block>

    ghost predicate Valid()
      reads this
    {
      |S| == 5
    }

    ghost function Words(): State
      requires Valid()
      reads this
    {
      State(S[0], S[1], S[2], S[3], S[4])
    }

    constructor (key: Block, nonce: Block)
      ensures Valid() && Words() == Init(key, nonce)
    {
      var kn := Xor(key, nonce);
      S := [kn, C1, C0, key, kn];
      new;
      for i := 0 to 10
        invariant Valid() && Words() == InitRounds(key, nonce, i)
      {
        StateUpdate(if i % 2 == 0 then kn else key);
      }
    }

    /** One AES round on a copy of a state word. */
    method RoundOf(b: Block) returns (r: Block)
      ensures r == Round(b)
    {
      var tmp := new byte[16](i requires 0 <= i < 16 => b[i]);
      assert tmp[..] == b;
      RoundInPlace(tmp);
      r := tmp[..];
    }

    method StateUpdate(m: Block)
      requires Valid()
      modifies this
      ensures Valid() && Words() == Update(old(Words()), m)
    {
      var r4 := RoundOf(S[4]);
      var n0 := Xor(Xor(r4, S[0]), m);
      var r0 := RoundOf(S[0]);
      var n1 := Xor(r0, S[1]);
      var r1 := RoundOf(S[1]);
      var n2 := Xor(r1, S[2]);
      var r2 := RoundOf(S[2]);
      var n3 := Xor(r2, S[3]);
      var r3 := RoundOf(S[3]);
      var n4 := Xor(r3, S[4]);
      S := [n0, n1, n2, n3, n4];
    }

    /** Byte by byte from four of the words. */
    method KeyStreamOf() returns (ks: Block)
      requires Valid()
      ensures ks == KeyStream(Words())
    {
      var out := new byte[16];
      for i := 0 to 16
        invariant forall k :: 0 <= k < i ==> out[k] == KeyStream(Words())[k]
      {
        out[i] := S[1][i] ^ S[4][i] ^ (S[2][i] & S[3][i]);
      }
      ks := out[..];
    }

    method AdUpdate(ad: array<byte>, a: nat, len: nat)
      requires Valid() && a + len <= ad.Length
      modifies this
      ensures Valid() && Words() == Absorb(old(Words()), ad[a..a + len])
    {
      hide Update, Absorb;
      ghost var S0, data := Words(), ad[a..a + len];
      NothingToDo(S0);
      assert data[..0] == [];
      var i := 0;
      while i + 16 <= len
        invariant i <= len && i % 16 == 0 && Valid()
        invariant Words() == Absorb(S0, data[..i])
      {
        AbsorbNext(S0, data, i);
        assert data[i..i + 16] == ad[a + i..a + i + 16];
        StateUpdate(ad[a + i..a + i + 16]);
        i := i + 16;
      }
      AbsorbSplit(S0, data[..i], data[i..]);
      AbsorbShort(Words(), data[i..]);
      assert data == data[..i] + data[i..] && data[i..] == ad[a + i..a + len];
      if len - i > 0 {
        StateUpdate(Pad(ad[a + i..a + len]));
      }
    }

    /** Enciphers one whole block and absorbs its plaintext, saved first when in place. */
    method ProcessEncBlock(dst: array<byte>, d: nat, src: array<byte>, s: nat)
      requires Valid() && Ranges(dst, d, src, s, 16)
      modifies this, dst
      ensures Valid() && Words() == Update(old(Words()), old(src[s..s + 16]))
      ensures dst[..] == Splice(old(dst[..]), d, Xor(old(src[s..s + 16]), KeyStream(old(Words()))))
    {
      var ks := KeyStreamOf();
      if dst == src {
        var pt := src[s..s + 16];
        XorInto(dst, d, src, s, 16, ks);
        StateUpdate(pt);
      } else {
        XorInto(dst, d, src, s, 16, ks);
        StateUpdate(src[s..s + 16]);
      }
    }

    /** Deciphers one whole block and absorbs the plaintext just written. */
    method ProcessDecBlock(dst: array<byte>, d: nat, src: array<byte>, s: nat)
      requires Valid() && Ranges(dst, d, src, s, 16)
      modifies this, dst
      ensures Valid()
      ensures Words() == Update(old(Words()), Xor(old(src[s..s + 16]), KeyStream(old(Words()))))
      ensures dst[..] == Splice(old(dst[..]), d, Xor(old(src[s..s + 16]), KeyStream(old(Words()))))
    {
      var ks := KeyStreamOf();
      XorInto(dst, d, src, s, 16, ks);
      assert dst[..][d..d + 16] == dst[d..d + 16];
      StateUpdate(dst[d..d + 16]);
    }

    /** One turn of the enciphering loop: i bytes of m are done, then i + 16. */
    method EncStep(dst: array<byte>, d: nat, src: array<byte>, s: nat, i: nat, ghost S0: State, ghost D0: bytes, ghost m: bytes)
      requires Valid() && Ranges(dst, d, src, s, |m|) && i % 16 == 0 && i + 16 <= |m| && |D0| == dst.Length
      requires Words() == Absorb(S0, m[..i]) && dst[..] == Splice(D0, d, Encipher(S0, m[..i]))
      requires src[s + i..s + i + 16] == m[i..i + 16]
      modifies this, dst
      ensures Valid() && Words() == Absorb(S0, m[..i + 16]) && dst[..] == Splice(D0, d, Encipher(S0, m[..i + 16]))
    {
      hide Update, KeyStream, Absorb, Encipher, Splice;
      AbsorbNext(S0, m, i);
      EncipherNext(S0, m, i);
      SpliceTwice(D0, d, Encipher(S0, m[..i]), Xor(m[i..i + 16], KeyStream(Words())));
      ProcessEncBlock(dst, d + i, src, s + i);
    }

    /** One turn of the deciphering loop. */
    method DecStep(dst: array<byte>, d: nat, src: array<byte>, s: nat, i: nat, ghost S0: State, ghost D0: bytes, ghost c: bytes)
      requires Valid() && Ranges(dst, d, src, s, |c|) && i % 16 == 0 && i + 16 <= |c| && |D0| == dst.Length
      requires Words() == Absorb(S0, Decipher(S0, c[..i])) && dst[..] == Splice(D0, d, Decipher(S0, c[..i]))
      requires src[s + i..s + i + 16] == c[i..i + 16]
      modifies this, dst
      ensures Valid() && Words() == Absorb(S0, Decipher(S0, c[..i + 16]))
      ensures dst[..] == Splice(D0, d, Decipher(S0, c[..i + 16]))
    {
      hide Update, KeyStream, Absorb, Decipher, Splice;
      DecipherNext(S0, c, i);
      DecipherAbsorbNext(S0, c, i);
      SpliceTwice(D0, d, Decipher(S0, c[..i]), Xor(c[i..i + 16], KeyStream(Words())));
      ProcessDecBlock(dst, d + i, src, s + i);
    }

    method EncUpdate(dst: array<byte>, d: nat, src: array<byte>, s: nat, len: nat)
      requires Valid() && Ranges(dst, d, src, s, len) && len % 16 == 0
      modifies this, dst
      ensures Valid() && Words() == Absorb(old(Words()), old(src[s..s + len]))
      ensures dst[..] == Splice(old(dst[..]), d, Encipher(old(Words()), old(src[s..s + len])))
    {
      hide Update, Absorb, Encipher, Splice;
      ghost var S0, D0, s0, m := Words(), dst[..], src[..], src[s..s + len];
      SpliceNothing(D0, d);
      NothingToDo(S0);
      assert m[..0] == [];
      var i := 0;
      while i < len
        invariant i <= len && i % 16 == 0 && Valid()
        invariant Words() == Absorb(S0, m[..i])
        invariant dst[..] == Splice(D0, d, Encipher(S0, m[..i]))
      {
        SourceAhead(D0, s0, d, s, Encipher(S0, m[..i]), i, dst == src, src, len);
        EncStep(dst, d, src, s, i, S0, D0, m);
        i := i + 16;
      }
      assert m[..len] == m;
    }

    method DecUpdate(dst: array<byte>, d: nat, src: array<byte>, s: nat, len: nat)
      requires Valid() && Ranges(dst, d, src, s, len) && len % 16 == 0
      modifies this, dst
      ensures Valid() && Words() == Absorb(old(Words()), Decipher(old(Words()), old(src[s..s + len])))
      ensures dst[..] == Splice(old(dst[..]), d, Decipher(old(Words()), old(src[s..s + len])))
    {
      hide Update, Absorb, Decipher, Splice;
      ghost var S0, D0, s0, c := Words(), dst[..], src[..], src[s..s + len];
      SpliceNothing(D0, d);
      NothingToDo(S0);
      assert c[..0] == [];
      var i := 0;
      while i < len
        invariant i <= len && i % 16 == 0 && Valid()
        invariant Words() == Absorb(S0, Decipher(S0, c[..i]))
        invariant dst[..] == Splice(D0, d, Decipher(S0, c[..i]))
      {
        SourceAhead(D0, s0, d, s, Decipher(S0, c[..i]), i, dst == src, src, len);
        DecStep(dst, d, src, s, i, S0, D0, c);
        i := i + 16;
      }
      assert c[..len] == c;
    }

    /** Seven rounds that absorb the sum of the words; the last sum is the tag. */
    method MakeTag() returns (tag: Block)
      requires Valid()
      modifies this
      ensures Valid() && Words() == TagRounds(old(Words()), 7)
      ensures tag == Tag(old(Words()))
    {
      hide Update;
      ghost var S0 := Words();
      tag := Xor(Xor(Xor(Xor(S[0], S[1]), S[2]), S[3]), S[4]);
      for i := 0 to 7
        invariant Valid() && Words() == TagRounds(S0, i) && tag == Xor5(Words())
      {
        StateUpdate(tag);
        tag := Xor(Xor(Xor(Xor(S[0], S[1]), S[2]), S[3]), S[4]);
      }
    }

    /** The zero-padded partial block, if any, then the tag. */
    method EncTail(dst: array<byte>, d: nat, src: array<byte>, s: nat, rem: nat) returns (tag: Block)
      requires Valid() && Ranges(dst, d, src, s, rem) && rem < 16
      modifies this, dst
      ensures Valid() && tag == Tag(Absorb(old(Words()), old(src[s..s + rem])))
      ensures dst[..] == Splice(old(dst[..]), d, Encipher(old(Words()), old(src[s..s + rem])))
    {
      hide Update, KeyStream, Splice, Tag;
      ghost var T, D0, m := Words(), dst[..], src[s..s + rem];
      NothingToDo(T);
      AbsorbShort(T, m);
      if rem > 0 {
        var pad := Pad(src[s..s + rem]);
        var ks := KeyStreamOf();
        XorInto(dst, d, src, s, rem, ks);
        StateUpdate(pad);
      } else {
        SpliceNothing(D0, d);
      }
      tag := MakeTag();
    }

    /** One block of the final call's own loop: the state absorbs the source block after the
        destination has been written. */
    method FinalBlock(dst: array<byte>, d: nat, src: array<byte>, s: nat)
      requires Valid() && Ranges(dst, d, src, s, 16)
      modifies this, dst
      ensures Valid() && Words() == Update(old(Words()), src[s..s + 16])
      ensures dst[..] == Splice(old(dst[..]), d, Xor(old(src[s..s + 16]), KeyStream(old(Words()))))
    {
      hide Update, KeyStream, Splice;
      var ks := KeyStreamOf();
      XorInto(dst, d, src, s, 16, ks);
      StateUpdate(src[s..s + 16]);
    }

    /** What the loop has done to i bytes of m. Between two buffers the absorbed block is the
        plaintext, as in enciphering; in place it is what was just written, as in
        deciphering. */
    ghost predicate FinalDone(S0: State, D0: bytes, m: bytes, dst: array<byte>, d: nat, inPlace: bool, i: nat)
      requires Valid() && i <= |m| && d + |m| <= |D0|
      reads this, dst
    {
      if inPlace then Words() == Absorb(S0, Decipher(S0, m[..i])) && dst[..] == Splice(D0, d, Decipher(S0, m[..i]))
      else Words() == Absorb(S0, m[..i]) && dst[..] == Splice(D0, d, Encipher(S0, m[..i]))
    }

    /** One turn of that loop. */
    method FinalStep(dst: array<byte>, d: nat, src: array<byte>, s: nat, i: nat, ghost S0: State, ghost D0: bytes, ghost m: bytes)
      requires Valid() && Ranges(dst, d, src, s, |m|) && i % 16 == 0 && i + 16 <= |m| && |D0| == dst.Length
      requires FinalDone(S0, D0, m, dst, d, dst == src, i) && src[s + i..s + i + 16] == m[i..i + 16]
      modifies this, dst
      ensures Valid() && FinalDone(S0, D0, m, dst, d, dst == src, i + 16)
    {
      hide Update, KeyStream, Absorb, Encipher, Decipher, Splice;
      ghost var before, x := dst[..], Xor(m[i..i + 16], KeyStream(Words()));
      if dst == src {
        DecipherNext(S0, m, i);
        DecipherAbsorbNext(S0, m, i);
        SpliceTwice(D0, d, Decipher(S0, m[..i]), x);
      } else {
        AbsorbNext(S0, m, i);
        EncipherNext(S0, m, i);
        SpliceTwice(D0, d, Encipher(S0, m[..i]), x);
      }
      FinalBlock(dst, d + i, src, s + i);
      SpliceParts(before, d + i, x);
      assert dst[d + i..d + i + 16] == dst[..][d + i..d + i + 16];
    }

    /** The whole loop. */
    method FinalBlocks(dst: array<byte>, d: nat, src: array<byte>, s: nat, full: nat)
      requires Valid() && Ranges(dst, d, src, s, full) && full % 16 == 0
      modifies this, dst
      ensures Valid()
      ensures var S0, D0, m := old(Words()), old(dst[..]), old(src[s..s + full]);
              if dst == src then Words() == Absorb(S0, Decipher(S0, m)) && dst[..] == Splice(D0, d, Decipher(S0, m))
              else Words() == Absorb(S0, m) && dst[..] == Splice(D0, d, Encipher(S0, m))
    {
      hide Update, Absorb, Encipher, Decipher, Splice;
      ghost var S0, D0, s0, m := Words(), dst[..], src[..], src[s..s + full];
      NothingToDo(S0);
      SpliceNothing(D0, d);
      assert m[..0] == [];
      var i := 0;
      while i < full
        invariant i <= full && i % 16 == 0 && Valid()
        invariant FinalDone(S0, D0, m, dst, d, dst == src, i)
      {
        SourceAhead(D0, s0, d, s, if dst == src then Decipher(S0, m[..i]) else Encipher(S0, m[..i]), i, dst == src, src, full);
        FinalStep(dst, d, src, s, i, S0, D0, m);
        i := i + 16;
      }
      assert m[..full] == m;
    }

    /** Any remaining whole blocks, then tail and tag. Between two buffers, and in place for
        the documented 0..15 bytes, this is the encryption; in place the whole blocks come
        out deciphered. */
    method EncFinal(dst: array<byte>, d: nat, src: array<byte>, s: nat, len: nat) returns (tag: Block)
      requires Valid() && Ranges(dst, d, src, s, len)
      modifies this, dst
      ensures Valid()
      ensures dst != src || len < 16 ==>
                var m := old(src[s..s + len]);
                tag == Tag(Absorb(old(Words()), m)) && dst[..] == Splice(old(dst[..]), d, Encipher(old(Words()), m))
      ensures dst == src ==>
                var m, full := old(src[s..s + len]), len - len % 16;
                var c := Decipher(old(Words()), m[..full]);
                var T := Absorb(old(Words()), c);
                tag == Tag(Absorb(T, m[full..])) && dst[..] == Splice(old(dst[..]), d, c + Encipher(T, m[full..]))
    {
      hide Update, Absorb, Encipher, Decipher, Splice, Tag;
      ghost var S0, D0, s0, m := Words(), dst[..], src[..], src[s..s + len];
      var full := len - len % 16;
      Halves(src, s, len, full);
      NothingToDo(S0);
      FinalBlocks(dst, d, src, s, full);
      ghost var x := if dst == src then Decipher(S0, m[..full]) else Encipher(S0, m[..full]);
      SourceTail(D0, s0, d, s, x, full, dst == src, src, len);
      SpliceTwice(D0, d, x, Encipher(Words(), m[full..]));
      if dst != src {
        EncipherSplit(S0, m[..full], m[full..]);
        AbsorbSplit(S0, m[..full], m[full..]);
      } else {
        assert full == 0 ==> m[..full] == [] && m[full..] == m && [] + Encipher(S0, m) == Encipher(S0, m);
      }
      tag := EncTail(dst, d + full, src, s + full, len - full);
    }

    /** The partial block, if any, recovered and absorbed with its padding. */
    method DecTail(dst: array<byte>, d: nat, src: array<byte>, s: nat, rem: nat)
      requires Valid() && Ranges(dst, d, src, s, rem) && rem < 16
      modifies this, dst
      ensures Valid() && Words() == Absorb(old(Words()), Decipher(old(Words()), old(src[s..s + rem])))
      ensures dst[..] == Splice(old(dst[..]), d, Decipher(old(Words()), old(src[s..s + rem])))
    {
      hide Update, KeyStream, Splice;
      ghost var T, D0, c := Words(), dst[..], src[s..s + rem];
      NothingToDo(T);
      if rem > 0 {
        var ks := KeyStreamOf();
        XorInto(dst, d, src, s, rem, ks);
        SpliceParts(D0, d, Decipher(T, c));
        assert dst[d..d + rem] == dst[..][d..d + rem];
        AbsorbShort(T, dst[d..d + rem]);
        StateUpdate(Pad(dst[d..d + rem]));
      } else {
        SpliceNothing(D0, d);
      }
    }

    /** Recovers the remaining bytes and checks the tag. On a mismatch the bytes of this call
        are zeroed; those of earlier calls are not touched. */
    method DecFinal(dst: array<byte>, d: nat, src: array<byte>, s: nat, len: nat, tag: Block) returns (ok: bool)
      requires Valid() && Ranges(dst, d, src, s, len)
      modifies this, dst
      ensures Valid()
      ensures ok <==> Tag(Absorb(old(Words()), Decipher(old(Words()), old(src[s..s + len])))) == tag
      ensures dst[..] == Splice(old(dst[..]), d,
                                if ok then Decipher(old(Words()), old(src[s..s + len])) else Zeros(len))
    {
      hide Update, Absorb, Decipher, Splice, Tag;
      ghost var S0, D0, s0, c := Words(), dst[..], src[..], src[s..s + len];
      var full := len - len % 16;
      Halves(src, s, len, full);
      DecUpdate(dst, d, src, s, full);
      ghost var p := Decipher(S0, c[..full]);
      SourceTail(D0, s0, d, s, p, full, dst == src, src, len);
      DecipherSplit(S0, c[..full], c[full..]);
      AbsorbSplit(S0, p, Decipher(Words(), c[full..]));
      SpliceTwice(D0, d, p, Decipher(Words(), c[full..]));
      DecTail(dst, d + full, src, s + full, len - full);
      var expected := MakeTag();
      ok := TagsEqual(expected, tag);
      if !ok {
        ZeroRange(dst, d, len);
        SpliceOver(D0, d, Decipher(S0, c), Zeros(len));
      }
    }
  }

  method ZeroRange(dst: array<byte>, d: nat, len: nat)
    requires d + len <= dst.Length
    modifies dst
    ensures dst[..] == Splice(old(dst[..]), d, Zeros(len))
  {
    for i := 0 to len
      invariant forall k :: 0 <= k < dst.Length ==> dst[k] == if d <= k < d + i then 0 else old(dst[k])
    {
      dst[d + i] := 0;
    }
  }

  lemma SpliceOver(a: bytes, d: nat, x: bytes, y: bytes)
    requires d + |x| <= |a| && |x| == |y|
    ensures Splice(Splice(a, d, x), d, y) == Splice(a, d, y)
  {
  }

  // ---- One-shot calls ----

  method Start(ad: array<byte>, ao: nat, adlen: nat, nonce: Block, key: Block) returns (st: Cipher)
    requires ao + adlen <= ad.Length
    ensures fresh(st) && st.Valid() && st.Words() == Absorb(Init(key, nonce), ad[ao..ao + adlen])
  {
    hide Update, Init, Absorb;
    st := new Cipher(key, nonce);
    if adlen > 0 {
      st.AdUpdate(ad, ao, adlen);
    } else {
      NothingToDo(st.Words());
      assert ad[ao..ao + adlen] == [];
    }
  }

  /** c[co..] and the tag of m[mo..mo+mlen]; c may be the message buffer or hold the
      associated data. */
  method EncryptInto(c: array<byte>, co: nat, m: array<byte>, mo: nat, mlen: nat,
                     ad: array<byte>, ao: nat, adlen: nat, nonce: Block, key: Block) returns (tag: Block)
    requires Ranges(c, co, m, mo, mlen) && ao + adlen <= ad.Length
    modifies c
    ensures var s := Encrypt(key, nonce, old(ad[ao..ao + adlen]), old(m[mo..mo + mlen]));
            tag == s.tag && c[..] == Splice(old(c[..]), co, s.ciphertext)
  {
    hide Update, Absorb, Encipher, Splice, Tag, Init;
    ghost var D0, msg := c[..], m[mo..mo + mlen];
    var st := Start(ad, ao, adlen, nonce, key);
    ghost var S := st.Words();
    NothingToDo(S);
    var full := mlen - mlen % 16;
    Halves(m, mo, mlen, full);
    SpliceNothing(D0, co);
    if full > 0 {
      st.EncUpdate(c, co, m, mo, full);
    } else {
      assert msg[..full] == [];
    }
    EncipherSplit(S, msg[..full], msg[full..]);
    AbsorbSplit(S, msg[..full], msg[full..]);
    SourceTail(D0, old(m[..]), co, mo, Encipher(S, msg[..full]), full, c == m, m, mlen);
    SpliceTwice(D0, co, Encipher(S, msg[..full]), Encipher(Absorb(S, msg[..full]), msg[full..]));
    tag := st.EncFinal(c, co + full, m, mo + full, mlen - full);
  }

  /** Accepts exactly when the specification does. On rejection the whole blocks already
      recovered stay in the output and only the bytes of the final call are zero. */
  method DecryptInto(m: array<byte>, mo: nat, c: array<byte>, co: nat, clen: nat,
                     ad: array<byte>, ao: nat, adlen: nat, nonce: Block, key: Block, tag: Block) returns (ok: bool)
    requires Ranges(m, mo, c, co, clen) && ao + adlen <= ad.Length
    modifies m
    ensures var r := Decrypt(key, nonce, old(ad[ao..ao + adlen]), old(c[co..co + clen]), tag);
            && (ok <==> r.Some?)
            && (ok ==> m[..] == Splice(old(m[..]), mo, r.value))
    ensures !ok ==>
      var full := clen - clen % 16;
      var S := Absorb(Init(key, nonce), old(ad[ao..ao + adlen]));
      m[..] == Splice(old(m[..]), mo, Decipher(S, old(c[co..co + clen])[..full]) + Zeros(clen - full))
  {
    hide Update, Absorb, Decipher, Splice, Tag, Init;
    ghost var D0, ct := m[..], c[co..co + clen];
    var st := Start(ad, ao, adlen, nonce, key);
    ghost var S := st.Words();
    NothingToDo(S);
    var full := clen - clen % 16;
    Halves(c, co, clen, full);
    SpliceNothing(D0, mo);
    if full > 0 {
      st.DecUpdate(m, mo, c, co, full);
    } else {
      assert ct[..full] == [];
    }
    ghost var p := Decipher(S, ct[..full]);
    DecipherSplit(S, ct[..full], ct[full..]);
    AbsorbSplit(S, p, Decipher(Absorb(S, p), ct[full..]));
    SourceTail(D0, old(c[..]), mo, co, p, full, m == c, c, clen);
    SpliceTwice(D0, mo, p, Decipher(Absorb(S, p), ct[full..]));
    SpliceTwice(D0, mo, p, Zeros(clen - full));
    ok := st.DecFinal(m, mo + full, c, co + full, clen - full, tag);
  }

  lemma Halves(src: array<byte>, s: nat, len: nat, full: nat)
    requires s + len <= src.Length && full <= len
    ensures var x := src[s..s + len];
            x[..full] == src[s..s + full] && x[full..] == src[s + full..s + len] && x == x[..full] + x[full..]
  {
  }

  /** Whatever has been written behind it, the source still holds its remaining bytes. */
  lemma SourceTail(D0: bytes, s0: bytes, d: nat, s: nat, x: bytes, i: nat, inPlace: bool, src: array<byte>, len: nat)
    requires |x| == i <= len && d + len <= |D0| && s + len <= |s0| == src.Length
    requires if inPlace then d == s && D0 == s0 && src[..] == Splice(D0, d, x) else src[..] == s0
    ensures src[s + i..s + len] == s0[s..s + len][i..]
  {
    if inPlace {
      SpliceParts(D0, d, x);
      assert src[s + i..s + len] == src[..][d + i..][..len - i] == s0[s + i..][..len - i];
    } else {
      assert src[s + i..s + len] == s0[s + i..s + len];
    }
    assert s0[s..s + len][i..] == s0[s + i..s + len] == s0[s + i..][..len - i];
  }

  lemma SourceAhead(D0: bytes, s0: bytes, d: nat, s: nat, x: bytes, i: nat, inPlace: bool, src: array<byte>, len: nat)
    requires |x| == i && i + 16 <= len && d + len <= |D0| && s + len <= |s0| == src.Length
    requires if inPlace then d == s && D0 == s0 && src[..] == Splice(D0, d, x) else src[..] == s0
    ensures src[s + i..s + i + 16] == s0[s..s + len][i..i + 16]
  {
    SourceTail(D0, s0, d, s, x, i, inPlace, src, len);
    assert src[s + i..s + i + 16] == src[s + i..s + len][..16];
  }
}
