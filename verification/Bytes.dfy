/** Byte strings, and the big- and little-endian integers the wire formats use. */
module Bytes {

  type byte = bv8
  type bytes = seq<byte>

  datatype Option<+T> = None | Some(value: T)

  function Zeros(n: nat): (r: bytes)
    ensures |r| == n
  {
    seq(n, _ => 0)
  }

  /** Bytewise exclusive or, as long as the first operand. */
  function Xor(a: bytes, b: bytes): (r: bytes)
    requires |a| <= |b|
    ensures |r| == |a|
  {
    seq(|a|, i requires 0 <= i < |a| => a[i] ^ b[i])
  }

  function And(a: bytes, b: bytes): (r: bytes)
    requires |a| <= |b|
    ensures |r| == |a|
  {
    seq(|a|, i requires 0 <= i < |a| => a[i] & b[i])
  }

  /** A key stream applied twice cancels. */
  lemma XorTwice(a: bytes, k: bytes)
    requires |a| <= |k|
    ensures Xor(Xor(a, k), k) == a
  {
    forall i | 0 <= i < |a| ensures Xor(Xor(a, k), k)[i] == a[i] {
      assert Xor(a, k)[i] == a[i] ^ k[i];
    }
  }

  lemma XorInjective(a: bytes, b: bytes, k: bytes)
    requires |a| == |b| <= |k|
    requires Xor(a, k) == Xor(b, k)
    ensures a == b
  {
    XorTwice(a, k);
    XorTwice(b, k);
  }

  lemma XorCommutes(a: bytes, b: bytes)
    requires |a| == |b|
    ensures Xor(a, b) == Xor(b, a)
  {
    assert forall i :: 0 <= i < |a| ==> Xor(a, b)[i] == Xor(b, a)[i];
  }

  lemma XorAssociates(a: bytes, b: bytes, c: bytes)
    requires |a| == |b| == |c|
    ensures Xor(Xor(a, b), c) == Xor(a, Xor(b, c))
  {
    assert forall i :: 0 <= i < |a| ==> Xor(Xor(a, b), c)[i] == Xor(a, Xor(b, c))[i];
  }

  // ---- Unsigned values ----

  /** The unsigned value of a byte. It is counted rather than converted, so that
      proofs about lengths and counters stay free of bit-vector reasoning;
      NumIsConversion ties it to the built-in conversion. */
  function Num(b: byte): nat
    decreases b
  {
    if b == 0 then 0 else 1 + Num(b - 1)
  }

  /** The byte with a given unsigned value, the truncating cast of the source on 0..255. */
  function U8(n: nat): byte
    requires n < 256
  {
    if n == 0 then 0 else U8(n - 1) + 1
  }

  lemma {:induction false} NumIsConversion(b: byte)
    ensures Num(b) == b as int
    decreases b
  {
    if b != 0 {
      NumIsConversion(b - 1);
    }
  }

  lemma {:induction false} NumComplement(b: byte)
    ensures Num(b) + Num(255 - b) == 255
    decreases b
  {
    if b == 0 {
      NumIsConversion(255);
    } else {
      NumComplement(b - 1);
      assert 255 - (b - 1) - 1 == 255 - b;
    }
  }

  lemma NumBound(b: byte)
    ensures Num(b) < 256
  {
    NumComplement(b);
  }

  lemma {:induction false} NumU8(n: nat)
    requires n < 256
    ensures Num(U8(n)) == n
  {
    if n != 0 {
      NumU8(n - 1);
      NumIsConversion(255);
      assert U8(n - 1) != 255;
      assert U8(n) - 1 == U8(n - 1);
    }
  }

  lemma {:induction false} U8Num(b: byte)
    ensures Num(b) < 256
    ensures U8(Num(b)) == b
    decreases b
  {
    NumBound(b);
    if b != 0 {
      U8Num(b - 1);
    }
  }

  // ---- Multi-byte integers ----

  function Pow256(k: nat): (r: nat)
    ensures r >= 1
  {
    if k == 0 then 1 else 256 * Pow256(k - 1)
  }

  /** The k low-order bytes of n, least significant first. */
  function LittleEndian(n: nat, k: nat): (r: bytes)
    ensures |r| == k
    decreases k
  {
    if k == 0 then [] else [U8(n % 256)] + LittleEndian(n / 256, k - 1)
  }

  function FromLittleEndian(s: bytes): nat {
    if s == [] then 0 else Num(s[0]) + 256 * FromLittleEndian(s[1..])
  }

  /** The k low-order bytes of n, most significant first. */
  function BigEndian(n: nat, k: nat): (r: bytes)
    ensures |r| == k
    decreases k
  {
    if k == 0 then [] else BigEndian(n / 256, k - 1) + [U8(n % 256)]
  }

  function FromBigEndian(s: bytes): nat {
    if s == [] then 0 else 256 * FromBigEndian(s[..|s| - 1]) + Num(s[|s| - 1])
  }

  lemma {:induction false} FromLittleEndianInverts(n: nat, k: nat)
    requires n < Pow256(k)
    ensures FromLittleEndian(LittleEndian(n, k)) == n
    decreases k
  {
    if k != 0 {
      NumU8(n % 256);
      FromLittleEndianInverts(n / 256, k - 1);
      assert LittleEndian(n, k)[1..] == LittleEndian(n / 256, k - 1);
    }
  }

  lemma {:induction false} FromBigEndianInverts(n: nat, k: nat)
    requires n < Pow256(k)
    ensures FromBigEndian(BigEndian(n, k)) == n
    decreases k
  {
    if k != 0 {
      NumU8(n % 256);
      FromBigEndianInverts(n / 256, k - 1);
      assert BigEndian(n, k)[..k - 1] == BigEndian(n / 256, k - 1);
    }
  }

  lemma {:induction false} BigEndianInverts(s: bytes)
    ensures FromBigEndian(s) < Pow256(|s|)
    ensures BigEndian(FromBigEndian(s), |s|) == s
    decreases |s|
  {
    if s != [] {
      var rest, last := s[..|s| - 1], s[|s| - 1];
      BigEndianInverts(rest);
      U8Num(last);
      DivModOf(FromBigEndian(rest), Num(last));
      assert s == rest + [last];
    }
  }

  lemma DivModOf(q: nat, r: nat)
    requires r < 256
    ensures (256 * q + r) / 256 == q && (256 * q + r) % 256 == r
  {
  }

  lemma DivTwice(n: nat, p: nat)
    requires p > 0
    ensures (n / 256) / p == n / (256 * p)
  {
    var q, r := n / (256 * p), n % (256 * p);
    assert n == 256 * p * q + r == 256 * (p * q) + r;
    assert n / 256 == p * q + r / 256 && 0 <= r / 256 < p;
    QuotientOf(n / 256, p, q, r / 256);
  }

  lemma QuotientOf(a: nat, p: nat, q: nat, r: nat)
    requires a == p * q + r && r < p
    ensures a / p == q
  {
    assert a == p * (a / p) + a % p;
    MulOrder(p, q, a / p);
    MulOrder(p, a / p, q);
  }

  lemma MulOrder(p: nat, a: nat, b: nat)
    ensures a < b ==> p * a + p <= p * b
  {
    if a < b {
      assert p * b == p * (a + 1) + p * (b - a - 1);
    }
  }

  /** Byte i of the little-endian form is digit i in base 256. */
  lemma {:induction false} LittleEndianByte(n: nat, k: nat, i: nat)
    requires i < k
    ensures Num(LittleEndian(n, k)[i]) == n / Pow256(i) % 256
    decreases k
  {
    NumU8(n % 256);
    if i > 0 {
      LittleEndianByte(n / 256, k - 1, i - 1);
      DivTwice(n, Pow256(i - 1));
    }
  }

  /** Byte i of the big-endian form is digit i counted from the other end. */
  lemma {:induction false} BigEndianByte(n: nat, k: nat, i: nat)
    requires i < k
    ensures Num(BigEndian(n, k)[i]) == n / Pow256(k - 1 - i) % 256
    decreases k
  {
    NumU8(n % 256);
    if i < k - 1 {
      BigEndianByte(n / 256, k - 1, i);
      DivTwice(n, Pow256(k - 2 - i));
      assert Pow256(k - 1 - i) == 256 * Pow256(k - 2 - i);
    }
  }
}
