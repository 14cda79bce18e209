/** The finite field behind the AES tables (section 4.2 of FIPS 197): multiplication built
    from the doubling of Aes, its laws, and the S-box as affine image of the field inverse. */
module AesField {
  import opened Bytes
  import opened Aes

  /** Doubling is the shift, reduced modulo x^8 + x^4 + x^3 + x + 1 when it overflows. */
  lemma XtimeReduces(x: byte)
    ensures var r := ((x as bv16) << 1) ^ (Xtime(x) as bv16);
            r == if x >> 7 == 1 then 0x11b else 0
  {
  }

  /** The byte with bit i set. */
  function Mask(i: nat): byte
    requires i < 8
  {
    match i
    case 0 => 1
    case 1 => 2
    case 2 => 4
    case 3 => 8
    case 4 => 16
    case 5 => 32
    case 6 => 64
    case _ => 128
  }

  /** a when bit i of b is set, else zero. */
  function Select(b: byte, i: nat, a: byte): byte
    requires i < 8
  {
    if b & Mask(i) != 0 then a else 0
  }

  /** The sum of the doublings of a that bits i and on of b select. */
  function MulFrom(a: byte, b: byte, i: nat): byte
    requires i <= 8
    decreases 8 - i
  {
    if i == 8 then 0 else Add(Select(b, i, a), MulFrom(Xtime(a), b, i + 1))
  }

  /** Multiplication in GF(2^8). */
  function Mul(a: byte, b: byte): byte {
    MulFrom(a, b, 0)
  }

  // ---- Laws ----

  lemma AddZero(a: byte)
    ensures Add(a, 0) == a && Add(0, a) == a && Add(a, a) == 0 && Xtime(0) == 0
  {
  }

  lemma SelectAdds(b: byte, i: nat, a: byte, a': byte)
    requires i < 8
    ensures Select(b, i, Add(a, a')) == Add(Select(b, i, a), Select(b, i, a'))
    ensures Select(b, i, Xtime(a)) == Xtime(Select(b, i, a))
  {
    AddZero(0);
  }

  ghost predicate OneBit(m: byte) {
    m == 1 || m == 2 || m == 4 || m == 8 || m == 16 || m == 32 || m == 64 || m == 128
  }

  lemma MaskIsOneBit(i: nat)
    requires i < 8
    ensures OneBit(Mask(i))
  {
  }

  lemma BitOfSum(b: byte, b': byte, m: byte)
    requires OneBit(m)
    ensures (b ^ b') & m == 0 <==> (b & m == 0 <==> b' & m == 0)
  {
  }

  lemma SelectAddsBits(b: byte, b': byte, i: nat, a: byte)
    requires i < 8
    ensures Select(Add(b, b'), i, a) == Add(Select(b, i, a), Select(b', i, a))
  {
    hide Mask, OneBit;
    MaskIsOneBit(i);
    BitOfSum(b, b', Mask(i));
    AddZero(a);
    AddZero(0);
  }

  lemma {:induction false} MulAdds(a: byte, a': byte, b: byte, i: nat)
    requires i <= 8
    ensures MulFrom(Add(a, a'), b, i) == Add(MulFrom(a, b, i), MulFrom(a', b, i))
    decreases 8 - i
  {
    hide Xtime, Add, Select;
    if i == 8 {
      AddZero(0);
    } else {
      XtimeLinear(a, a');
      MulAdds(Xtime(a), Xtime(a'), b, i + 1);
      SelectAdds(b, i, a, a');
      AddExchanges(Select(b, i, a), Select(b, i, a'), MulFrom(Xtime(a), b, i + 1), MulFrom(Xtime(a'), b, i + 1));
    }
  }

  lemma {:induction false} MulDoublesLeft(a: byte, b: byte, i: nat)
    requires i <= 8
    ensures MulFrom(Xtime(a), b, i) == Xtime(MulFrom(a, b, i))
    decreases 8 - i
  {
    hide Xtime, Add, Select;
    if i == 8 {
      AddZero(0);
    } else {
      MulDoublesLeft(Xtime(a), b, i + 1);
      SelectAdds(b, i, a, a);
      XtimeLinear(Select(b, i, a), MulFrom(Xtime(a), b, i + 1));
    }
  }

  lemma {:induction false} MulAddsBits(a: byte, b: byte, b': byte, i: nat)
    requires i <= 8
    ensures MulFrom(a, Add(b, b'), i) == Add(MulFrom(a, b, i), MulFrom(a, b', i))
    decreases 8 - i
  {
    hide Xtime, Add, Select;
    if i == 8 {
      AddZero(0);
    } else {
      MulAddsBits(Xtime(a), b, b', i + 1);
      SelectAddsBits(b, b', i, a);
      AddExchanges(Select(b, i, a), Select(b', i, a), MulFrom(Xtime(a), b, i + 1), MulFrom(Xtime(a), b', i + 1));
    }
  }

  /** A product with its eight terms written out. */
  function Product(a: byte, b: byte): byte {
    var a1 := Xtime(a);
    var a2 := Xtime(a1);
    var a3 := Xtime(a2);
    var a4 := Xtime(a3);
    var a5 := Xtime(a4);
    var a6 := Xtime(a5);
    var a7 := Xtime(a6);
    Add(Select(b, 0, a), Add(Select(b, 1, a1), Add(Select(b, 2, a2), Add(Select(b, 3, a3),
    Add(Select(b, 4, a4), Add(Select(b, 5, a5), Add(Select(b, 6, a6), Select(b, 7, a7))))))))
  }

  lemma ProductIsMul(a: byte, b: byte)
    ensures Mul(a, b) == Product(a, b)
  {
    hide Xtime, Add, Select;
    var a1, a2 := Xtime(a), Xtime(Xtime(a));
    var a3, a4 := Xtime(a2), Xtime(Xtime(a2));
    var a5, a6 := Xtime(a4), Xtime(Xtime(a4));
    var a7 := Xtime(a6);
    AddZero(Select(b, 7, a7));
    assert MulFrom(Xtime(a7), b, 8) == 0;
    assert MulFrom(a7, b, 7) == Select(b, 7, a7);
    assert MulFrom(a6, b, 6) == Add(Select(b, 6, a6), MulFrom(a7, b, 7));
    assert MulFrom(a5, b, 5) == Add(Select(b, 5, a5), MulFrom(a6, b, 6));
    assert MulFrom(a4, b, 4) == Add(Select(b, 4, a4), MulFrom(a5, b, 5));
    assert MulFrom(a3, b, 3) == Add(Select(b, 3, a3), MulFrom(a4, b, 4));
    assert MulFrom(a2, b, 2) == Add(Select(b, 2, a2), MulFrom(a3, b, 3));
    assert MulFrom(a1, b, 1) == Add(Select(b, 1, a1), MulFrom(a2, b, 2));
  }

  /** x^8 is x^4 + x^3 + x + 1. */
  lemma EightDoublings(a: byte)
    ensures Xtime(Xtime(Xtime(Xtime(Xtime(Xtime(Xtime(Xtime(a)))))))) == Mul(a, 0x1b)
  {
    ProductIsMul(a, 0x1b);
  }

  /** Doubling the second factor doubles the product. */
  lemma MulDoublesRight(a: byte, b: byte)
    ensures Mul(a, Xtime(b)) == Xtime(Mul(a, b))
  {
    hide MulFrom;
    var low, high := b & 0x7f, b & 0x80;
    assert b == Add(low, high) && Xtime(b) == Add(low << 1, Xtime(high)) && Xtime(high) == if high == 0 then 0 else 0x1b;
    MulAddsBits(a, low, high, 0);
    MulAddsBits(a, low << 1, Xtime(high), 0);
    XtimeLinear(Mul(a, low), Mul(a, high));
    ShiftLow(a, low);
    ShiftHigh(a, high);
  }

  lemma ShiftedBit(low: byte, m: byte)
    requires low < 128 && OneBit(m) && m != 128
    ensures (low << 1) & (m << 1) == 0 <==> low & m == 0
  {
  }

  lemma NextMask(i: nat)
    requires i < 7
    ensures Mask(i) != 128 && Mask(i + 1) == Mask(i) << 1
  {
  }

  lemma ShiftedSelect(low: byte, i: nat, y: byte)
    requires low < 128 && i < 7
    ensures Select(low << 1, i + 1, y) == Select(low, i, y)
  {
    hide Mask, OneBit;
    MaskIsOneBit(i);
    NextMask(i);
    ShiftedBit(low, Mask(i));
  }

  lemma EndSelects(low: byte, y: byte)
    requires low < 128
    ensures Select(low << 1, 0, y) == 0 && Select(low, 7, y) == 0
  {
  }

  lemma {:induction false} MulShifted(c: byte, low: byte, i: nat)
    requires low < 128 && i < 8
    ensures MulFrom(c, low << 1, i + 1) == MulFrom(c, low, i)
    decreases 8 - i
  {
    hide Xtime, Add, Select;
    if i == 7 {
      EndSelects(low, c);
      AddZero(0);
      assert MulFrom(Xtime(c), low, 8) == 0;
    } else {
      ShiftedSelect(low, i, c);
      MulShifted(Xtime(c), low, i + 1);
    }
  }

  lemma ShiftLow(a: byte, low: byte)
    requires low < 128
    ensures Mul(a, low << 1) == Xtime(Mul(a, low))
  {
    hide Xtime, Add, Select;
    MulShifted(Xtime(a), low, 0);
    MulDoublesLeft(a, low, 0);
    EndSelects(low, a);
    AddZero(MulFrom(Xtime(a), low << 1, 1));
  }

  lemma ShiftHigh(a: byte, high: byte)
    requires high == 0 || high == 0x80
    ensures Mul(a, Xtime(high)) == Xtime(Mul(a, high))
  {
    hide MulFrom;
    ProductIsMul(a, high);
    ProductIsMul(a, 0);
    EightDoublings(a);
  }

  lemma MulZeroOne(a: byte)
    ensures Mul(a, 0) == 0 && Mul(a, 1) == a && Mul(0, a) == 0 && Mul(1, a) == a
  {
    ProductIsMul(a, 0);
    ProductIsMul(a, 1);
    ProductIsMul(0, a);
    ProductIsMul(1, a);
  }

  lemma {:induction false} MulThrough(a: byte, b: byte, c: byte, i: nat)
    requires i <= 8
    ensures MulFrom(Mul(a, b), c, i) == Mul(a, MulFrom(b, c, i))
    decreases 8 - i
  {
    hide Xtime, Add, Select, Mul;
    MulZeroOne(a);
    if i < 8 {
      MulDoublesRight(a, b);
      MulThrough(a, Xtime(b), c, i + 1);
      SelectThrough(a, b, c, i);
      MulSums(a, Select(c, i, b), MulFrom(Xtime(b), c, i + 1));
    }
  }

  lemma MulSums(a: byte, b: byte, b': byte)
    ensures Mul(a, Add(b, b')) == Add(Mul(a, b), Mul(a, b'))
  {
    hide MulFrom, Add;
    MulAddsBits(a, b, b', 0);
  }

  lemma SelectThrough(a: byte, b: byte, c: byte, i: nat)
    requires i < 8
    ensures Mul(a, Select(c, i, b)) == Select(c, i, Mul(a, b))
  {
    hide Mul;
    MulZeroOne(a);
  }

  /** Multiplication associates. */
  lemma MulAssociates(a: byte, b: byte, c: byte)
    ensures Mul(Mul(a, b), c) == Mul(a, Mul(b, c))
  {
    hide MulFrom;
    MulThrough(a, b, c, 0);
  }

  // ---- The S-box ----

  /** The affine map of section 5.1.1 of FIPS 197. */
  function Affine(i: byte): byte {
    i ^ i.RotateLeft(1) ^ i.RotateLeft(2) ^ i.RotateLeft(3) ^ i.RotateLeft(4) ^ 0x63
  }

  function InvAffine(y: byte): byte {
    y.RotateLeft(1) ^ y.RotateLeft(3) ^ y.RotateLeft(6) ^ 0x05
  }

  lemma AffineInverts(y: byte)
    ensures Affine(InvAffine(y)) == y && InvAffine(Affine(y)) == y
  {
  }

  /** The same terms with the operators of the source. */
  function PlainProduct(a: byte, b: byte): byte {
    var a1 := Xtime(a);
    var a2 := Xtime(a1);
    var a3 := Xtime(a2);
    var a4 := Xtime(a3);
    var a5 := Xtime(a4);
    var a6 := Xtime(a5);
    var a7 := Xtime(a6);
    (if b & 1 != 0 then a else 0) ^ ((if b & 2 != 0 then a1 else 0) ^ ((if b & 4 != 0 then a2 else 0) ^
    ((if b & 8 != 0 then a3 else 0) ^ ((if b & 16 != 0 then a4 else 0) ^ ((if b & 32 != 0 then a5 else 0) ^
    ((if b & 64 != 0 then a6 else 0) ^ (if b & 128 != 0 then a7 else 0)))))))
  }

  function PlainSum(t0: byte, t1: byte, t2: byte, t3: byte, t4: byte, t5: byte, t6: byte, t7: byte): byte {
    t0 ^ (t1 ^ (t2 ^ (t3 ^ (t4 ^ (t5 ^ (t6 ^ t7))))))
  }

  lemma SumIsPlain(t0: byte, t1: byte, t2: byte, t3: byte, t4: byte, t5: byte, t6: byte, t7: byte)
    ensures Add(t0, Add(t1, Add(t2, Add(t3, Add(t4, Add(t5, Add(t6, t7))))))) == PlainSum(t0, t1, t2, t3, t4, t5, t6, t7)
  {
  }

  lemma PlainIsSum(a: byte, b: byte)
    ensures var a1, a2 := Xtime(a), Xtime(Xtime(a));
            var a3, a4 := Xtime(a2), Xtime(Xtime(a2));
            var a5, a6 := Xtime(a4), Xtime(Xtime(a4));
            PlainProduct(a, b) ==
            PlainSum(if b & 1 != 0 then a else 0, if b & 2 != 0 then a1 else 0, if b & 4 != 0 then a2 else 0,
                     if b & 8 != 0 then a3 else 0, if b & 16 != 0 then a4 else 0, if b & 32 != 0 then a5 else 0,
                     if b & 64 != 0 then a6 else 0, if b & 128 != 0 then Xtime(a6) else 0)
  {
    hide Xtime;
  }

  lemma PlainIsProduct(a: byte, b: byte)
    ensures PlainProduct(a, b) == Product(a, b)
  {
    hide Xtime, Add, PlainSum, PlainProduct;
    var a1, a2 := Xtime(a), Xtime(Xtime(a));
    var a3, a4 := Xtime(a2), Xtime(Xtime(a2));
    var a5, a6 := Xtime(a4), Xtime(Xtime(a4));
    PlainIsSum(a, b);
    SumIsPlain(Select(b, 0, a), Select(b, 1, a1), Select(b, 2, a2), Select(b, 3, a3),
               Select(b, 4, a4), Select(b, 5, a5), Select(b, 6, a6), Select(b, 7, Xtime(a6)));
  }

  lemma LowProducts(x: byte)
    requires 0 < x < 128
    ensures PlainProduct(x, InvAffine(Sbox(x))) == 1
  {
  }

  lemma HighProducts(x: byte)
    requires x >= 128
    ensures PlainProduct(x, InvAffine(Sbox(x))) == 1
  {
  }

  /** What the table holds, before the affine map, is a right inverse. */
  lemma TableInverts(x: byte)
    requires x != 0
    ensures Mul(x, InvAffine(Sbox(x))) == 1
  {
    hide Product, PlainProduct, Mul, Sbox, InvAffine;
    ProductIsMul(x, InvAffine(Sbox(x)));
    PlainIsProduct(x, InvAffine(Sbox(x)));
    if x < 128 {
      LowProducts(x);
    } else {
      HighProducts(x);
    }
  }

  /** And the only one. */
  lemma InverseUnique(x: byte, i: byte)
    requires Mul(x, i) == 1
    ensures i == InvAffine(Sbox(x))
  {
    hide Mul, Sbox, InvAffine;
    MulZeroOne(i);
    MulZeroOne(x);
    var u := InvAffine(Sbox(x));
    TableInverts(x);
    MulZeroOne(u);
    var v := InvAffine(Sbox(u));
    TableInverts(u);
    MulAssociates(x, u, v);
    MulZeroOne(v);
    MulAssociates(u, x, i);
  }

  /** The S-box is the affine image of the field inverse, with zero taken to itself first. */
  lemma SboxIsAffineInverse(x: byte, i: byte)
    ensures Sbox(x) == Affine(i) <==> (if x == 0 then i == 0 else Mul(x, i) == 1)
  {
    hide Mul, Sbox, Affine, InvAffine;
    AffineInverts(i);
    AffineInverts(Sbox(x));
    if x == 0 {
      SboxOfZero();
    } else {
      TableInverts(x);
      if Mul(x, i) == 1 {
        InverseUnique(x, i);
      }
    }
  }

  lemma SboxOfZero()
    ensures InvAffine(Sbox(0)) == 0 && Sbox(0) == Affine(0)
  {
  }

  // ---- The round, byte by byte ----

  lemma MulTwoThree(a: byte)
    ensures Mul(a, 2) == Xtime(a) && Mul(a, 3) == Mul3(a)
  {
    hide Mul, MulFrom, Xtime;
    MulDoublesRight(a, 1);
    MulZeroOne(a);
    TwoAndThree();
    MulSums(a, 2, 1);
  }

  lemma TwoAndThree()
    ensures Xtime(1) == 2 && Add(2, 1) == 3
  {
  }

  /** Row r of the state moves r columns to the left (section 5.1.2 of FIPS 197). */
  lemma ShiftRowsMoves(b: Block, r: nat, c: nat)
    requires r < 4 && c < 4
    ensures ShiftRows(b)[4 * c + r] == b[4 * ((c + r) % 4) + r]
  {
    assert SR_PERM[4 * c + r] == 4 * ((c + r) % 4) + r;
  }

  /** The substituted byte that row r of column c receives. */
  function Substituted(b: Block, c: nat, r: nat): byte
    requires c < 4 && r < 4
  {
    Sbox(b[4 * ((c + r) % 4) + r])
  }

  /** One round as the usual table form: each output byte is a sum of multiples by 2, 3, 1 and 1
      of four substituted bytes taken from the diagonal of its column. */
  lemma RoundBytes(b: Block, c: nat)
    requires c < 4
    ensures var s0, s1, s2, s3 := Substituted(b, c, 0), Substituted(b, c, 1), Substituted(b, c, 2), Substituted(b, c, 3);
            && Round(b)[4 * c] == Sum(Mul(s0, 2), Mul(s1, 3), s2, s3)
            && Round(b)[4 * c + 1] == Sum(s0, Mul(s1, 2), Mul(s2, 3), s3)
            && Round(b)[4 * c + 2] == Sum(s0, s1, Mul(s2, 2), Mul(s3, 3))
            && Round(b)[4 * c + 3] == Sum(Mul(s0, 3), s1, s2, Mul(s3, 2))
  {
    hide Mul, MulFrom, Xtime, Add, Sum, Sbox, MapColumns, ShiftRows, SubBytes;
    var s0, s1, s2, s3 := Substituted(b, c, 0), Substituted(b, c, 1), Substituted(b, c, 2), Substituted(b, c, 3);
    MulTwoThree(s0);
    MulTwoThree(s1);
    MulTwoThree(s2);
    MulTwoThree(s3);
    SubstitutedColumn(b, c);
    MapColumnsAt(MixColumn, ShiftRows(SubBytes(b)), c);
  }

  lemma SubstitutedColumn(b: Block, c: nat)
    requires c < 4
    ensures ColumnOf(ShiftRows(SubBytes(b)), c) ==
            Column(Substituted(b, c, 0), Substituted(b, c, 1), Substituted(b, c, 2), Substituted(b, c, 3))
  {
    hide Sbox, ShiftRows;
    ShiftRowsMoves(SubBytes(b), 0, c);
    ShiftRowsMoves(SubBytes(b), 1, c);
    ShiftRowsMoves(SubBytes(b), 2, c);
    ShiftRowsMoves(SubBytes(b), 3, c);
  }
}
