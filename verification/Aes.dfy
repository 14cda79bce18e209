/** The keyless AES round of the portable C implementation: SubBytes, ShiftRows and
    MixColumns (sections 5.1.1, 5.1.2 and 5.1.3 of FIPS 197), and its inverse. */
module Aes {
  import opened Bytes

  type Block = b: bytes | |b| == 16 witness Zeros(16)

  // ---- SubBytes ----

  /** Sixteen values selected by a nibble. */
  datatype Sixteen<T> = Sixteen(b0: T, b1: T, b2: T, b3: T, b4: T, b5: T, b6: T, b7: T,
                                b8: T, b9: T, b10: T, b11: T, b12: T, b13: T, b14: T, b15: T) {
    function At(i: byte): T {
      if i & 8 == 0 then
        if i & 4 == 0 then Pick(i, b0, b1, b2, b3) else Pick(i, b4, b5, b6, b7)
      else
        if i & 4 == 0 then Pick(i, b8, b9, b10, b11) else Pick(i, b12, b13, b14, b15)
    }

    static function Pick(i: byte, a: T, b: T, c: T, d: T): T {
      if i & 2 == 0 then if i & 1 == 0 then a else b else if i & 1 == 0 then c else d
    }
  }

  /** A 256-byte table, laid out as sixteen rows of sixteen bytes. */
  type ByteTable = Sixteen<Sixteen<byte>>

  function Lookup(t: ByteTable, x: byte): byte {
    t.At(x >> 4).At(x & 15)
  }

  const SBOX: ByteTable := Sixteen(
    Sixteen(0x63, 0x7c, 0x77, 0x7b, 0xf2, 0x6b, 0x6f, 0xc5, 0x30, 0x01, 0x67, 0x2b, 0xfe, 0xd7, 0xab, 0x76),
    Sixteen(0xca, 0x82, 0xc9, 0x7d, 0xfa, 0x59, 0x47, 0xf0, 0xad, 0xd4, 0xa2, 0xaf, 0x9c, 0xa4, 0x72, 0xc0),
    Sixteen(0xb7, 0xfd, 0x93, 0x26, 0x36, 0x3f, 0xf7, 0xcc, 0x34, 0xa5, 0xe5, 0xf1, 0x71, 0xd8, 0x31, 0x15),
    Sixteen(0x04, 0xc7, 0x23, 0xc3, 0x18, 0x96, 0x05, 0x9a, 0x07, 0x12, 0x80, 0xe2, 0xeb, 0x27, 0xb2, 0x75),
    Sixteen(0x09, 0x83, 0x2c, 0x1a, 0x1b, 0x6e, 0x5a, 0xa0, 0x52, 0x3b, 0xd6, 0xb3, 0x29, 0xe3, 0x2f, 0x84),
    Sixteen(0x53, 0xd1, 0x00, 0xed, 0x20, 0xfc, 0xb1, 0x5b, 0x6a, 0xcb, 0xbe, 0x39, 0x4a, 0x4c, 0x58, 0xcf),
    Sixteen(0xd0, 0xef, 0xaa, 0xfb, 0x43, 0x4d, 0x33, 0x85, 0x45, 0xf9, 0x02, 0x7f, 0x50, 0x3c, 0x9f, 0xa8),
    Sixteen(0x51, 0xa3, 0x40, 0x8f, 0x92, 0x9d, 0x38, 0xf5, 0xbc, 0xb6, 0xda, 0x21, 0x10, 0xff, 0xf3, 0xd2),
    Sixteen(0xcd, 0x0c, 0x13, 0xec, 0x5f, 0x97, 0x44, 0x17, 0xc4, 0xa7, 0x7e, 0x3d, 0x64, 0x5d, 0x19, 0x73),
    Sixteen(0x60, 0x81, 0x4f, 0xdc, 0x22, 0x2a, 0x90, 0x88, 0x46, 0xee, 0xb8, 0x14, 0xde, 0x5e, 0x0b, 0xdb),
    Sixteen(0xe0, 0x32, 0x3a, 0x0a, 0x49, 0x06, 0x24, 0x5c, 0xc2, 0xd3, 0xac, 0x62, 0x91, 0x95, 0xe4, 0x79),
    Sixteen(0xe7, 0xc8, 0x37, 0x6d, 0x8d, 0xd5, 0x4e, 0xa9, 0x6c, 0x56, 0xf4, 0xea, 0x65, 0x7a, 0xae, 0x08),
    Sixteen(0xba, 0x78, 0x25, 0x2e, 0x1c, 0xa6, 0xb4, 0xc6, 0xe8, 0xdd, 0x74, 0x1f, 0x4b, 0xbd, 0x8b, 0x8a),
    Sixteen(0x70, 0x3e, 0xb5, 0x66, 0x48, 0x03, 0xf6, 0x0e, 0x61, 0x35, 0x57, 0xb9, 0x86, 0xc1, 0x1d, 0x9e),
    Sixteen(0xe1, 0xf8, 0x98, 0x11, 0x69, 0xd9, 0x8e, 0x94, 0x9b, 0x1e, 0x87, 0xe9, 0xce, 0x55, 0x28, 0xdf),
    Sixteen(0x8c, 0xa1, 0x89, 0x0d, 0xbf, 0xe6, 0x42, 0x68, 0x41, 0x99, 0x2d, 0x0f, 0xb0, 0x54, 0xbb, 0x16))

  const INV_SBOX: ByteTable := Sixteen(
    Sixteen(0x52, 0x09, 0x6a, 0xd5, 0x30, 0x36, 0xa5, 0x38, 0xbf, 0x40, 0xa3, 0x9e, 0x81, 0xf3, 0xd7, 0xfb),
    Sixteen(0x7c, 0xe3, 0x39, 0x82, 0x9b, 0x2f, 0xff, 0x87, 0x34, 0x8e, 0x43, 0x44, 0xc4, 0xde, 0xe9, 0xcb),
    Sixteen(0x54, 0x7b, 0x94, 0x32, 0xa6, 0xc2, 0x23, 0x3d, 0xee, 0x4c, 0x95, 0x0b, 0x42, 0xfa, 0xc3, 0x4e),
    Sixteen(0x08, 0x2e, 0xa1, 0x66, 0x28, 0xd9, 0x24, 0xb2, 0x76, 0x5b, 0xa2, 0x49, 0x6d, 0x8b, 0xd1, 0x25),
    Sixteen(0x72, 0xf8, 0xf6, 0x64, 0x86, 0x68, 0x98, 0x16, 0xd4, 0xa4, 0x5c, 0xcc, 0x5d, 0x65, 0xb6, 0x92),
    Sixteen(0x6c, 0x70, 0x48, 0x50, 0xfd, 0xed, 0xb9, 0xda, 0x5e, 0x15, 0x46, 0x57, 0xa7, 0x8d, 0x9d, 0x84),
    Sixteen(0x90, 0xd8, 0xab, 0x00, 0x8c, 0xbc, 0xd3, 0x0a, 0xf7, 0xe4, 0x58, 0x05, 0xb8, 0xb3, 0x45, 0x06),
    Sixteen(0xd0, 0x2c, 0x1e, 0x8f, 0xca, 0x3f, 0x0f, 0x02, 0xc1, 0xaf, 0xbd, 0x03, 0x01, 0x13, 0x8a, 0x6b),
    Sixteen(0x3a, 0x91, 0x11, 0x41, 0x4f, 0x67, 0xdc, 0xea, 0x97, 0xf2, 0xcf, 0xce, 0xf0, 0xb4, 0xe6, 0x73),
    Sixteen(0x96, 0xac, 0x74, 0x22, 0xe7, 0xad, 0x35, 0x85, 0xe2, 0xf9, 0x37, 0xe8, 0x1c, 0x75, 0xdf, 0x6e),
    Sixteen(0x47, 0xf1, 0x1a, 0x71, 0x1d, 0x29, 0xc5, 0x89, 0x6f, 0xb7, 0x62, 0x0e, 0xaa, 0x18, 0xbe, 0x1b),
    Sixteen(0xfc, 0x56, 0x3e, 0x4b, 0xc6, 0xd2, 0x79, 0x20, 0x9a, 0xdb, 0xc0, 0xfe, 0x78, 0xcd, 0x5a, 0xf4),
    Sixteen(0x1f, 0xdd, 0xa8, 0x33, 0x88, 0x07, 0xc7, 0x31, 0xb1, 0x12, 0x10, 0x59, 0x27, 0x80, 0xec, 0x5f),
    Sixteen(0x60, 0x51, 0x7f, 0xa9, 0x19, 0xb5, 0x4a, 0x0d, 0x2d, 0xe5, 0x7a, 0x9f, 0x93, 0xc9, 0x9c, 0xef),
    Sixteen(0xa0, 0xe0, 0x3b, 0x4d, 0xae, 0x2a, 0xf5, 0xb0, 0xc8, 0xeb, 0xbb, 0x3c, 0x83, 0x53, 0x99, 0x61),
    Sixteen(0x17, 0x2b, 0x04, 0x7e, 0xba, 0x77, 0xd6, 0x26, 0xe1, 0x69, 0x14, 0x63, 0x55, 0x21, 0x0c, 0x7d))

  function Sbox(x: byte): byte {
    Lookup(SBOX, x)
  }

  function InvSbox(x: byte): byte {
    Lookup(INV_SBOX, x)
  }

  /** The second table inverts the first on all 256 bytes. */
  lemma InvSboxInverts(x: byte)
    ensures InvSbox(Sbox(x)) == x
  {
  }

  function SubBytes(b: Block): (r: Block) {
    seq(16, i requires 0 <= i < 16 => Sbox(b[i]))
  }

  function InvSubBytes(b: Block): (r: Block) {
    seq(16, i requires 0 <= i < 16 => InvSbox(b[i]))
  }

  lemma InvSubBytesInverts(b: Block)
    ensures InvSubBytes(SubBytes(b)) == b
  {
    forall i | 0 <= i < 16 ensures InvSubBytes(SubBytes(b))[i] == b[i] {
      InvSboxInverts(b[i]);
    }
  }

  // ---- ShiftRows ----

  const SR_PERM: seq<nat> := [0, 5, 10, 15, 4, 9, 14, 3, 8, 13, 2, 7, 12, 1, 6, 11]

  const INV_SR_PERM: seq<nat> := [0, 13, 10, 7, 4, 1, 14, 11, 8, 5, 2, 15, 12, 9, 6, 3]

  ghost predicate IsPermutationTable(p: seq<nat>) {
    |p| == 16 && forall i :: 0 <= i < 16 ==> p[i] < 16
  }

  lemma ShiftRowsTables()
    ensures IsPermutationTable(SR_PERM) && IsPermutationTable(INV_SR_PERM)
    ensures forall i :: 0 <= i < 16 ==> SR_PERM[INV_SR_PERM[i]] == i
  {
  }

  function ShiftRows(b: Block): (r: Block) {
    ShiftRowsTables();
    seq(16, i requires 0 <= i < 16 => b[SR_PERM[i]])
  }

  function InvShiftRows(b: Block): (r: Block) {
    ShiftRowsTables();
    seq(16, i requires 0 <= i < 16 => b[INV_SR_PERM[i]])
  }

  lemma InvShiftRowsInverts(b: Block)
    ensures InvShiftRows(ShiftRows(b)) == b
  {
    ShiftRowsTables();
    assert forall i :: 0 <= i < 16 ==> InvShiftRows(ShiftRows(b))[i] == b[SR_PERM[INV_SR_PERM[i]]];
  }

  /** The substitution acts on each byte alone, so it may follow or precede the shift. */
  lemma SubBytesShiftRowsCommute(b: Block)
    ensures SubBytes(ShiftRows(b)) == ShiftRows(SubBytes(b))
  {
    ShiftRowsTables();
    forall i | 0 <= i < 16 ensures SubBytes(ShiftRows(b))[i] == ShiftRows(SubBytes(b))[i] {
      var j := SR_PERM[i];
      assert ShiftRows(b)[i] == b[j];
      assert SubBytes(b)[j] == Sbox(b[j]);
    }
  }

  // ---- MixColumns ----

  /** Addition in GF(2^8). */
  function Add(a: byte, b: byte): byte {
    a ^ b
  }

  function Sum(a: byte, b: byte, c: byte, d: byte): byte {
    Add(Add(Add(a, b), c), d)
  }

  /** Doubling in GF(2^8) modulo x^8 + x^4 + x^3 + x + 1. */
  function Xtime(x: byte): byte {
    (x << 1) ^ (((x >> 7) & 1) * 0x1b)
  }

  function Mul3(x: byte): byte {
    Add(Xtime(x), x)
  }

  /** The four bytes of one column, top to bottom. */
  datatype Column = Column(a0: byte, a1: byte, a2: byte, a3: byte)

  function MixColumn(a: Column): Column {
    Column(Sum(Xtime(a.a0), Mul3(a.a1), a.a2, a.a3),
           Sum(a.a0, Xtime(a.a1), Mul3(a.a2), a.a3),
           Sum(a.a0, a.a1, Xtime(a.a2), Mul3(a.a3)),
           Sum(Mul3(a.a0), a.a1, a.a2, Xtime(a.a3)))
  }

  /** The matrix has order four, so its cube is its inverse (MixColumnFourTimes). */
  function InvMixColumn(a: Column): Column {
    MixColumn(MixColumn(MixColumn(a)))
  }

  lemma AddAssociates(a: byte, b: byte, c: byte)
    ensures Add(Add(a, b), c) == Add(a, Add(b, c))
  {
  }

  lemma AddCommutes(a: byte, b: byte)
    ensures Add(a, b) == Add(b, a)
  {
  }

  lemma AddCancels(a: byte, b: byte)
    ensures Add(Add(a, b), b) == a
  {
  }

  lemma XtimeLinear(a: byte, b: byte)
    ensures Xtime(Add(a, b)) == Add(Xtime(a), Xtime(b))
  {
  }

  lemma AddSwaps(a: byte, b: byte, c: byte)
    ensures Add(Add(a, b), c) == Add(Add(a, c), b)
  {
    AddAssociates(a, b, c);
    AddCommutes(b, c);
    AddAssociates(a, c, b);
  }

  lemma AddExchanges(a: byte, b: byte, c: byte, d: byte)
    ensures Add(Add(a, b), Add(c, d)) == Add(Add(a, c), Add(b, d))
  {
    AddAssociates(Add(a, b), c, d);
    AddSwaps(a, b, c);
    AddAssociates(Add(a, c), b, d);
  }

  lemma DropRight(p: byte, q: byte, z: byte)
    ensures Add(Add(p, z), Add(q, z)) == Add(p, q)
  {
    AddAssociates(Add(p, z), q, z);
    AddSwaps(p, z, q);
    AddCancels(Add(p, q), z);
  }

  lemma DropMiddle(a: byte, b: byte, c: byte)
    ensures Add(Add(a, b), Add(b, c)) == Add(a, c)
  {
    AddCommutes(b, c);
    DropRight(a, c, b);
  }

  lemma SumRotates(a: byte, b: byte, c: byte, d: byte)
    ensures Sum(b, c, d, a) == Sum(a, b, c, d)
  {
    AddCommutes(Add(Add(b, c), d), a);
    AddAssociates(a, b, c);
    AddAssociates(a, Add(b, c), d);
  }

  /** One mixed byte in terms of the column sum. */
  function MixedByte(a: byte, b: byte, s: byte): byte {
    Add(Xtime(Add(a, b)), Add(a, s))
  }

  lemma FirstRow(a: byte, b: byte, c: byte, d: byte)
    ensures Sum(Xtime(a), Mul3(b), c, d) == MixedByte(a, b, Sum(a, b, c, d))
  {
    var y, rest := Add(Xtime(a), Xtime(b)), Add(Add(b, c), d);
    XtimeLinear(a, b);
    AddAssociates(Xtime(a), Xtime(b), b);
    AddAssociates(y, b, c);
    AddAssociates(y, Add(b, c), d);
    AddAssociates(a, b, c);
    AddAssociates(a, Add(b, c), d);
    AddCommutes(a, Sum(a, b, c, d));
    AddCommutes(a, rest);
    AddCancels(rest, a);
  }

  lemma MixColumnForm(a: Column)
    ensures var s := Sum(a.a0, a.a1, a.a2, a.a3);
            MixColumn(a) == Column(MixedByte(a.a0, a.a1, s), MixedByte(a.a1, a.a2, s),
                                   MixedByte(a.a2, a.a3, s), MixedByte(a.a3, a.a0, s))
  {
    var Column(a0, a1, a2, a3) := a;
    SumRotates(a0, a1, a2, a3);
    SumRotates(a1, a2, a3, a0);
    SumRotates(a2, a3, a0, a1);
    FirstRow(a0, a1, a2, a3);
    FirstRow(a1, a2, a3, a0);
    FirstRow(a2, a3, a0, a1);
    FirstRow(a3, a0, a1, a2);
    SumRotates(a0, Xtime(a1), Mul3(a2), a3);
    SumRotates(a0, a1, Xtime(a2), Mul3(a3));
    SumRotates(a1, Xtime(a2), Mul3(a3), a0);
    SumRotates(Xtime(a3), Mul3(a0), a1, a2);
  }

  lemma MixedPair(a: byte, b: byte, c: byte, s: byte)
    ensures Add(MixedByte(a, b, s), MixedByte(b, c, s)) == Add(Xtime(Add(a, c)), Add(a, b))
  {
    AddExchanges(Xtime(Add(a, b)), Add(a, s), Xtime(Add(b, c)), Add(b, s));
    XtimeLinear(Add(a, b), Add(b, c));
    DropMiddle(a, b, c);
    DropRight(a, b, s);
  }

  lemma MixedTriple(a0: byte, a1: byte, a2: byte, a3: byte, s: byte)
    requires s == Sum(a0, a1, a2, a3)
    ensures Add(Add(Xtime(Add(a1, a3)), Add(a1, a2)), MixedByte(a3, a0, s)) == Add(Xtime(Add(a0, a1)), a0)
  {
    AddExchanges(Xtime(Add(a1, a3)), Add(a1, a2), Xtime(Add(a3, a0)), Add(a3, s));
    XtimeLinear(Add(a1, a3), Add(a3, a0));
    DropMiddle(a1, a3, a0);
    AddCommutes(a1, a0);
    AddCommutes(a3, s);
    AddCancels(Add(Add(a0, a1), a2), a3);
    AddAssociates(a0, a1, a2);
    AddCommutes(Add(a1, a2), Add(a0, Add(a1, a2)));
    AddCancels(a0, Add(a1, a2));
  }

  lemma FirstRowTwice(a0: byte, a1: byte, a2: byte, a3: byte, s: byte)
    requires s == Sum(a0, a1, a2, a3)
    ensures Sum(Xtime(MixedByte(a0, a1, s)), Mul3(MixedByte(a1, a2, s)), MixedByte(a2, a3, s), MixedByte(a3, a0, s))
            == Add(Xtime(Xtime(Add(a0, a2))), a0)
  {
    var b0, b1, b2, b3 := MixedByte(a0, a1, s), MixedByte(a1, a2, s), MixedByte(a2, a3, s), MixedByte(a3, a0, s);
    XtimeLinear(b0, b1);
    AddAssociates(Xtime(b0), Xtime(b1), b1);
    AddAssociates(Xtime(Add(b0, b1)), b1, b2);
    AddAssociates(Xtime(Add(b0, b1)), Add(b1, b2), b3);
    MixedPair(a0, a1, a2, s);
    XtimeLinear(Xtime(Add(a0, a2)), Add(a0, a1));
    MixedPair(a1, a2, a3, s);
    MixedTriple(a0, a1, a2, a3, s);
    DropMiddle(Xtime(Xtime(Add(a0, a2))), Xtime(Add(a0, a1)), a0);
  }

  /** Applied twice, the matrix only mixes opposite bytes. */
  lemma MixColumnTwice(a: Column)
    ensures MixColumn(MixColumn(a)) ==
            Column(Add(Xtime(Xtime(Add(a.a0, a.a2))), a.a0), Add(Xtime(Xtime(Add(a.a1, a.a3))), a.a1),
                   Add(Xtime(Xtime(Add(a.a2, a.a0))), a.a2), Add(Xtime(Xtime(Add(a.a3, a.a1))), a.a3))
  {
    var Column(a0, a1, a2, a3) := a;
    var s := Sum(a0, a1, a2, a3);
    var b := MixColumn(a);
    MixColumnForm(a);
    SumRotates(a0, a1, a2, a3);
    SumRotates(a1, a2, a3, a0);
    SumRotates(a2, a3, a0, a1);
    FirstRowTwice(a0, a1, a2, a3, s);
    FirstRowTwice(a1, a2, a3, a0, s);
    FirstRowTwice(a2, a3, a0, a1, s);
    FirstRowTwice(a3, a0, a1, a2, s);
    SumRotates(b.a0, Xtime(b.a1), Mul3(b.a2), b.a3);
    SumRotates(b.a0, b.a1, Xtime(b.a2), Mul3(b.a3));
    SumRotates(b.a1, Xtime(b.a2), Mul3(b.a3), b.a0);
    SumRotates(Xtime(b.a3), Mul3(b.a0), b.a1, b.a2);
  }

  lemma FoldTwice(a: byte, c: byte)
    ensures var a', c' := Add(Xtime(Xtime(Add(a, c))), a), Add(Xtime(Xtime(Add(c, a))), c);
            Add(Xtime(Xtime(Add(a', c'))), a') == a
  {
    var q := Xtime(Xtime(Add(a, c)));
    AddCommutes(a, c);
    AddCommutes(q, a);
    AddCommutes(q, c);
    DropRight(a, c, q);
    AddCommutes(q, Add(a, q));
    AddCancels(a, q);
  }

  lemma MixColumnFourTimes(a: Column)
    ensures InvMixColumn(MixColumn(a)) == a
  {
    MixColumnTwice(a);
    MixColumnTwice(MixColumn(MixColumn(a)));
    FoldTwice(a.a0, a.a2);
    FoldTwice(a.a1, a.a3);
    FoldTwice(a.a2, a.a0);
    FoldTwice(a.a3, a.a1);
  }

  function ColumnOf(b: Block, c: nat): Column
    requires c < 4
  {
    Column(b[4 * c], b[4 * c + 1], b[4 * c + 2], b[4 * c + 3])
  }

  function ColumnByte(a: Column, r: nat): byte
    requires r < 4
  {
    if r == 0 then a.a0 else if r == 1 then a.a1 else if r == 2 then a.a2 else a.a3
  }

  /** Applies f to each of the four columns of a block. */
  function MapColumns(f: Column -> Column, b: Block): (r: Block) {
    seq(16, i requires 0 <= i < 16 => ColumnByte(f(ColumnOf(b, i / 4)), i % 4))
  }

  lemma MapColumnsAt(f: Column -> Column, b: Block, c: nat)
    requires c < 4
    ensures ColumnOf(MapColumns(f, b), c) == f(ColumnOf(b, c))
  {
    var i := 4 * c;
    assert i / 4 == (i + 1) / 4 == (i + 2) / 4 == (i + 3) / 4 == c;
    assert i % 4 == 0 && (i + 1) % 4 == 1 && (i + 2) % 4 == 2 && (i + 3) % 4 == 3;
  }

  lemma ColumnsDetermineBlock(a: Block, b: Block)
    requires forall c: nat :: c < 4 ==> ColumnOf(a, c) == ColumnOf(b, c)
    ensures a == b
  {
    forall i | 0 <= i < 16 ensures a[i] == b[i] {
      assert ColumnOf(a, i / 4) == ColumnOf(b, i / 4);
    }
  }

  function MixColumns(b: Block): (r: Block) {
    MapColumns(MixColumn, b)
  }

  function InvMixColumns(b: Block): (r: Block) {
    MapColumns(InvMixColumn, b)
  }

  lemma InvMixColumnsInverts(b: Block)
    ensures InvMixColumns(MixColumns(b)) == b
  {
    forall c: nat | c < 4 ensures ColumnOf(InvMixColumns(MixColumns(b)), c) == ColumnOf(b, c) {
      MapColumnsAt(MixColumn, b, c);
      MapColumnsAt(InvMixColumn, MixColumns(b), c);
      MixColumnFourTimes(ColumnOf(b, c));
    }
    ColumnsDetermineBlock(InvMixColumns(MixColumns(b)), b);
  }

  // ---- The round ----

  function Round(b: Block): (r: Block) {
    MixColumns(ShiftRows(SubBytes(b)))
  }

  function InvRound(b: Block): (r: Block) {
    InvSubBytes(InvShiftRows(InvMixColumns(b)))
  }

  lemma InvRoundInverts(b: Block)
    ensures InvRound(Round(b)) == b
  {
    InvSubBytesInverts(b);
    InvShiftRowsInverts(SubBytes(b));
    InvMixColumnsInverts(ShiftRows(SubBytes(b)));
  }

  /** The keyless round loses nothing: two blocks with the same image are the same block. */
  lemma RoundInjective(a: Block, b: Block)
    ensures Round(a) == Round(b) <==> a == b
  {
    InvRoundInverts(a);
    InvRoundInverts(b);
  }

  // ---- In-place form ----

  method SubBytesInPlace(block: array<byte>)
    requires block.Length == 16
    modifies block
    ensures block[..] == SubBytes(old(block[..]))
  {
    ghost var was := block[..];
    for i := 0 to 16
      invariant block[..i] == SubBytes(was)[..i] && block[i..] == was[i..]
    {
      block[i] := Sbox(block[i]);
    }
  }

  method ShiftRowsInPlace(block: array<byte>)
    requires block.Length == 16
    modifies block
    ensures block[..] == ShiftRows(old(block[..]))
  {
    ghost var was := block[..];
    ShiftRowsTables();
    var tmp := new byte[16];
    for i := 0 to 16
      invariant block[..] == was
      invariant forall k :: 0 <= k < i ==> tmp[k] == was[SR_PERM[k]]
    {
      tmp[i] := block[SR_PERM[i]];
    }
    for i := 0 to 16
      invariant tmp[..] == ShiftRows(was)
      invariant forall k :: 0 <= k < i ==> block[k] == tmp[k]
    {
      block[i] := tmp[i];
    }
  }

  method MixOneColumn(block: array<byte>, c: nat)
    requires block.Length == 16 && c < 4
    modifies block
    ensures ColumnOf(block[..], c) == MixColumn(ColumnOf(old(block[..]), c))
    ensures block[..4 * c] == old(block[..4 * c]) && block[4 * c + 4..] == old(block[4 * c + 4..])
  {
    var i := 4 * c;
    var a0, a1, a2, a3 := block[i], block[i + 1], block[i + 2], block[i + 3];
    block[i] := Sum(Xtime(a0), Mul3(a1), a2, a3);
    block[i + 1] := Sum(a0, Xtime(a1), Mul3(a2), a3);
    block[i + 2] := Sum(a0, a1, Xtime(a2), Mul3(a3));
    block[i + 3] := Sum(Mul3(a0), a1, a2, Xtime(a3));
  }

  lemma ExtendByColumn(a: Block, b: Block, c: nat)
    requires c < 4
    requires a[..4 * c] == b[..4 * c] && ColumnOf(a, c) == ColumnOf(b, c)
    ensures a[..4 * c + 4] == b[..4 * c + 4]
  {
    forall i | 0 <= i < 4 * c ensures a[i] == b[i] {
      assert a[..4 * c][i] == b[..4 * c][i];
    }
  }

  method MixColumnsInPlace(block: array<byte>)
    requires block.Length == 16
    modifies block
    ensures block[..] == MixColumns(old(block[..]))
  {
    ghost var was, mixed := block[..], MixColumns(block[..]);
    for c := 0 to 4
      invariant block[..][..4 * c] == mixed[..4 * c]
      invariant block[..][4 * c..] == was[4 * c..]
    {
      ghost var before := block[..];
      assert ColumnOf(before, c) == ColumnOf(was, c) by {
        assert forall k :: 4 * c <= k < 16 ==> before[k] == before[4 * c..][k - 4 * c];
      }
      MapColumnsAt(MixColumn, was, c);
      MixOneColumn(block, c);
      assert block[..][..4 * c] == before[..4 * c];
      ExtendByColumn(block[..], mixed, c);
      assert block[..][4 * c + 4..] == before[4 * c + 4..] == before[4 * c..][4..] == was[4 * c..][4..] == was[4 * c + 4..];
    }
    assert block[..][..16] == block[..];
  }

  method RoundInPlace(block: array<byte>)
    requires block.Length == 16
    modifies block
    ensures block[..] == Round(old(block[..]))
  {
    SubBytesInPlace(block);
    ShiftRowsInPlace(block);
    MixColumnsInPlace(block);
  }
}
