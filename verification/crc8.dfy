/**
 * CRC8 of the frame codec (master/src/pmlin-master.c:81-102, identical
 * table in slave/src/pmlin-slave.c:69-90): `crc8(c, b) = T[c ^ b]`,
 * folded over a byte string from the seed 0xC5. The table tabulates the
 * remainder of long division by the generator x^8 + x^5 + x^4 + 1 (0x131);
 * the model defines a CRC step by that division and proves that it agrees
 * with the table at every index.
 */
module Crc {
  import opened Protocol

  /** The 256-entry lookup table, as sixteen rows of sixteen entries. */
  const TableRows: seq<seq<byte>> := [
    [0x00, 0x31, 0x62, 0x53, 0xc4, 0xf5, 0xa6, 0x97, 0xb9, 0x88, 0xdb, 0xea, 0x7d, 0x4c, 0x1f, 0x2e],
    [0x43, 0x72, 0x21, 0x10, 0x87, 0xb6, 0xe5, 0xd4, 0xfa, 0xcb, 0x98, 0xa9, 0x3e, 0x0f, 0x5c, 0x6d],
    [0x86, 0xb7, 0xe4, 0xd5, 0x42, 0x73, 0x20, 0x11, 0x3f, 0x0e, 0x5d, 0x6c, 0xfb, 0xca, 0x99, 0xa8],
    [0xc5, 0xf4, 0xa7, 0x96, 0x01, 0x30, 0x63, 0x52, 0x7c, 0x4d, 0x1e, 0x2f, 0xb8, 0x89, 0xda, 0xeb],
    [0x3d, 0x0c, 0x5f, 0x6e, 0xf9, 0xc8, 0x9b, 0xaa, 0x84, 0xb5, 0xe6, 0xd7, 0x40, 0x71, 0x22, 0x13],
    [0x7e, 0x4f, 0x1c, 0x2d, 0xba, 0x8b, 0xd8, 0xe9, 0xc7, 0xf6, 0xa5, 0x94, 0x03, 0x32, 0x61, 0x50],
    [0xbb, 0x8a, 0xd9, 0xe8, 0x7f, 0x4e, 0x1d, 0x2c, 0x02, 0x33, 0x60, 0x51, 0xc6, 0xf7, 0xa4, 0x95],
    [0xf8, 0xc9, 0x9a, 0xab, 0x3c, 0x0d, 0x5e, 0x6f, 0x41, 0x70, 0x23, 0x12, 0x85, 0xb4, 0xe7, 0xd6],
    [0x7a, 0x4b, 0x18, 0x29, 0xbe, 0x8f, 0xdc, 0xed, 0xc3, 0xf2, 0xa1, 0x90, 0x07, 0x36, 0x65, 0x54],
    [0x39, 0x08, 0x5b, 0x6a, 0xfd, 0xcc, 0x9f, 0xae, 0x80, 0xb1, 0xe2, 0xd3, 0x44, 0x75, 0x26, 0x17],
    [0xfc, 0xcd, 0x9e, 0xaf, 0x38, 0x09, 0x5a, 0x6b, 0x45, 0x74, 0x27, 0x16, 0x81, 0xb0, 0xe3, 0xd2],
    [0xbf, 0x8e, 0xdd, 0xec, 0x7b, 0x4a, 0x19, 0x28, 0x06, 0x37, 0x64, 0x55, 0xc2, 0xf3, 0xa0, 0x91],
    [0x47, 0x76, 0x25, 0x14, 0x83, 0xb2, 0xe1, 0xd0, 0xfe, 0xcf, 0x9c, 0xad, 0x3a, 0x0b, 0x58, 0x69],
    [0x04, 0x35, 0x66, 0x57, 0xc0, 0xf1, 0xa2, 0x93, 0xbd, 0x8c, 0xdf, 0xee, 0x79, 0x48, 0x1b, 0x2a],
    [0xc1, 0xf0, 0xa3, 0x92, 0x05, 0x34, 0x67, 0x56, 0x78, 0x49, 0x1a, 0x2b, 0xbc, 0x8d, 0xde, 0xef],
    [0x82, 0xb3, 0xe0, 0xd1, 0x46, 0x77, 0x24, 0x15, 0x3b, 0x0a, 0x59, 0x68, 0xff, 0xce, 0x9d, 0xac]
  ]

  lemma TableShape()
    ensures |TableRows| == 16 && forall r | 0 <= r < 16 :: |TableRows[r]| == 16
  {
  }

  /** Table entry `i`: row `i >> 4`, column `i & 0xF`. */
  function Table(i: byte): byte {
    TableShape();
    TableRows[(i >> 4) as int][(i & 0xF) as int]
  }

  /** One bit of long division: shift left, subtract the generator when a one falls off. */
  function DivStep(x: byte): byte {
    if x & 0x80 != 0 then (x << 1) ^ 0x31 else x << 1
  }

  /** `k` bits of long division of `x`. */
  function Divide(x: byte, k: nat): byte
    decreases k
  {
    if k == 0 then x else DivStep(Divide(x, k - 1))
  }

  /** Eight bits of long division, spelled out. */
  function Remainder(x: byte): byte {
    DivStep(DivStep(DivStep(DivStep(DivStep(DivStep(DivStep(DivStep(x))))))))
  }

  /** One step of the rolling CRC: divide the running CRC xor the new byte. */
  function Crc8(crc: byte, data: byte): byte {
    Divide(crc ^ data, 8)
  }

  /** The running CRC after feeding `bytes` in order, starting from `crc`. */
  function Fold(crc: byte, bytes: seq<byte>): byte
    decreases |bytes|
  {
    if |bytes| == 0 then crc
    else Crc8(Fold(crc, bytes[..|bytes| - 1]), bytes[|bytes| - 1])
  }

  lemma TableRow0() ensures forall i: byte | 0x00 <= i <= 0x0f :: Table(i) == Remainder(i) {}
  lemma TableRow1() ensures forall i: byte | 0x10 <= i <= 0x1f :: Table(i) == Remainder(i) {}
  lemma TableRow2() ensures forall i: byte | 0x20 <= i <= 0x2f :: Table(i) == Remainder(i) {}
  lemma TableRow3() ensures forall i: byte | 0x30 <= i <= 0x3f :: Table(i) == Remainder(i) {}
  lemma TableRow4() ensures forall i: byte | 0x40 <= i <= 0x4f :: Table(i) == Remainder(i) {}
  lemma TableRow5() ensures forall i: byte | 0x50 <= i <= 0x5f :: Table(i) == Remainder(i) {}
  lemma TableRow6() ensures forall i: byte | 0x60 <= i <= 0x6f :: Table(i) == Remainder(i) {}
  lemma TableRow7() ensures forall i: byte | 0x70 <= i <= 0x7f :: Table(i) == Remainder(i) {}
  lemma TableRow8() ensures forall i: byte | 0x80 <= i <= 0x8f :: Table(i) == Remainder(i) {}
  lemma TableRow9() ensures forall i: byte | 0x90 <= i <= 0x9f :: Table(i) == Remainder(i) {}
  lemma TableRow10() ensures forall i: byte | 0xa0 <= i <= 0xaf :: Table(i) == Remainder(i) {}
  lemma TableRow11() ensures forall i: byte | 0xb0 <= i <= 0xbf :: Table(i) == Remainder(i) {}
  lemma TableRow12() ensures forall i: byte | 0xc0 <= i <= 0xcf :: Table(i) == Remainder(i) {}
  lemma TableRow13() ensures forall i: byte | 0xd0 <= i <= 0xdf :: Table(i) == Remainder(i) {}
  lemma TableRow14() ensures forall i: byte | 0xe0 <= i <= 0xef :: Table(i) == Remainder(i) {}
  lemma TableRow15() ensures forall i: byte | 0xf0 <= i <= 0xff :: Table(i) == Remainder(i) {}

  lemma DivideEight(x: byte)
    ensures Divide(x, 8) == Remainder(x)
  {
    assert Divide(x, 1) == DivStep(x);
    assert Divide(x, 2) == DivStep(DivStep(x));
    assert Divide(x, 3) == DivStep(Divide(x, 2));
    assert Divide(x, 4) == DivStep(Divide(x, 3));
    assert Divide(x, 5) == DivStep(Divide(x, 4));
    assert Divide(x, 6) == DivStep(Divide(x, 5));
    assert Divide(x, 7) == DivStep(Divide(x, 6));
  }

  /** The table of the source holds exactly the eight-bit remainders. */
  lemma TableIsRemainder(i: byte)
    ensures Table(i) == Remainder(i)
  {
    TableRow0(); TableRow1(); TableRow2(); TableRow3();
    TableRow4(); TableRow5(); TableRow6(); TableRow7();
    TableRow8(); TableRow9(); TableRow10(); TableRow11();
    TableRow12(); TableRow13(); TableRow14(); TableRow15();
  }

  /** A CRC step is the source's table lookup `T[crc ^ data]`. */
  lemma Crc8IsTableLookup(crc: byte, data: byte)
    ensures Crc8(crc, data) == Table(crc ^ data)
  {
    DivideEight(crc ^ data);
    TableIsRemainder(crc ^ data);
  }

  /** A division step loses no information about zero: the generator is odd. */
  lemma DivStepZeroIff(x: byte)
    ensures DivStep(x) == 0 <==> x == 0
  {
  }

  lemma {:induction false} DivideZeroIff(x: byte, k: nat)
    ensures Divide(x, k) == 0 <==> x == 0
  {
    if k > 0 {
      DivideZeroIff(x, k - 1);
      DivStepZeroIff(Divide(x, k - 1));
    }
  }

  /** A CRC step yields zero exactly when the byte equals the running CRC. */
  lemma Crc8ZeroIff(crc: byte, data: byte)
    ensures Crc8(crc, data) == 0 <==> data == crc
  {
    DivideZeroIff(crc ^ data, 8);
  }

  /** Folding a concatenation is folding the second part from the first part's CRC. */
  lemma {:induction false} FoldAppend(crc: byte, p: seq<byte>, q: seq<byte>)
    ensures Fold(crc, p + q) == Fold(Fold(crc, p), q)
    decreases |q|
  {
    if |q| == 0 {
      assert p + q == p;
    } else {
      var q' := q[..|q| - 1];
      assert (p + q)[..|p + q| - 1] == p + q';
      assert (p + q)[|p + q| - 1] == q[|q| - 1];
      FoldAppend(crc, p, q');
    }
  }

  /** Folding a byte in front is one CRC step, then the rest. */
  lemma FoldCons(crc: byte, b: byte, q: seq<byte>)
    ensures Fold(crc, [b] + q) == Fold(Crc8(crc, b), q)
  {
    FoldAppend(crc, [b], q);
    assert [b][..0] == [];
  }

  /** Folding one more byte is one more CRC step. */
  lemma FoldSnoc(crc: byte, p: seq<byte>, b: byte)
    ensures Fold(crc, p + [b]) == Crc8(Fold(crc, p), b)
  {
    assert (p + [b])[..|p + [b]| - 1] == p;
  }

  /** A payload followed by its own folded CRC always checks to zero. */
  lemma TrailerChecksToZero(crc: byte, p: seq<byte>)
    ensures Fold(crc, p + [Fold(crc, p)]) == 0
  {
    FoldSnoc(crc, p, Fold(crc, p));
    Crc8ZeroIff(Fold(crc, p), Fold(crc, p));
  }

  /** ... and it is the only trailer byte that does. */
  lemma TrailerZeroIff(crc: byte, p: seq<byte>, b: byte)
    ensures Fold(crc, p + [b]) == 0 <==> b == Fold(crc, p)
  {
    FoldSnoc(crc, p, b);
    Crc8ZeroIff(Fold(crc, p), b);
  }
}
