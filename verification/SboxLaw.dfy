/** The substitution table as section 5.1.1 of FIPS 197 defines it: inversion in the field, then an affine map. */
module SboxLaw {
  import opened Bytes
  import opened Gf256
  import opened AesTables

  /** Bit i of the result is the sum of bits i, i + 4, i + 5, i + 6 and i + 7 of `b`, modulo 8, and bit i of 0x63. */
  function AffineMap(b: byte): byte {
    b ^ ((b << 1) | (b >> 7)) ^ ((b << 2) | (b >> 6)) ^ ((b << 3) | (b >> 5)) ^ ((b << 4) | (b >> 4)) ^ 0x63
  }

  function UnAffineMap(b: byte): byte {
    ((b << 1) | (b >> 7)) ^ ((b << 3) | (b >> 5)) ^ ((b << 6) | (b >> 2)) ^ 0x05
  }

  lemma AffineMapUndone(b: byte)
    ensures AffineMap(UnAffineMap(b)) == b
  {
  }

  /** The byte that the table maps to its image by way of the affine map. */
  function TableInverse(b: byte): byte {
    UnAffineMap(Sbox(b))
  }

  function Term(a: byte, b: byte, mask: byte): byte {
    if b & mask != 0 then a else 0
  }

  /** Eight terms added up from the right. */
  function Chain(t0: byte, t1: byte, t2: byte, t3: byte, t4: byte, t5: byte, t6: byte, t7: byte): byte {
    Xor(t0, Xor(t1, Xor(t2, Xor(t3, Xor(t4, Xor(t5, Xor(t6, Xor(t7, 0))))))))
  }

  /** The product in closed form, over the bits of `b`. */
  function FlatProduct(a: byte, b: byte): byte {
    var a1 := Xtime(a);
    var a2 := Xtime(a1);
    var a3 := Xtime(a2);
    var a4 := Xtime(a3);
    var a5 := Xtime(a4);
    var a6 := Xtime(a5);
    var a7 := Xtime(a6);
    Chain(Term(a, b, 0x01), Term(a1, b, 0x02), Term(a2, b, 0x04), Term(a3, b, 0x08),
          Term(a4, b, 0x10), Term(a5, b, 0x20), Term(a6, b, 0x40), Term(a7, b, 0x80))
  }

  /** `b` shifted right `k` times. */
  function Halved(b: byte, k: nat): byte {
    if k == 0 then b else Half(Halved(b, k - 1))
  }

  function Doubled(a: byte, k: nat): byte {
    if k == 0 then a else Xtime(Doubled(a, k - 1))
  }

  lemma ProductStep(a: byte, b: byte, k: nat)
    requires k < 8
    ensures Product(Doubled(a, k), Halved(b, k), 8 - k)
         == Xor(LowTerm(Doubled(a, k), Halved(b, k)), Product(Doubled(a, k + 1), Halved(b, k + 1), 7 - k))
  {
    hide Xtime, Half, LowTerm, Xor;
  }

  lemma TermsOfBits(a: byte, b: byte)
    ensures LowTerm(a, b) == Term(a, b, 0x01) && LowTerm(a, b >> 1) == Term(a, b, 0x02)
    ensures LowTerm(a, b >> 1 >> 1) == Term(a, b, 0x04) && LowTerm(a, b >> 1 >> 1 >> 1) == Term(a, b, 0x08)
    ensures LowTerm(a, b >> 1 >> 1 >> 1 >> 1) == Term(a, b, 0x10)
    ensures LowTerm(a, b >> 1 >> 1 >> 1 >> 1 >> 1) == Term(a, b, 0x20)
    ensures LowTerm(a, b >> 1 >> 1 >> 1 >> 1 >> 1 >> 1) == Term(a, b, 0x40)
    ensures LowTerm(a, b >> 1 >> 1 >> 1 >> 1 >> 1 >> 1 >> 1) == Term(a, b, 0x80)
  {
  }

  lemma HalvedIs(b: byte)
    ensures Halved(b, 0) == b && Halved(b, 1) == b >> 1 && Halved(b, 2) == b >> 1 >> 1
    ensures Halved(b, 3) == b >> 1 >> 1 >> 1 && Halved(b, 4) == b >> 1 >> 1 >> 1 >> 1
    ensures Halved(b, 5) == b >> 1 >> 1 >> 1 >> 1 >> 1 && Halved(b, 6) == b >> 1 >> 1 >> 1 >> 1 >> 1 >> 1
    ensures Halved(b, 7) == b >> 1 >> 1 >> 1 >> 1 >> 1 >> 1 >> 1
  {
    assert Halved(b, 1) == Half(Halved(b, 0));
    assert Halved(b, 2) == Half(Halved(b, 1));
    assert Halved(b, 3) == Half(Halved(b, 2));
    assert Halved(b, 4) == Half(Halved(b, 3));
    assert Halved(b, 5) == Half(Halved(b, 4));
    assert Halved(b, 6) == Half(Halved(b, 5));
    assert Halved(b, 7) == Half(Halved(b, 6));
  }

  lemma NothingProduct(a: byte, b: byte)
    ensures Product(a, b, 0) == 0
  {
  }

  lemma DoubledIs(a: byte)
    ensures Doubled(a, 0) == a
    ensures Doubled(a, 1) == Xtime(Doubled(a, 0)) && Doubled(a, 2) == Xtime(Doubled(a, 1))
    ensures Doubled(a, 3) == Xtime(Doubled(a, 2)) && Doubled(a, 4) == Xtime(Doubled(a, 3))
    ensures Doubled(a, 5) == Xtime(Doubled(a, 4)) && Doubled(a, 6) == Xtime(Doubled(a, 5))
    ensures Doubled(a, 7) == Xtime(Doubled(a, 6))
  {
    hide Xtime;
  }

  function BitTerm(a: byte, b: byte, k: nat): byte {
    LowTerm(Doubled(a, k), Halved(b, k))
  }

  lemma MulIsChain(a: byte, b: byte)
    ensures Mul(a, b) == Chain(BitTerm(a, b, 0), BitTerm(a, b, 1), BitTerm(a, b, 2), BitTerm(a, b, 3),
                               BitTerm(a, b, 4), BitTerm(a, b, 5), BitTerm(a, b, 6), BitTerm(a, b, 7))
  {
    assert Doubled(a, 0) == a && Halved(b, 0) == b;
    hide Xtime, Half, LowTerm, Xor, Product, Halved, Doubled;
    ProductStep(a, b, 0);
    ProductStep(a, b, 1);
    ProductStep(a, b, 2);
    ProductStep(a, b, 3);
    ProductStep(a, b, 4);
    ProductStep(a, b, 5);
    ProductStep(a, b, 6);
    ProductStep(a, b, 7);
    NothingProduct(Doubled(a, 8), Halved(b, 8));
  }

  lemma BitTermsAre(a: byte, b: byte)
    ensures BitTerm(a, b, 0) == Term(Doubled(a, 0), b, 0x01) && BitTerm(a, b, 1) == Term(Doubled(a, 1), b, 0x02)
    ensures BitTerm(a, b, 2) == Term(Doubled(a, 2), b, 0x04) && BitTerm(a, b, 3) == Term(Doubled(a, 3), b, 0x08)
    ensures BitTerm(a, b, 4) == Term(Doubled(a, 4), b, 0x10) && BitTerm(a, b, 5) == Term(Doubled(a, 5), b, 0x20)
    ensures BitTerm(a, b, 6) == Term(Doubled(a, 6), b, 0x40) && BitTerm(a, b, 7) == Term(Doubled(a, 7), b, 0x80)
  {
    hide LowTerm, Term, Doubled, Halved;
    HalvedIs(b);
    TermsOfBits(Doubled(a, 0), b);
    TermsOfBits(Doubled(a, 1), b);
    TermsOfBits(Doubled(a, 2), b);
    TermsOfBits(Doubled(a, 3), b);
    TermsOfBits(Doubled(a, 4), b);
    TermsOfBits(Doubled(a, 5), b);
    TermsOfBits(Doubled(a, 6), b);
    TermsOfBits(Doubled(a, 7), b);
  }

  lemma FlatIsChain(a: byte, b: byte)
    ensures FlatProduct(a, b)
         == Chain(Term(Doubled(a, 0), b, 0x01), Term(Doubled(a, 1), b, 0x02), Term(Doubled(a, 2), b, 0x04),
                  Term(Doubled(a, 3), b, 0x08), Term(Doubled(a, 4), b, 0x10), Term(Doubled(a, 5), b, 0x20),
                  Term(Doubled(a, 6), b, 0x40), Term(Doubled(a, 7), b, 0x80))
  {
    hide Xtime, Term, Doubled, Chain;
    DoubledIs(a);
  }

  /** The recursive product is the closed form. */
  lemma MulIsFlat(a: byte, b: byte)
    ensures Mul(a, b) == FlatProduct(a, b)
  {
    hide Mul, FlatProduct, Chain, BitTerm, Term, Doubled;
    MulIsChain(a, b);
    BitTermsAre(a, b);
    FlatIsChain(a, b);
  }

  // ----- the products, row by row of the table

  lemma Row0(b: byte, s: byte, y: byte)
    requires 0x01 <= b < 0x10
    requires s == Pick(b & 0xf, 0x63, 0x7c, 0x77, 0x7b, 0xf2, 0x6b, 0x6f, 0xc5,
                       0x30, 0x01, 0x67, 0x2b, 0xfe, 0xd7, 0xab, 0x76)
    requires y == UnAffineMap(s)
    ensures FlatProduct(b, y) == 1
  {
  }

  lemma Row1(b: byte, s: byte, y: byte)
    requires 0x10 <= b < 0x20
    requires s == Pick(b & 0xf, 0xca, 0x82, 0xc9, 0x7d, 0xfa, 0x59, 0x47, 0xf0,
                       0xad, 0xd4, 0xa2, 0xaf, 0x9c, 0xa4, 0x72, 0xc0)
    requires y == UnAffineMap(s)
    ensures FlatProduct(b, y) == 1
  {
  }

  lemma Row2(b: byte, s: byte, y: byte)
    requires 0x20 <= b < 0x30
    requires s == Pick(b & 0xf, 0xb7, 0xfd, 0x93, 0x26, 0x36, 0x3f, 0xf7, 0xcc,
                       0x34, 0xa5, 0xe5, 0xf1, 0x71, 0xd8, 0x31, 0x15)
    requires y == UnAffineMap(s)
    ensures FlatProduct(b, y) == 1
  {
  }

  lemma Row3(b: byte, s: byte, y: byte)
    requires 0x30 <= b < 0x40
    requires s == Pick(b & 0xf, 0x04, 0xc7, 0x23, 0xc3, 0x18, 0x96, 0x05, 0x9a,
                       0x07, 0x12, 0x80, 0xe2, 0xeb, 0x27, 0xb2, 0x75)
    requires y == UnAffineMap(s)
    ensures FlatProduct(b, y) == 1
  {
  }

  lemma Row4(b: byte, s: byte, y: byte)
    requires 0x40 <= b < 0x50
    requires s == Pick(b & 0xf, 0x09, 0x83, 0x2c, 0x1a, 0x1b, 0x6e, 0x5a, 0xa0,
                       0x52, 0x3b, 0xd6, 0xb3, 0x29, 0xe3, 0x2f, 0x84)
    requires y == UnAffineMap(s)
    ensures FlatProduct(b, y) == 1
  {
  }

  lemma Row5(b: byte, s: byte, y: byte)
    requires 0x50 <= b < 0x60
    requires s == Pick(b & 0xf, 0x53, 0xd1, 0x00, 0xed, 0x20, 0xfc, 0xb1, 0x5b,
                       0x6a, 0xcb, 0xbe, 0x39, 0x4a, 0x4c, 0x58, 0xcf)
    requires y == UnAffineMap(s)
    ensures FlatProduct(b, y) == 1
  {
  }

  lemma Row6(b: byte, s: byte, y: byte)
    requires 0x60 <= b < 0x70
    requires s == Pick(b & 0xf, 0xd0, 0xef, 0xaa, 0xfb, 0x43, 0x4d, 0x33, 0x85,
                       0x45, 0xf9, 0x02, 0x7f, 0x50, 0x3c, 0x9f, 0xa8)
    requires y == UnAffineMap(s)
    ensures FlatProduct(b, y) == 1
  {
  }

  lemma Row7(b: byte, s: byte, y: byte)
    requires 0x70 <= b < 0x80
    requires s == Pick(b & 0xf, 0x51, 0xa3, 0x40, 0x8f, 0x92, 0x9d, 0x38, 0xf5,
                       0xbc, 0xb6, 0xda, 0x21, 0x10, 0xff, 0xf3, 0xd2)
    requires y == UnAffineMap(s)
    ensures FlatProduct(b, y) == 1
  {
  }

  lemma Row8(b: byte, s: byte, y: byte)
    requires 0x80 <= b < 0x90
    requires s == Pick(b & 0xf, 0xcd, 0x0c, 0x13, 0xec, 0x5f, 0x97, 0x44, 0x17,
                       0xc4, 0xa7, 0x7e, 0x3d, 0x64, 0x5d, 0x19, 0x73)
    requires y == UnAffineMap(s)
    ensures FlatProduct(b, y) == 1
  {
  }

  lemma Row9(b: byte, s: byte, y: byte)
    requires 0x90 <= b < 0xa0
    requires s == Pick(b & 0xf, 0x60, 0x81, 0x4f, 0xdc, 0x22, 0x2a, 0x90, 0x88,
                       0x46, 0xee, 0xb8, 0x14, 0xde, 0x5e, 0x0b, 0xdb)
    requires y == UnAffineMap(s)
    ensures FlatProduct(b, y) == 1
  {
  }

  lemma RowA(b: byte, s: byte, y: byte)
    requires 0xa0 <= b < 0xb0
    requires s == Pick(b & 0xf, 0xe0, 0x32, 0x3a, 0x0a, 0x49, 0x06, 0x24, 0x5c,
                       0xc2, 0xd3, 0xac, 0x62, 0x91, 0x95, 0xe4, 0x79)
    requires y == UnAffineMap(s)
    ensures FlatProduct(b, y) == 1
  {
  }

  lemma RowB(b: byte, s: byte, y: byte)
    requires 0xb0 <= b < 0xc0
    requires s == Pick(b & 0xf, 0xe7, 0xc8, 0x37, 0x6d, 0x8d, 0xd5, 0x4e, 0xa9,
                       0x6c, 0x56, 0xf4, 0xea, 0x65, 0x7a, 0xae, 0x08)
    requires y == UnAffineMap(s)
    ensures FlatProduct(b, y) == 1
  {
  }

  lemma RowC(b: byte, s: byte, y: byte)
    requires 0xc0 <= b < 0xd0
    requires s == Pick(b & 0xf, 0xba, 0x78, 0x25, 0x2e, 0x1c, 0xa6, 0xb4, 0xc6,
                       0xe8, 0xdd, 0x74, 0x1f, 0x4b, 0xbd, 0x8b, 0x8a)
    requires y == UnAffineMap(s)
    ensures FlatProduct(b, y) == 1
  {
  }

  lemma RowD(b: byte, s: byte, y: byte)
    requires 0xd0 <= b < 0xe0
    requires s == Pick(b & 0xf, 0x70, 0x3e, 0xb5, 0x66, 0x48, 0x03, 0xf6, 0x0e,
                       0x61, 0x35, 0x57, 0xb9, 0x86, 0xc1, 0x1d, 0x9e)
    requires y == UnAffineMap(s)
    ensures FlatProduct(b, y) == 1
  {
  }

  lemma RowE(b: byte, s: byte, y: byte)
    requires 0xe0 <= b < 0xf0
    requires s == Pick(b & 0xf, 0xe1, 0xf8, 0x98, 0x11, 0x69, 0xd9, 0x8e, 0x94,
                       0x9b, 0x1e, 0x87, 0xe9, 0xce, 0x55, 0x28, 0xdf)
    requires y == UnAffineMap(s)
    ensures FlatProduct(b, y) == 1
  {
  }

  lemma RowF(b: byte, s: byte, y: byte)
    requires 0xf0 <= b
    requires s == Pick(b & 0xf, 0x8c, 0xa1, 0x89, 0x0d, 0xbf, 0xe6, 0x42, 0x68,
                       0x41, 0x99, 0x2d, 0x0f, 0xb0, 0x54, 0xbb, 0x16)
    requires y == UnAffineMap(s)
    ensures FlatProduct(b, y) == 1
  {
  }

  lemma TableProduct(b: byte)
    requires b != 0
    ensures FlatProduct(b, TableInverse(b)) == 1
  {
    hide UnAffineMap, FlatProduct;
    var s := Sbox(b);
    var y := UnAffineMap(s);
    if b < 0x10 {
      Row0(b, s, y);
    } else if b < 0x20 {
      Row1(b, s, y);
    } else if b < 0x30 {
      Row2(b, s, y);
    } else if b < 0x40 {
      Row3(b, s, y);
    } else if b < 0x50 {
      Row4(b, s, y);
    } else if b < 0x60 {
      Row5(b, s, y);
    } else if b < 0x70 {
      Row6(b, s, y);
    } else if b < 0x80 {
      Row7(b, s, y);
    } else if b < 0x90 {
      Row8(b, s, y);
    } else if b < 0xa0 {
      Row9(b, s, y);
    } else if b < 0xb0 {
      RowA(b, s, y);
    } else if b < 0xc0 {
      RowB(b, s, y);
    } else if b < 0xd0 {
      RowC(b, s, y);
    } else if b < 0xe0 {
      RowD(b, s, y);
    } else if b < 0xf0 {
      RowE(b, s, y);
    } else {
      RowF(b, s, y);
    }
  }

  lemma TableInverseOfZero()
    ensures TableInverse(0) == 0
  {
  }

  /**
   Every entry of the table is the affine map of the inverse of its index in the field: of the byte
   whose product with the index is 1, or of 0 for index 0.
   */
  lemma SboxIsAffineInverse(b: byte) returns (inverse: byte)
    ensures if b == 0 then inverse == 0 else Mul(b, inverse) == 1
    ensures Sbox(b) == AffineMap(inverse)
  {
    hide Sbox, AffineMap, UnAffineMap, FlatProduct, Mul;
    inverse := TableInverse(b);
    AffineMapUndone(Sbox(b));
    MulIsFlat(b, inverse);
    if b == 0 {
      TableInverseOfZero();
    } else {
      TableProduct(b);
    }
  }
}
