/**
 The column matrices of the cipher (sections 5.1.3 and 5.3.3 of FIPS 197) and the proof that
 they are inverse to each other.
 */
module MixMatrix {
  import opened Bytes
  import opened Gf256

  datatype Column = Column(a0: byte, a1: byte, a2: byte, a3: byte)

  function Sum(v: Column): byte {
    Xor(Xor(v.a0, v.a1), Xor(v.a2, v.a3))
  }

  /** The product of the row `c` with the column `v`. */
  function Dot(v: Column, c: Column): byte {
    Sum(Column(Mul(v.a0, c.a0), Mul(v.a1, c.a1), Mul(v.a2, c.a2), Mul(v.a3, c.a3)))
  }

  function Rotate(c: Column): Column {
    Column(c.a3, c.a0, c.a1, c.a2)
  }

  /** The product of `v` with the circulant matrix whose first row is `c`. */
  function Circulant(v: Column, c: Column): Column {
    Column(Dot(v, c), Dot(v, Rotate(c)), Dot(v, Rotate(Rotate(c))), Dot(v, Rotate(Rotate(Rotate(c)))))
  }

  const MIX := Column(2, 3, 1, 1)
  const INV_MIX := Column(0x0e, 0x0b, 0x0d, 0x09)

  /** The matrix of section 5.1.3 of FIPS 197. */
  function MixColumn(v: Column): Column {
    Circulant(v, MIX)
  }

  /** The matrix of section 5.3.3 of FIPS 197. */
  function InvMixColumn(v: Column): Column {
    Circulant(v, INV_MIX)
  }

  /** The sums of the rows and of the columns of a 4 x 4 table agree. */
  lemma XorTranspose(p: Column, q: Column, r: Column, s: Column)
    ensures Sum(Column(Sum(p), Sum(q), Sum(r), Sum(s)))
            == Sum(Column(Sum(Column(p.a0, q.a0, r.a0, s.a0)), Sum(Column(p.a1, q.a1, r.a1, s.a1)),
                          Sum(Column(p.a2, q.a2, r.a2, s.a2)), Sum(Column(p.a3, q.a3, r.a3, s.a3))))
  {
    hide Xor;
    var p01, p23, q01, q23 := Xor(p.a0, p.a1), Xor(p.a2, p.a3), Xor(q.a0, q.a1), Xor(q.a2, q.a3);
    var r01, r23, s01, s23 := Xor(r.a0, r.a1), Xor(r.a2, r.a3), Xor(s.a0, s.a1), Xor(s.a2, s.a3);
    XorExchange(p01, p23, q01, q23);
    XorExchange(p.a0, p.a1, q.a0, q.a1);
    XorExchange(p.a2, p.a3, q.a2, q.a3);
    XorExchange(r01, r23, s01, s23);
    XorExchange(r.a0, r.a1, s.a0, s.a1);
    XorExchange(r.a2, r.a3, s.a2, s.a3);
    XorExchange(Xor(p01, q01), Xor(p23, q23), Xor(r01, s01), Xor(r23, s23));
    XorExchange(Xor(p.a0, q.a0), Xor(p.a1, q.a1), Xor(r.a0, s.a0), Xor(r.a1, s.a1));
    XorExchange(Xor(p.a2, q.a2), Xor(p.a3, q.a3), Xor(r.a2, s.a2), Xor(r.a3, s.a3));
  }

  lemma SumPermutes(p: byte, q: byte, r: byte, s: byte)
    ensures Sum(Column(p, q, r, s)) == Sum(Column(s, p, q, r))
    ensures Sum(Column(p, q, r, s)) == Sum(Column(p, s, r, q))
    ensures Sum(Column(p, q, r, s)) == Sum(Column(q, p, s, r))
    ensures Sum(Column(p, q, r, s)) == Sum(Column(r, q, p, s))
    ensures Sum(Column(p, q, r, s)) == Sum(Column(s, r, q, p))
  {
    hide Xor;
    XorLaws(p, q);
    XorLaws(r, s);
    XorLaws(p, s);
    XorLaws(q, r);
    XorLaws(p, r);
    XorLaws(Xor(p, q), Xor(r, s));
    XorExchange(p, q, s, r);
    XorExchange(p, q, r, s);
    XorExchange(r, q, p, s);
  }

  /** The sum of the four products of `a` with first an element of `c`, then the one of `d`. */
  function Twice(a: byte, c: Column, d: Column): byte {
    Sum(Column(Mul(Mul(a, c.a0), d.a0), Mul(Mul(a, c.a1), d.a1), Mul(Mul(a, c.a2), d.a2), Mul(Mul(a, c.a3), d.a3)))
  }

  lemma DotTimes(v: Column, c: Column, k: byte)
    ensures Mul(Dot(v, c), k) == Sum(Column(Mul(Mul(v.a0, c.a0), k), Mul(Mul(v.a1, c.a1), k),
                                            Mul(Mul(v.a2, c.a2), k), Mul(Mul(v.a3, c.a3), k)))
  {
    hide Mul, Xor;
    var p, q, r, s := Mul(v.a0, c.a0), Mul(v.a1, c.a1), Mul(v.a2, c.a2), Mul(v.a3, c.a3);
    MulDistributes(Xor(p, q), Xor(r, s), k);
    MulDistributes(p, q, k);
    MulDistributes(r, s, k);
  }

  /** The first row of `c`'s matrix read as a column, rotated by `j`. */
  function FirstColumn(c: Column): Column {
    Column(c.a0, c.a3, c.a2, c.a1)
  }

  lemma DotOfCirculant(v: Column, c: Column, d: Column)
    ensures var c0 := FirstColumn(c); var c1 := Rotate(c0); var c2 := Rotate(c1); var c3 := Rotate(c2);
            Dot(Circulant(v, c), d)
            == Sum(Column(Twice(v.a0, c0, d), Twice(v.a1, c1, d), Twice(v.a2, c2, d), Twice(v.a3, c3, d)))
  {
    hide Mul, Xor;
    var r0, r1, r2, r3 := c, Rotate(c), Rotate(Rotate(c)), Rotate(Rotate(Rotate(c)));
    DotTimes(v, r0, d.a0);
    DotTimes(v, r1, d.a1);
    DotTimes(v, r2, d.a2);
    DotTimes(v, r3, d.a3);
    XorTranspose(
      Column(Mul(Mul(v.a0, r0.a0), d.a0), Mul(Mul(v.a1, r0.a1), d.a0), Mul(Mul(v.a2, r0.a2), d.a0),
             Mul(Mul(v.a3, r0.a3), d.a0)),
      Column(Mul(Mul(v.a0, r1.a0), d.a1), Mul(Mul(v.a1, r1.a1), d.a1), Mul(Mul(v.a2, r1.a2), d.a1),
             Mul(Mul(v.a3, r1.a3), d.a1)),
      Column(Mul(Mul(v.a0, r2.a0), d.a2), Mul(Mul(v.a1, r2.a1), d.a2), Mul(Mul(v.a2, r2.a2), d.a2),
             Mul(Mul(v.a3, r2.a3), d.a2)),
      Column(Mul(Mul(v.a0, r3.a0), d.a3), Mul(Mul(v.a1, r3.a1), d.a3), Mul(Mul(v.a2, r3.a2), d.a3),
             Mul(Mul(v.a3, r3.a3), d.a3)));
  }

  lemma TwiceRotates(a: byte, c: Column, d: Column)
    ensures Twice(a, Rotate(c), Rotate(d)) == Twice(a, c, d)
  {
    hide Mul, Sum;
    SumPermutes(Mul(Mul(a, c.a0), d.a0), Mul(Mul(a, c.a1), d.a1), Mul(Mul(a, c.a2), d.a2), Mul(Mul(a, c.a3), d.a3));
  }

  /** `d` is the first row of the matrix inverse to the one of `c`. */
  ghost predicate InverseRows(c: Column, d: Column) {
    forall a :: && Twice(a, FirstColumn(c), d) == a
                && Twice(a, Rotate(FirstColumn(c)), d) == 0
                && Twice(a, Rotate(Rotate(FirstColumn(c))), d) == 0
                && Twice(a, Rotate(Rotate(Rotate(FirstColumn(c)))), d) == 0
  }

  lemma SumOfOne(a: byte)
    ensures Sum(Column(a, 0, 0, 0)) == a && Sum(Column(0, a, 0, 0)) == a
    ensures Sum(Column(0, 0, a, 0)) == a && Sum(Column(0, 0, 0, a)) == a
  {
  }

  lemma CirculantRows(v: Column, c: Column)
    ensures Circulant(v, c)
         == Column(Dot(v, c), Dot(v, Rotate(c)), Dot(v, Rotate(Rotate(c))), Dot(v, Rotate(Rotate(Rotate(c)))))
  {
  }

  lemma CirculantInverse(v: Column, c: Column, d: Column)
    requires InverseRows(c, d)
    ensures Circulant(Circulant(v, c), d) == v
  {
    hide Twice, Sum, Dot, Circulant;
    var c0 := FirstColumn(c);
    var c1, c2, c3 := Rotate(c0), Rotate(Rotate(c0)), Rotate(Rotate(Rotate(c0)));
    var d1, d2, d3 := Rotate(d), Rotate(Rotate(d)), Rotate(Rotate(Rotate(d)));
    DotOfCirculant(v, c, d);
    DotOfCirculant(v, c, d1);
    DotOfCirculant(v, c, d2);
    DotOfCirculant(v, c, d3);
    forall a
      ensures Twice(a, c1, d1) == a && Twice(a, c2, d1) == 0 && Twice(a, c3, d1) == 0 && Twice(a, c0, d1) == 0
      ensures Twice(a, c2, d2) == a && Twice(a, c3, d2) == 0 && Twice(a, c0, d2) == 0 && Twice(a, c1, d2) == 0
      ensures Twice(a, c3, d3) == a && Twice(a, c0, d3) == 0 && Twice(a, c1, d3) == 0 && Twice(a, c2, d3) == 0
    {
      assert Rotate(c3) == c0;
      TwiceRotates(a, c0, d); TwiceRotates(a, c1, d); TwiceRotates(a, c2, d); TwiceRotates(a, c3, d);
      TwiceRotates(a, c0, d1); TwiceRotates(a, c1, d1); TwiceRotates(a, c2, d1); TwiceRotates(a, c3, d1);
      TwiceRotates(a, c0, d2); TwiceRotates(a, c1, d2); TwiceRotates(a, c2, d2); TwiceRotates(a, c3, d2);
    }
    SumOfOne(v.a0); SumOfOne(v.a1); SumOfOne(v.a2); SumOfOne(v.a3);
    CirculantRows(Circulant(v, c), d);
  }

  lemma InvMixFits()
    ensures Fits(0x0e, 7) && Fits(0x0b, 7) && Fits(0x0d, 7) && Fits(0x09, 7)
  {
    assert Fits(0, 3) && Fits(1, 4) && Fits(2, 5) && Fits(3, 5) && Fits(4, 6) && Fits(5, 6) && Fits(6, 6) && Fits(7, 6);
  }

  lemma MixFactors(a: byte, d: byte, twice: byte, thrice: byte)
    requires d in {0x0e, 0x0b, 0x0d, 0x09} && twice == d << 1 && thrice == d ^ (d << 1)
    ensures Mul(Mul(a, 1), d) == Mul(a, d) && Mul(Mul(a, 2), d) == Mul(a, twice) && Mul(Mul(a, 3), d) == Mul(a, thrice)
  {
    hide Mul;
    InvMixFits();
    MulMul(a, d);
  }

  /** The factors of a row of one matrix and a column of the other, as polynomials, add up to 1 or 0. */
  lemma FactorsCancel()
    ensures Sum(Column(0x1c, 0x0b, 0x0d, 0x1b)) == 1 && Sum(Column(0x12, 0x16, 0x0d, 0x09)) == 0
    ensures Sum(Column(0x0e, 0x1d, 0x1a, 0x09)) == 0 && Sum(Column(0x0e, 0x0b, 0x17, 0x12)) == 0
  {
  }

  /** Four products of `a` add up to its product with the sum of the factors. */
  lemma SumOfProducts(a: byte, k: Column)
    ensures Sum(Column(Mul(a, k.a0), Mul(a, k.a1), Mul(a, k.a2), Mul(a, k.a3))) == Mul(a, Sum(k))
  {
    hide Mul, Xor;
    MulDistributes(k.a0, k.a1, a);
    MulDistributes(k.a2, k.a3, a);
    MulDistributes(Xor(k.a0, k.a1), Xor(k.a2, k.a3), a);
  }

  lemma MixTwice(a: byte)
    ensures Twice(a, Column(2, 1, 1, 3), INV_MIX) == a
    ensures Twice(a, Column(3, 2, 1, 1), INV_MIX) == 0
    ensures Twice(a, Column(1, 3, 2, 1), INV_MIX) == 0
    ensures Twice(a, Column(1, 1, 3, 2), INV_MIX) == 0
  {
    hide Mul, Sum;
    MixFactors(a, 0x0e, 0x1c, 0x12);
    MixFactors(a, 0x0b, 0x16, 0x1d);
    MixFactors(a, 0x0d, 0x1a, 0x17);
    MixFactors(a, 0x09, 0x12, 0x1b);
    FactorsCancel();
    SumOfProducts(a, Column(0x1c, 0x0b, 0x0d, 0x1b));
    SumOfProducts(a, Column(0x12, 0x16, 0x0d, 0x09));
    SumOfProducts(a, Column(0x0e, 0x1d, 0x1a, 0x09));
    SumOfProducts(a, Column(0x0e, 0x0b, 0x17, 0x12));
    SmallProducts(a);
  }

  lemma InvMixTwice(a: byte)
    ensures Twice(a, Column(0xe, 0x9, 0xd, 0xb), MIX) == a
    ensures Twice(a, Column(0xb, 0xe, 0x9, 0xd), MIX) == 0
    ensures Twice(a, Column(0xd, 0xb, 0xe, 0x9), MIX) == 0
    ensures Twice(a, Column(0x9, 0xd, 0xb, 0xe), MIX) == 0
  {
    hide Mul, Xtime, Sum;
    MixTwice(a);
    SmallFactorCommutes(a, 0x9);
    SmallFactorCommutes(a, 0xb);
    SmallFactorCommutes(a, 0xd);
    SmallFactorCommutes(a, 0xe);
    SumPermutes(Mul(Mul(a, 2), 0xe), Mul(Mul(a, 1), 0xb), Mul(Mul(a, 1), 0xd), Mul(Mul(a, 3), 0x9));
    SumPermutes(Mul(Mul(a, 3), 0xe), Mul(Mul(a, 2), 0xb), Mul(Mul(a, 1), 0xd), Mul(Mul(a, 1), 0x9));
    SumPermutes(Mul(Mul(a, 1), 0xe), Mul(Mul(a, 3), 0xb), Mul(Mul(a, 2), 0xd), Mul(Mul(a, 1), 0x9));
    SumPermutes(Mul(Mul(a, 1), 0xe), Mul(Mul(a, 1), 0xb), Mul(Mul(a, 3), 0xd), Mul(Mul(a, 2), 0x9));
  }

  /** The two matrices are inverse to each other, in both orders. */
  lemma MixRowsInverse()
    ensures InverseRows(MIX, INV_MIX)
    ensures InverseRows(INV_MIX, MIX)
  {
    forall a
      ensures Twice(a, Column(2, 1, 1, 3), INV_MIX) == a
      ensures Twice(a, Column(3, 2, 1, 1), INV_MIX) == 0
      ensures Twice(a, Column(1, 3, 2, 1), INV_MIX) == 0
      ensures Twice(a, Column(1, 1, 3, 2), INV_MIX) == 0
      ensures Twice(a, Column(0xe, 0x9, 0xd, 0xb), MIX) == a
      ensures Twice(a, Column(0xb, 0xe, 0x9, 0xd), MIX) == 0
      ensures Twice(a, Column(0xd, 0xb, 0xe, 0x9), MIX) == 0
      ensures Twice(a, Column(0x9, 0xd, 0xb, 0xe), MIX) == 0
    {
      MixTwice(a);
      InvMixTwice(a);
    }
  }

  /** The decryption matrix undoes the encryption matrix, and the other way round. */
  lemma MixColumnInverse(v: Column)
    ensures InvMixColumn(MixColumn(v)) == v
    ensures MixColumn(InvMixColumn(v)) == v
  {
    hide Circulant, InverseRows;
    MixRowsInverse();
    CirculantInverse(v, MIX, INV_MIX);
    CirculantInverse(v, INV_MIX, MIX);
  }
}
