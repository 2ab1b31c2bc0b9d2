/**
 The field GF(2^8) the cipher computes in (section 4 of FIPS 197): bytes are polynomials over
 GF(2), added by XOR and multiplied modulo x^8 + x^4 + x^3 + x + 1.
 */
module Gf256 {
  import opened Bytes

  function Xor(a: byte, b: byte): byte {
    a ^ b
  }

  lemma XorLaws(a: byte, b: byte)
    ensures Xor(a, b) == Xor(b, a)
    ensures Xor(Xor(a, b), b) == a
    ensures Xor(a, 0) == a && Xor(a, a) == 0
  {
    assert a ^ b == b ^ a;
    assert (a ^ b) ^ b == a;
  }

  lemma XorExchange(p: byte, q: byte, r: byte, s: byte)
    ensures Xor(Xor(p, q), Xor(r, s)) == Xor(Xor(p, r), Xor(q, s))
  {
    assert (p ^ q) ^ (r ^ s) == (p ^ r) ^ (q ^ s);
  }

  /** Multiplication by x. */
  function Xtime(a: byte): byte {
    if a & 0x80 != 0 then (a << 1) ^ 0x1b else a << 1
  }

  function Half(b: byte): byte {
    b >> 1
  }

  function LowTerm(a: byte, b: byte): byte {
    if b & 1 == 1 then a else 0
  }

  /** The product of `a` with the `n` low bits of `b`. */
  function Product(a: byte, b: byte, n: nat): byte
    decreases n
  {
    if n == 0 then 0 else Xor(LowTerm(a, b), Product(Xtime(a), Half(b), n - 1))
  }

  function Mul(a: byte, b: byte): byte {
    Product(a, b, 8)
  }

  lemma ZeroPlus(a: byte)
    ensures Xor(0, a) == a
  {
  }

  lemma GmulStep(p: byte, a: byte, b: byte, n: nat)
    requires n > 0
    ensures Xor(p, Product(a, b, n)) ==
            Xor(if b & 1 == 1 then p ^ a else p,
                Product(if a & 0x80 != 0 then (a << 1) ^ 0x1b else a << 1, b >> 1, n - 1))
  {
    var t, u := LowTerm(a, b), Product(Xtime(a), Half(b), n - 1);
    assert p ^ (t ^ u) == (p ^ t) ^ u;
  }

  lemma NothingLeft(p: byte, a: byte, b: byte)
    ensures Xor(p, Product(a, b, 0)) == p
  {
  }

  /** The multiplication loop of the cipher. */
  method Gmul(x: byte, y: byte) returns (p: byte)
    ensures p == Mul(x, y)
  {
    hide Product;
    p := 0;
    var a, b := x, y;
    ZeroPlus(Mul(x, y));
    for i := 0 to 8
      invariant Xor(p, Product(a, b, 8 - i)) == Mul(x, y)
    {
      GmulStep(p, a, b, 8 - i);
      if b & 1 == 1 {
        p := p ^ a;
      }
      var hi := a & 0x80;
      a := a << 1;
      if hi != 0 {
        a := a ^ 0x1b;
      }
      b := b >> 1;
    }
    NothingLeft(p, a, b);
  }

  // ----- linearity

  lemma XtimeLinear(a: byte, b: byte)
    ensures Xtime(Xor(a, b)) == Xor(Xtime(a), Xtime(b))
  {
    assert (a ^ b) << 1 == (a << 1) ^ (b << 1);
    if a & 0x80 != 0 {
      if b & 0x80 != 0 { assert (a ^ b) & 0x80 == 0; } else { assert (a ^ b) & 0x80 != 0; }
    } else {
      if b & 0x80 != 0 { assert (a ^ b) & 0x80 != 0; } else { assert (a ^ b) & 0x80 == 0; }
    }
  }

  lemma LowTermLinear(a: byte, b: byte, c: byte)
    ensures LowTerm(Xor(a, b), c) == Xor(LowTerm(a, c), LowTerm(b, c))
    ensures LowTerm(c, Xor(a, b)) == Xor(LowTerm(c, a), LowTerm(c, b))
  {
    if a & 1 == 1 {
      if b & 1 == 1 { assert (a ^ b) & 1 == 0; } else { assert (a ^ b) & 1 == 1; }
    } else {
      if b & 1 == 1 { assert (a ^ b) & 1 == 1; } else { assert (a ^ b) & 1 == 0; }
    }
  }

  lemma HalfLinear(a: byte, b: byte)
    ensures Half(Xor(a, b)) == Xor(Half(a), Half(b))
  {
  }

  lemma {:induction false} ProductLinearLeft(a: byte, b: byte, c: byte, n: nat)
    ensures Product(Xor(a, b), c, n) == Xor(Product(a, c, n), Product(b, c, n))
    decreases n
  {
    if n != 0 {
      hide Xtime, LowTerm, Half, Xor;
      XtimeLinear(a, b);
      LowTermLinear(a, b, c);
      ProductLinearLeft(Xtime(a), Xtime(b), Half(c), n - 1);
      XorExchange(LowTerm(a, c), LowTerm(b, c),
                  Product(Xtime(a), Half(c), n - 1), Product(Xtime(b), Half(c), n - 1));
    }
  }

  lemma {:induction false} ProductLinearRight(a: byte, b: byte, c: byte, n: nat)
    ensures Product(c, Xor(a, b), n) == Xor(Product(c, a, n), Product(c, b, n))
    decreases n
  {
    if n != 0 {
      hide Xtime, LowTerm, Half, Xor;
      HalfLinear(a, b);
      LowTermLinear(a, b, c);
      ProductLinearRight(Half(a), Half(b), Xtime(c), n - 1);
      XorExchange(LowTerm(c, a), LowTerm(c, b),
                  Product(Xtime(c), Half(a), n - 1), Product(Xtime(c), Half(b), n - 1));
    }
  }

  /** Multiplication distributes over addition on both sides. */
  lemma MulDistributes(a: byte, b: byte, c: byte)
    ensures Mul(Xor(a, b), c) == Xor(Mul(a, c), Mul(b, c))
    ensures Mul(c, Xor(a, b)) == Xor(Mul(c, a), Mul(c, b))
  {
    ProductLinearLeft(a, b, c, 8);
    ProductLinearRight(a, b, c, 8);
  }

  lemma {:induction false} ProductByX(a: byte, b: byte, n: nat)
    ensures Product(Xtime(a), b, n) == Xtime(Product(a, b, n))
    decreases n
  {
    if n != 0 {
      assert Xtime(LowTerm(a, b)) == LowTerm(Xtime(a), b);
      hide Xtime, LowTerm, Half, Xor;
      ProductByX(Xtime(a), Half(b), n - 1);
      XtimeLinear(LowTerm(a, b), Product(Xtime(a), Half(b), n - 1));
    }
  }

  /** The bits of `b` are spent after `n` halvings. */
  predicate Fits(b: byte, n: nat)
    decreases n
  {
    if n == 0 then b == 0 else Fits(Half(b), n - 1)
  }

  lemma ByteFits(b: byte)
    ensures Fits(b, 8)
  {
    assert ((((((((b >> 1) >> 1) >> 1) >> 1) >> 1) >> 1) >> 1) >> 1) == 0;
    var h4 := Half(Half(Half(Half(b))));
    assert Fits(h4, 4);
    assert Fits(Half(Half(b)), 6);
  }

  lemma Rejoin(b: byte)
    ensures Xor(LowTerm(1, b), Xtime(Half(b))) == b
  {
    assert (b >> 1) & 0x80 == 0;
    if b & 1 == 1 {
      assert 1 ^ ((b >> 1) << 1) == b;
    } else {
      assert 0 ^ ((b >> 1) << 1) == b;
    }
  }

  lemma {:induction false} UnitProduct(b: byte, n: nat)
    requires Fits(b, n)
    ensures Product(1, b, n) == b
    decreases n
  {
    if n != 0 {
      hide Xtime, LowTerm, Half, Xor;
      UnitProduct(Half(b), n - 1);
      ProductByX(1, Half(b), n - 1);
      Rejoin(b);
    }
  }

  /**
   The three laws that determine multiplication in the field: it is additive in its first
   argument, it commutes with multiplication by x, and 1 is a unit.
   */
  lemma MulIsFieldProduct(a: byte, b: byte, c: byte)
    ensures Mul(1, c) == c
    ensures Mul(Xtime(a), c) == Xtime(Mul(a, c))
    ensures Mul(Xor(a, b), c) == Xor(Mul(a, c), Mul(b, c))
  {
    ByteFits(c);
    UnitProduct(c, 8);
    ProductByX(a, c, 8);
    MulDistributes(a, b, c);
  }

  // ----- products with small factors

  lemma EvenProduct(a: byte, b: byte, n: nat)
    requires b & 1 == 0
    ensures Product(a, b, n + 1) == Product(Xtime(a), Half(b), n)
  {
    hide Xtime, Half;
    XorLaws(Product(Xtime(a), Half(b), n), 0);
  }

  lemma OddProduct(a: byte, b: byte, n: nat)
    requires b & 1 == 1
    ensures Product(a, b, n + 1) == Xor(a, Product(Xtime(a), Half(b), n))
  {
    hide Xtime, Half, Xor;
  }

  lemma NothingLow(a: byte)
    ensures LowTerm(a, 0) == 0
  {
  }

  /** Bits beyond the last one set add nothing. */
  lemma {:induction false} SpentProduct(a: byte, b: byte, n: nat)
    requires Fits(b, n)
    ensures Product(a, b, n + 1) == Product(a, b, n)
    decreases n
  {
    hide Xtime, Half, LowTerm;
    if n == 0 {
      assert LowTerm(a, 0) == 0 by { NothingLow(a); }
      XorLaws(0, 0);
    } else {
      SpentProduct(Xtime(a), Half(b), n - 1);
    }
  }

  lemma {:induction false} ZeroProduct(a: byte, n: nat)
    ensures Product(a, 0, n) == 0
    decreases n
  {
    if n != 0 {
      hide Xtime;
      ZeroProduct(Xtime(a), n - 1);
    }
  }

  lemma SmallProducts(a: byte)
    ensures Mul(a, 0) == 0 && Mul(a, 1) == a && Mul(a, 2) == Xtime(a) && Mul(a, 3) == Xor(a, Xtime(a))
  {
    hide Xtime, Xor;
    ZeroProduct(a, 8);
    ZeroProduct(Xtime(a), 7);
    ZeroProduct(Xtime(Xtime(a)), 6);
    XorLaws(a, 0);
    XorLaws(Xtime(a), 0);
    OddProduct(a, 1, 7);
    EvenProduct(a, 2, 7);
    OddProduct(a, 3, 7);
    OddProduct(Xtime(a), 1, 6);
  }

  lemma SevenBits(d: byte)
    requires Fits(d, 7)
    ensures d < 0x80
  {
    assert ((((((d >> 1) >> 1) >> 1) >> 1) >> 1) >> 1) >> 1 == 0;
  }

  lemma HalfOfDouble(d: byte)
    requires Fits(d, 7)
    ensures Half(d << 1) == d
  {
    assert d < 0x80 by { SevenBits(d); }
    assert (d << 1) >> 1 == d;
  }

  /** Two factors, the first of them 1, 2 or 3, make one factor as long as their product needs no reduction. */
  lemma MulMul(a: byte, d: byte)
    requires Fits(d, 7)
    ensures Mul(Mul(a, 1), d) == Mul(a, d)
    ensures Mul(Mul(a, 2), d) == Mul(a, d << 1)
    ensures Mul(Mul(a, 3), d) == Mul(a, Xor(d, d << 1))
  {
    assert (d << 1) & 1 == 0;
    assert Half(d << 1) == d by { HalfOfDouble(d); }
    hide Xtime, Xor, Product, Half, Fits;
    SmallProducts(a);
    SpentProduct(Xtime(a), d, 7);
    EvenProduct(a, d << 1, 7);
    MulDistributes(a, Xtime(a), d);
    MulDistributes(d, d << 1, a);
  }

  /** Factors 1, 2 and 3 commute with every other factor. */
  lemma SmallFactorCommutes(a: byte, d: byte)
    ensures Mul(Mul(a, 1), d) == Mul(Mul(a, d), 1)
    ensures Mul(Mul(a, 2), d) == Mul(Mul(a, d), 2)
    ensures Mul(Mul(a, 3), d) == Mul(Mul(a, d), 3)
  {
    hide Xtime, Xor, Product;
    SmallProducts(a);
    SmallProducts(Mul(a, d));
    ProductByX(a, d, 8);
    MulDistributes(a, Xtime(a), d);
  }
}
