/** Arithmetic of polynomials over GF(2) modulo the CRC-32 polynomial, in the reflected
    representation of crc32.c: the coefficient of x^i is bit 31-i. */
module CrcPoly {
  import opened Bits

  const POLY: u32 := 0xedb88320
  const ONE: u32 := 0x8000_0000 // x^0

  /** Multiplication by x. */
  function MulX(b: u32): u32 {
    Xor32(b / 2, POLY);
    if b % 2 == 1 then Xor(b / 2, POLY) else b / 2
  }

  /** Multiplication by x^n. */
  function MulXn(b: u32, n: nat): u32 {
    if n == 0 then b else MulX(MulXn(b, n - 1))
  }

  /** x^n modulo the CRC polynomial. */
  function XPow(n: nat): u32 {
    MulXn(ONE, n)
  }

  /** The first `n` terms of the schoolbook product: the sum of x^i * b over the coefficients x^i of a. */
  function PartialProduct(a: u32, b: u32, n: nat): u32
    requires n <= 32
  {
    if n == 0 then 0
    else
      Xor32(PartialProduct(a, b, n - 1), MulXn(b, n - 1));
      if Bit(a, 32 - n) then Xor(PartialProduct(a, b, n - 1), MulXn(b, n - 1)) else PartialProduct(a, b, n - 1)
  }

  /** The product of two polynomials modulo the CRC polynomial. */
  function Mult(a: u32, b: u32): u32 {
    PartialProduct(a, b, 32)
  }

  /** Division by x: the inverse of MulX. */
  function DivX(b: u32): u32 {
    Xor32(b, POLY);
    XorTopBit(b);
    if b >= ONE then 2 * Xor(b, POLY) + 1 else 2 * b
  }

  lemma XorTopBit(b: u32)
    ensures b >= ONE ==> Xor(b, POLY) < ONE
    ensures b < ONE ==> Xor(b, POLY) >= ONE
  {
    Pow2Values();
    BitTop(b);
    BitTop(POLY);
    Xor32(b, POLY);
    BitTop(Xor(b, POLY));
    BitXor(b, POLY, 31);
  }

  lemma BitTop(b: u32)
    ensures Bit(b, 31) <==> b >= ONE
  {
    Pow2Values();
    LowAll(b, 32);
    LowStep(b, 31);
    LowBound(b, 31);
  }

  /** Multiplication by x is a bijection, so no power of x is zero. */
  lemma MulXBijective(a: u32)
    ensures DivX(MulX(a)) == a && MulX(DivX(a)) == a
  {
    XorTopBit(a);
    XorTopBit(a / 2);
    XorCancel(POLY, a / 2);
    XorCancel(POLY, a);
  }

  lemma MulXZero(a: u32)
    ensures MulX(a) == 0 <==> a == 0
  {
    MulXBijective(a);
    MulXBijective(0);
  }

  lemma {:induction false} MulXnZero(a: u32, n: nat)
    ensures MulXn(a, n) == 0 <==> a == 0
  {
    if n > 0 {
      MulXnZero(a, n - 1);
      MulXZero(MulXn(a, n - 1));
    }
  }

  lemma XPowNonzero(n: nat)
    ensures XPow(n) != 0
  {
    MulXnZero(ONE, n);
  }

  // Linearity.

  lemma MulXLinear(a: u32, b: u32)
    ensures Xor(a, b) < 0x1_0000_0000
    ensures MulX(Xor(a, b)) == Xor(MulX(a), MulX(b))
  {
    Xor32(a, b);
    XorHalf(a, b);
    var p, q := a / 2, b / 2;
    if a % 2 == 1 && b % 2 == 1 {
      XorSwap(p, POLY, q, POLY);
      XorSelf(POLY);
      XorZero(Xor(p, q));
    } else if a % 2 == 1 {
      XorAssoc(p, POLY, q);
      XorComm(POLY, q);
      XorAssoc(p, q, POLY);
    } else if b % 2 == 1 {
      XorAssoc(p, q, POLY);
    }
  }

  lemma {:induction false} MulXnLinear(a: u32, b: u32, n: nat)
    ensures Xor(a, b) < 0x1_0000_0000
    ensures MulXn(Xor(a, b), n) == Xor(MulXn(a, n), MulXn(b, n))
  {
    Xor32(a, b);
    if n > 0 {
      MulXnLinear(a, b, n - 1);
      MulXLinear(MulXn(a, n - 1), MulXn(b, n - 1));
    }
  }

  lemma {:induction false} MulXnAdd(b: u32, m: nat, n: nat)
    ensures MulXn(b, m + n) == MulXn(MulXn(b, m), n)
  {
    if n > 0 {
      MulXnAdd(b, m, n - 1);
    }
  }

  lemma {:induction false} ProductLinearRight(a: u32, b: u32, c: u32, n: nat)
    requires n <= 32
    ensures Xor(b, c) < 0x1_0000_0000
    ensures PartialProduct(a, Xor(b, c), n) == Xor(PartialProduct(a, b, n), PartialProduct(a, c, n))
  {
    Xor32(b, c);
    if n > 0 {
      ProductLinearRight(a, b, c, n - 1);
      MulXnLinear(b, c, n - 1);
      XorSwap(PartialProduct(a, b, n - 1), PartialProduct(a, c, n - 1), MulXn(b, n - 1), MulXn(c, n - 1));
    }
  }

  lemma {:induction false} ProductLinearLeft(a: u32, b: u32, c: u32, n: nat)
    requires n <= 32
    ensures Xor(a, b) < 0x1_0000_0000
    ensures PartialProduct(Xor(a, b), c, n) == Xor(PartialProduct(a, c, n), PartialProduct(b, c, n))
  {
    Xor32(a, b);
    if n > 0 {
      ProductLinearLeft(a, b, c, n - 1);
      BitXor(a, b, 32 - n);
      var p, q, t := PartialProduct(a, c, n - 1), PartialProduct(b, c, n - 1), MulXn(c, n - 1);
      XorSwap(p, t, q, t);
      XorSelf(t);
      XorZero(Xor(p, q));
      XorAssoc(p, q, t);
      XorAssoc(p, t, q);
      XorComm(t, q);
    }
  }

  lemma {:induction false} ProductMulX(a: u32, b: u32, k: nat, n: nat)
    requires n <= 32
    ensures PartialProduct(a, MulXn(b, k), n) == MulXn(PartialProduct(a, b, n), k)
  {
    if n == 0 {
      MulXnZero(0, k);
    } else {
      ProductMulX(a, b, k, n - 1);
      MulXnAdd(b, k, n - 1);
      MulXnAdd(b, n - 1, k);
      MulXnLinear(PartialProduct(a, b, n - 1), MulXn(b, n - 1), k);
    }
  }

  // One is neutral.

  lemma {:induction false} OneShifted(i: nat)
    requires i < 32
    ensures MulXn(ONE, i) == Shl(1, 31 - i)
  {
    if i == 0 {
      Pow2Values();
      ShlOne(31);
    } else {
      OneShifted(i - 1);
      assert Shl(1, 32 - i) == 2 * Shl(1, 31 - i);
    }
  }

  lemma {:induction false} ShlOne(k: nat)
    ensures Shl(1, k) == Pow2(k)
  {
    if k > 0 {
      ShlOne(k - 1);
    }
  }

  lemma {:induction false} ProductOne(a: u32, n: nat)
    requires n <= 32
    ensures PartialProduct(a, ONE, n) == Shl(Shr(a, 32 - n), 32 - n)
  {
    if n == 0 {
      Pow2Values();
      LowAll(a, 32);
      ShlZero(32);
    } else {
      var k := 32 - n;
      var h := Shr(a, k + 1);
      ProductOne(a, n - 1);
      OneShifted(n - 1);
      ShrStep(a, k);
      assert Shl(h, k + 1) == Shl(2 * h, k) by { ShlDouble(h, k); }
      if Bit(a, k) {
        XorShl(2 * h, 1, k);
        XorDouble(h, 0, 0, 1);
        XorZero(h);
      }
    }
  }

  lemma {:induction false} ShlZero(k: nat)
    ensures Shl(0, k) == 0
  {
    if k > 0 {
      ShlZero(k - 1);
    }
  }

  lemma {:induction false} ShlDouble(a: nat, k: nat)
    ensures Shl(a, k + 1) == Shl(2 * a, k)
  {
    if k > 0 {
      ShlDouble(a, k - 1);
    }
  }

  /** Multiplying a product: the order of the two outer factors does not matter. */
  lemma {:induction false} ProductPull(a: u32, b: u32, c: u32, n: nat)
    requires n <= 32
    ensures Mult(a, PartialProduct(b, c, n)) == PartialProduct(b, Mult(a, c), n)
  {
    if n == 0 {
      ProductOfZero(a, 32);
    } else {
      ProductPull(a, b, c, n - 1);
      ProductLinearRight(a, PartialProduct(b, c, n - 1), MulXn(c, n - 1), 32);
      ProductMulX(a, c, n - 1, 32);
    }
  }

  lemma {:induction false} ProductOfZero(a: u32, n: nat)
    requires n <= 32
    ensures PartialProduct(a, 0, n) == 0
  {
    if n > 0 {
      ProductOfZero(a, n - 1);
      MulXnZero(0, n - 1);
      XorZero(0);
    }
  }

  /** The ring laws of multiplication modulo the CRC polynomial. */
  lemma MultOne(a: u32)
    ensures Mult(a, ONE) == a && Mult(ONE, a) == a
  {
    ProductOne(a, 32);
    MultComm(ONE, a);
  }

  lemma MultComm(a: u32, b: u32)
    ensures Mult(a, b) == Mult(b, a)
  {
    ProductOne(a, 32);
    ProductOne(b, 32);
    ProductPull(a, b, ONE, 32);
  }

  lemma MultAssoc(a: u32, b: u32, c: u32)
    ensures Mult(Mult(a, b), c) == Mult(a, Mult(b, c))
  {
    MultComm(Mult(a, b), c);
    ProductPull(c, a, b, 32);
    MultComm(c, b);
  }

  lemma MultLinear(a: u32, b: u32, c: u32)
    ensures Xor(a, b) < 0x1_0000_0000
    ensures Mult(Xor(a, b), c) == Xor(Mult(a, c), Mult(b, c))
    ensures Mult(c, Xor(a, b)) == Xor(Mult(c, a), Mult(c, b))
  {
    ProductLinearLeft(a, b, c, 32);
    ProductLinearRight(c, a, b, 32);
  }

  /** Multiplying by x^n is shifting n times. */
  lemma MultXPow(n: nat, b: u32)
    ensures Mult(XPow(n), b) == MulXn(b, n) && Mult(b, XPow(n)) == MulXn(b, n)
  {
    MultComm(XPow(n), b);
    ProductMulX(b, ONE, n, 32);
    MultOne(b);
  }

  lemma XPowAdd(m: nat, n: nat)
    ensures XPow(m + n) == Mult(XPow(m), XPow(n))
  {
    MulXnAdd(ONE, n, m);
    MultXPow(m, XPow(n));
  }
}
