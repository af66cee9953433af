/** The powers x^(2^k) used by x2nmodp(), and why their table may wrap after 32 entries:
    x^(2^32) is x modulo the CRC polynomial. The constants are computed on bit vectors, which
    the solver evaluates directly, and carried over to the polynomials of CrcPoly. */
module CrcPowers {
  import opened Bits
  import opened CrcPoly

  /** The number whose binary digits are the low `n` bits of v. */
  function Val(v: bv32, n: nat): nat
    decreases n
  {
    if n == 0 then 0 else (if v & 1 == 1 then 1 else 0) + 2 * Val(v >> 1, n - 1)
  }

  lemma {:induction false} ValBound(v: bv32, n: nat)
    ensures Val(v, n) < Pow2(n)
    decreases n
  {
    if n > 0 {
      ValBound(v >> 1, n - 1);
    }
  }

  lemma XorBits(a: bv32, b: bv32)
    ensures (a ^ b) >> 1 == (a >> 1) ^ (b >> 1)
    ensures (a ^ b) & 1 == (a & 1) ^ (b & 1)
  {
  }

  lemma LowBit(a: bv32)
    ensures a & 1 == 1 || a & 1 == 0
  {
  }

  lemma XorLowBit(a: bv32, b: bv32)
    ensures (a ^ b) & 1 == 1 <==> (a & 1 == 1) != (b & 1 == 1)
  {
    LowBit(a);
    LowBit(b);
    XorBits(a, b);
  }

  function Both(a: bv32, b: bv32): bv32 {
    a ^ b
  }

  function Half(a: bv32): bv32 {
    a >> 1
  }

  lemma HalfBoth(a: bv32, b: bv32)
    ensures Half(Both(a, b)) == Both(Half(a), Half(b))
  {
    XorBits(a, b);
  }

  lemma {:induction false} ValBoth(a: bv32, b: bv32, n: nat)
    ensures Val(Both(a, b), n) == Xor(Val(a, n), Val(b, n))
    decreases n
  {
    hide LowOf, Val, Both, Half, Xor;
    if n == 0 {
      NoBits(a, b);
    } else {
      HalfBoth(a, b);
      LowOfXor(a, b);
      ValBoth(Half(a), Half(b), n - 1);
      ValStep(a, n);
      ValStep(b, n);
      ValStep(Both(a, b), n);
      XorDouble(Val(Half(a), n - 1), LowOf(a), Val(Half(b), n - 1), LowOf(b));
    }
  }

  lemma NoBits(a: bv32, b: bv32)
    ensures Val(Both(a, b), 0) == Xor(Val(a, 0), Val(b, 0))
  {
    hide Both;
  }

  lemma ValXor(a: bv32, b: bv32, n: nat)
    ensures Val(a ^ b, n) == Xor(Val(a, n), Val(b, n))
  {
    hide Val, Xor;
    ValBoth(a, b, n);
  }

  function LowOf(a: bv32): nat {
    if a & 1 == 1 then 1 else 0
  }

  lemma LowOfXor(a: bv32, b: bv32)
    ensures LowOf(Both(a, b)) == if LowOf(a) == LowOf(b) then 0 else 1
    ensures LowOf(a) < 2 && LowOf(b) < 2
  {
    XorLowBit(a, b);
  }

  lemma ValStep(a: bv32, n: nat)
    requires n > 0
    ensures Val(a, n) == 2 * Val(Half(a), n - 1) + LowOf(a)
  {
  }

  /** Multiplication by x on bit vectors, as multmodp() writes it. */
  function MulXBits(b: bv32): bv32 {
    if b & 1 == 1 then (b >> 1) ^ 0xedb88320 else b >> 1
  }

  /** The polynomial held by a bit vector. */
  function Poly(v: bv32): u32 {
    ValBound(v, 32);
    Pow2Values();
    Val(v, 32)
  }


  /** `n` single shifts; 32 of them leave nothing. */
  function ShrBits(v: bv32, n: nat): bv32
    decreases n
  {
    if n == 0 then v else ShrBits(v >> 1, n - 1)
  }

  lemma ShiftTwice(v: bv32)
    ensures (v >> 1) >> 1 == v >> 2
    ensures (v >> 2) >> 2 == v >> 4
    ensures (v >> 4) >> 4 == v >> 8
    ensures (((v >> 8) >> 8) >> 8) >> 8 == 0
  {
  }

  lemma ShrBits2(v: bv32, n: nat)
    ensures ShrBits(v, n + 2) == ShrBits(v >> 2, n)
  {
    ShiftTwice(v);
    assert ShrBits(v, n + 2) == ShrBits(v >> 1, n + 1);
  }

  lemma ShrBits4(v: bv32, n: nat)
    ensures ShrBits(v, n + 4) == ShrBits(v >> 4, n)
  {
    ShrBits2(v, n + 2);
    ShrBits2(v >> 2, n);
    ShiftTwice(v);
  }

  lemma ShrBits8(v: bv32, n: nat)
    ensures ShrBits(v, n + 8) == ShrBits(v >> 8, n)
  {
    ShrBits4(v, n + 4);
    ShrBits4(v >> 4, n);
    ShiftTwice(v);
  }

  lemma ShrBitsAll(v: bv32)
    ensures ShrBits(v, 32) == 0
  {
    ShrBits8(v, 24);
    ShrBits8(v >> 8, 16);
    ShrBits8((v >> 8) >> 8, 8);
    ShrBits8(((v >> 8) >> 8) >> 8, 0);
    ShiftTwice(v);
  }

  lemma {:induction false} ValStop(v: bv32, n: nat)
    requires ShrBits(v, n) == 0
    ensures Val(v, n + 1) == Val(v, n)
    decreases n
  {
    if n > 0 {
      ValStop(v >> 1, n - 1);
    }
  }

  lemma PolyHalf(v: bv32)
    ensures Poly(v >> 1) == Poly(v) / 2
    ensures v & 1 == 1 <==> Poly(v) % 2 == 1
  {
    ShrBitsAll(v);
    assert ShrBits(v, 32) == ShrBits(v >> 1, 31);
    ValStop(v >> 1, 31);
  }

  /** The number in the low four bits. */
  function NibbleVal(v: bv32): (r: nat)
    ensures r < 16
  {
    (if v & 1 != 0 then 1 else 0) + (if v & 2 != 0 then 2 else 0) + (if v & 4 != 0 then 4 else 0)
        + (if v & 8 != 0 then 8 else 0)
  }

  lemma NibbleBits(v: bv32)
    ensures v & 1 != 0 <==> v & 1 == 1
    ensures v & 2 != 0 <==> (v >> 1) & 1 == 1
    ensures v & 4 != 0 <==> (v >> 2) & 1 == 1
    ensures v & 8 != 0 <==> (v >> 3) & 1 == 1
    ensures (v >> 1) >> 1 == v >> 2 && (v >> 2) >> 1 == v >> 3 && (v >> 3) >> 1 == v >> 4
  {
  }

  lemma ValNibble(v: bv32, n: nat)
    ensures Val(v, n + 4) == NibbleVal(v) + 16 * Val(v >> 4, n)
  {
    NibbleBits(v);
    assert Val(v, n + 4) == (if v & 1 == 1 then 1 else 0) + 2 * Val(v >> 1, n + 3);
    assert Val(v >> 1, n + 3) == (if (v >> 1) & 1 == 1 then 1 else 0) + 2 * Val(v >> 2, n + 2);
    assert Val(v >> 2, n + 2) == (if (v >> 2) & 1 == 1 then 1 else 0) + 2 * Val(v >> 3, n + 1);
    assert Val(v >> 3, n + 1) == (if (v >> 3) & 1 == 1 then 1 else 0) + 2 * Val(v >> 4, n);
  }

  lemma Constants()
    ensures Poly(0) == 0 && Poly(0x8000_0000) == ONE && Poly(0xedb88320) == POLY && Poly(0x4000_0000) == XPow(1)
  {
    ZeroDigits();
    OneDigits();
    PolyDigits();
    PolyHalf(0x8000_0000);
    assert (0x8000_0000 as bv32) >> 1 == 0x4000_0000;
    assert XPow(1) == MulX(MulXn(ONE, 0));
  }

  lemma ZeroDigits()
    ensures Val(0, 28) == 0 && Val(0, 32) == 0
  {
    ValNibble(0, 0);
    ValNibble(0, 4);
    ValNibble(0, 8);
    ValNibble(0, 12);
    ValNibble(0, 16);
    ValNibble(0, 20);
    ValNibble(0, 24);
    ValNibble(0, 28);
  }

  lemma OneDigits()
    ensures Val(0x8000_0000, 32) == 0x8000_0000
  {
    ValNibble(0x8000_0000, 28);
    ValNibble(0x800_0000, 24);
    ValNibble(0x80_0000, 20);
    ValNibble(0x8_0000, 16);
    ValNibble(0x8000, 12);
    ValNibble(0x800, 8);
    ValNibble(0x80, 4);
    ValNibble(0x8, 0);
  }

  lemma PolyDigits()
    ensures Val(0xedb88320, 32) == 0xedb88320
  {
    ValNibble(0xe, 0);
    ValNibble(0xed, 4);
    assert Val(0xed, 8) == 0xed;
    ValNibble(0xedb, 8);
    ValNibble(0xedb8, 12);
    assert Val(0xedb8, 16) == 0xedb8;
    ValNibble(0xedb88, 16);
    ValNibble(0xedb883, 20);
    assert Val(0xedb883, 24) == 0xedb883;
    ValNibble(0xedb8832, 24);
    ValNibble(0xedb88320, 28);
  }

  lemma PolyXor(a: bv32, b: bv32)
    ensures Poly(a ^ b) == Xor(Poly(a), Poly(b))
  {
    ValXor(a, b, 32);
  }

  lemma PolyMulX(v: bv32)
    ensures Poly(MulXBits(v)) == MulX(Poly(v))
  {
    PolyHalf(v);
    Constants();
    PolyXor(v >> 1, 0xedb88320);
  }

  // Squaring, one coefficient at a time from the highest power down: if q is the square of p, then
  // x^2*q + c is the square of x*p + c for a constant c, since the cross terms cancel.

  function Coefficient(bit: bv32): bv32 {
    if bit != 0 then 0x8000_0000 else 0
  }

  function FeedSquare(q: bv32, bit: bv32): bv32 {
    (q >> 2) ^ (if q & 2 != 0 then 0xedb88320 else 0) ^ (if q & 1 != 0 then 0x76dc4190 else 0) ^ Coefficient(bit)
  }

  function FeedSquare4(q: bv32, v: bv32): bv32 {
    FeedSquare(FeedSquare(FeedSquare(FeedSquare(q, v & 1), v & 2), v & 4), v & 8)
  }

  function SquareNibbles(v0: bv32, v1: bv32, v2: bv32, v3: bv32, v4: bv32, v5: bv32, v6: bv32, v7: bv32): bv32 {
    var q := FeedSquare4(FeedSquare4(FeedSquare4(FeedSquare4(0, v0), v1), v2), v3);
    FeedSquare4(FeedSquare4(FeedSquare4(FeedSquare4(q, v4), v5), v6), v7)
  }

  /** The square of v modulo the CRC polynomial. */
  function SquareBits(v0: bv32): bv32 {
    var v1 := v0 >> 4;
    var v2 := v1 >> 4;
    var v3 := v2 >> 4;
    var v4 := v3 >> 4;
    var v5 := v4 >> 4;
    var v6 := v5 >> 4;
    var v7 := v6 >> 4;
    SquareNibbles(v0, v1, v2, v3, v4, v5, v6, v7)
  }

  lemma SquareOfSum(a: u32, c: u32)
    requires c == 0 || c == ONE
    ensures Mult(Xor32Of(a, c), Xor32Of(a, c)) == Xor(Mult(a, a), c)
  {
    MultLinear(a, c, Xor32Of(a, c));
    MultLinear(a, c, a);
    MultLinear(a, c, c);
    MultOne(c);
    ProductOfZero(0, 32);
    MultComm(a, c);
    XorSwap(Mult(a, a), Mult(a, c), Mult(a, c), c);
    XorComm(Mult(a, c), c);
    XorAssoc(Mult(a, a), Mult(a, c), Xor(c, Mult(a, c)));
    XorCancel(Mult(a, c), c);
  }

  lemma SquareOfShift(a: u32)
    ensures Mult(MulX(a), MulX(a)) == MulX(MulX(Mult(a, a)))
  {
    MulXOnce(a);
    ProductMulX(MulX(a), a, 1, 32);
    MultComm(MulX(a), a);
    ProductMulX(a, a, 1, 32);
    MulXOnce(Mult(a, a));
    MulXOnce(MulX(Mult(a, a)));
  }

  lemma MulXOnce(a: u32)
    ensures MulXn(a, 1) == MulX(a)
  {
    assert MulXn(a, 0) == a;
  }

  /** Multiplication by x^2 in one step. */
  function MulX2Bits(q: bv32): bv32 {
    (q >> 2) ^ (if q & 2 != 0 then 0xedb88320 else 0) ^ (if q & 1 != 0 then 0x76dc4190 else 0)
  }

  lemma MulXTwice(q: bv32)
    ensures MulXBits(MulXBits(q)) == MulX2Bits(q)
  {
    LowTwoBits(q);
    if q & 3 == 0 {
      MulXTwice0(q);
    } else if q & 3 == 1 {
      MulXTwice1(q);
    } else if q & 3 == 2 {
      MulXTwice2(q);
    } else {
      MulXTwice3(q);
    }
  }

  lemma LowTwoBits(q: bv32)
    ensures q & 3 == 0 || q & 3 == 1 || q & 3 == 2 || q & 3 == 3
  {
  }

  lemma MulXTwice0(q: bv32)
    requires q & 3 == 0
    ensures MulXBits(MulXBits(q)) == MulX2Bits(q)
  {
    assert q & 1 == 0 && q & 2 == 0;
    assert q & 1 == 0 && (q >> 1) & 1 == 0;
    assert (q >> 1) >> 1 == ((q >> 2) ^ 0) ^ 0;
  }

  lemma MulXTwice1(q: bv32)
    requires q & 3 == 1
    ensures MulXBits(MulXBits(q)) == MulX2Bits(q)
  {
    assert q & 1 != 0 && q & 2 == 0;
    assert q & 1 == 1 && ((q >> 1) ^ 0xedb88320) & 1 == 0;
    assert ((q >> 1) ^ 0xedb88320) >> 1 == ((q >> 2) ^ 0) ^ 0x76dc4190;
  }

  lemma MulXTwice2(q: bv32)
    requires q & 3 == 2
    ensures MulXBits(MulXBits(q)) == MulX2Bits(q)
  {
    assert q & 1 == 0 && q & 2 != 0;
    assert q & 1 == 0 && (q >> 1) & 1 == 1;
    assert ((q >> 1) >> 1) ^ 0xedb88320 == ((q >> 2) ^ 0xedb88320) ^ 0;
  }

  lemma MulXTwice3(q: bv32)
    requires q & 3 == 3
    ensures MulXBits(MulXBits(q)) == MulX2Bits(q)
  {
    assert q & 1 != 0 && q & 2 != 0;
    assert q & 1 == 1 && ((q >> 1) ^ 0xedb88320) & 1 == 1;
    assert (((q >> 1) ^ 0xedb88320) >> 1) ^ 0xedb88320 == ((q >> 2) ^ 0xedb88320) ^ 0x76dc4190;
  }

  lemma FeedSteps(q: bv32, bit: bv32)
    ensures FeedSquare(q, bit) == MulX2Bits(q) ^ Coefficient(bit)
  {
  }

  lemma FeedPoly(q: bv32, bit: bv32)
    ensures Poly(FeedSquare(q, bit)) == Xor(MulX(MulX(Poly(q))), Poly(Coefficient(bit)))
  {
    hide *;
    FeedSteps(q, bit);
    PolyMulX(q);
    PolyMulX(MulXBits(q));
    MulXTwice(q);
    PolyXor(MulX2Bits(q), Coefficient(bit));
  }

  lemma CoefficientPoly(bit: bv32)
    ensures Poly(Coefficient(bit)) == if bit != 0 then ONE else 0
  {
    Constants();
  }

  /** The polynomial x*p + c, for p without an x^31 term. */
  lemma FeedRoot(p: u32, c: u32)
    requires p % 2 == 0 && (c == 0 || c == ONE)
    ensures Xor32Of(MulX(p), c) == p / 2 + c
  {
    if c == 0 {
      XorZero(p / 2);
    } else {
      Pow2Values();
      ShlOne(31);
      LowBound(p / 2, 0);
      XorFields(0, p / 2, 1, 0, 31);
      ShlZero(31);
      XorZero(p / 2);
      XorZero(1);
    }
  }

  lemma FeedKeeps(p: u32, q: bv32, bit: bv32)
    requires p % 2 == 0 && Poly(q) == Mult(p, p)
    ensures var p' := p / 2 + if bit != 0 then ONE else 0; Poly(FeedSquare(q, bit)) == Mult(p', p')
  {
    hide *;
    var c := Poly(Coefficient(bit));
    CoefficientPoly(bit);
    FeedPoly(q, bit);
    SquareOfShift(p);
    SquareOfSum(MulX(p), c);
    FeedRoot(p, c);
  }

  lemma FeedSquare4Steps(q: bv32, v: bv32)
    ensures FeedSquare4(q, v) == FeedSquare(FeedSquare(FeedSquare(FeedSquare(q, v & 1), v & 2), v & 4), v & 8)
  {
  }

  /** Four steps of FeedRoot shift four new coefficients in at the top. */
  lemma FourRoots(p: u32, b1: bool, b2: bool, b3: bool, b4: bool) returns (p1: u32, p2: u32, p3: u32, p4: u32)
    requires p % 16 == 0
    ensures p1 == p / 2 + (if b1 then ONE else 0) && p1 % 2 == 0
    ensures p2 == p1 / 2 + (if b2 then ONE else 0) && p2 % 2 == 0
    ensures p3 == p2 / 2 + (if b3 then ONE else 0) && p3 % 2 == 0
    ensures p4 == p3 / 2 + (if b4 then ONE else 0)
    ensures p4 == p / 16 + 0x1000_0000 * ((if b1 then 1 else 0) + (if b2 then 2 else 0) + (if b3 then 4 else 0)
        + (if b4 then 8 else 0))
  {
    p1 := OneRoot(p, b1);
    p2 := OneRoot(p1, b2);
    p3 := OneRoot(p2, b3);
    p4 := OneRoot(p3, b4);
    Sixteenths(p);
  }

  lemma OneRoot(p: u32, b: bool) returns (q: u32)
    requires p % 2 == 0
    ensures q == p / 2 + if b then ONE else 0
  {
    q := p / 2 + if b then ONE else 0;
  }

  lemma Sixteenths(p: u32)
    requires p % 16 == 0
    ensures p == 16 * (p / 16)
  {
  }

  lemma NibbleKeeps(p: u32, q: bv32, v: bv32) returns (p4: u32, q4: bv32)
    requires p % 16 == 0 && Poly(q) == Mult(p, p)
    ensures p4 == p / 16 + 0x1000_0000 * NibbleVal(v) && q4 == FeedSquare4(q, v)
    ensures Poly(q4) == Mult(p4, p4)
  {
    p4, q4 := NibbleParts(p, q, v, v & 1, v & 2, v & 4, v & 8);
  }

  lemma NibbleParts(p: u32, q: bv32, v: bv32, v1: bv32, v2: bv32, v3: bv32, v4: bv32) returns (p4: u32, q4: bv32)
    requires p % 16 == 0 && Poly(q) == Mult(p, p)
    requires v1 == v & 1 && v2 == v & 2 && v3 == v & 4 && v4 == v & 8
    ensures p4 == p / 16 + 0x1000_0000 * NibbleVal(v) && q4 == FeedSquare4(q, v)
    ensures Poly(q4) == Mult(p4, p4)
  {
    var b1, b2, b3, b4 := v1 != 0, v2 != 0, v3 != 0, v4 != 0;
    assert NibbleVal(v) == (if b1 then 1 else 0) + (if b2 then 2 else 0) + (if b3 then 4 else 0)
        + (if b4 then 8 else 0);
    hide *;
    var p1, p2, p3, p' := FourRoots(p, b1, b2, b3, b4);
    var q1 := FeedSquare(q, v1);
    var q2 := FeedSquare(q1, v2);
    var q3 := FeedSquare(q2, v3);
    p4, q4 := p', FeedSquare(q3, v4);
    FeedKeeps(p, q, v1);
    FeedKeeps(p1, q1, v2);
    FeedKeeps(p2, q2, v3);
    FeedKeeps(p3, q3, v4);
    FeedSquare4Steps(q, v);
  }

  /** The number with the given eight hexadecimal digits, lowest first. */
  function Hex(d0: nat, d1: nat, d2: nat, d3: nat, d4: nat, d5: nat, d6: nat, d7: nat): nat {
    d0 + 0x10 * d1 + 0x100 * d2 + 0x1000 * d3 + 0x1_0000 * d4 + 0x10_0000 * d5 + 0x100_0000 * d6 + 0x1000_0000 * d7
  }

  lemma ValHalf(v0: bv32, v1: bv32, v2: bv32, v3: bv32, v4: bv32, n: nat)
    requires v1 == v0 >> 4 && v2 == v1 >> 4 && v3 == v2 >> 4 && v4 == v3 >> 4
    ensures Val(v0, n + 16) == NibbleVal(v0) + 0x10 * NibbleVal(v1) + 0x100 * NibbleVal(v2) + 0x1000 * NibbleVal(v3)
        + 0x1_0000 * Val(v4, n)
  {
    hide *;
    ValNibble(v0, n + 12);
    ValNibble(v1, n + 8);
    ValNibble(v2, n + 4);
    ValNibble(v3, n);
  }

  lemma PolyHalves(v0: bv32, v4: bv32, v8: bv32, lo: nat, hi: nat)
    requires Val(v0, 32) == lo + 0x1_0000 * Val(v4, 16) && Val(v4, 16) == hi + 0x1_0000 * Val(v8, 0)
    ensures Poly(v0) == lo + 0x1_0000 * hi
  {
  }

  lemma PolyNibbles(v0: bv32, v1: bv32, v2: bv32, v3: bv32, v4: bv32, v5: bv32, v6: bv32, v7: bv32)
    requires v1 == v0 >> 4 && v2 == v1 >> 4 && v3 == v2 >> 4 && v4 == v3 >> 4 && v5 == v4 >> 4 && v6 == v5 >> 4
    requires v7 == v6 >> 4
    ensures Poly(v0) == Hex(NibbleVal(v0), NibbleVal(v1), NibbleVal(v2), NibbleVal(v3),
                            NibbleVal(v4), NibbleVal(v5), NibbleVal(v6), NibbleVal(v7))
  {
    hide NibbleVal, Val, Poly;
    var v8 := v7 >> 4;
    ValHalf(v0, v1, v2, v3, v4, 16);
    ValHalf(v4, v5, v6, v7, v8, 0);
    PolyHalves(v0, v4, v8, NibbleVal(v0) + 0x10 * NibbleVal(v1) + 0x100 * NibbleVal(v2) + 0x1000 * NibbleVal(v3),
               NibbleVal(v4) + 0x10 * NibbleVal(v5) + 0x100 * NibbleVal(v6) + 0x1000 * NibbleVal(v7));
  }

  lemma HexRoots(d0: nat, d1: nat, d2: nat, d3: nat, d4: nat, d5: nat, d6: nat, d7: nat)
      returns (p1: u32, p2: u32, p3: u32, p4: u32, p5: u32, p6: u32, p7: u32, p8: u32)
    requires d0 < 16 && d1 < 16 && d2 < 16 && d3 < 16 && d4 < 16 && d5 < 16 && d6 < 16 && d7 < 16
    ensures p1 == 0x1000_0000 * d0
    ensures p1 % 16 == 0 && p2 == p1 / 16 + 0x1000_0000 * d1
    ensures p2 % 16 == 0 && p3 == p2 / 16 + 0x1000_0000 * d2
    ensures p3 % 16 == 0 && p4 == p3 / 16 + 0x1000_0000 * d3
    ensures p4 % 16 == 0 && p5 == p4 / 16 + 0x1000_0000 * d4
    ensures p5 % 16 == 0 && p6 == p5 / 16 + 0x1000_0000 * d5
    ensures p6 % 16 == 0 && p7 == p6 / 16 + 0x1000_0000 * d6
    ensures p7 % 16 == 0 && p8 == p7 / 16 + 0x1000_0000 * d7
    ensures p8 == Hex(d0, d1, d2, d3, d4, d5, d6, d7)
  {
    var e1 := 0x1000000 * d0;
    p1 := 16 * e1;
    var e2 := 0x100000 * d0 + 0x1000000 * d1;
    p2 := 16 * e2;
    var e3 := 0x10000 * d0 + 0x100000 * d1 + 0x1000000 * d2;
    p3 := 16 * e3;
    var e4 := 0x1000 * d0 + 0x10000 * d1 + 0x100000 * d2 + 0x1000000 * d3;
    p4 := 16 * e4;
    var e5 := 0x100 * d0 + 0x1000 * d1 + 0x10000 * d2 + 0x100000 * d3 + 0x1000000 * d4;
    p5 := 16 * e5;
    var e6 := 0x10 * d0 + 0x100 * d1 + 0x1000 * d2 + 0x10000 * d3 + 0x100000 * d4 + 0x1000000 * d5;
    p6 := 16 * e6;
    var e7 := 0x1 * d0 + 0x10 * d1 + 0x100 * d2 + 0x1000 * d3 + 0x10000 * d4 + 0x100000 * d5 + 0x1000000 * d6;
    p7 := 16 * e7;
    p8 := e7 + 0x1000_0000 * d7;
  }

  /** SquareBits squares: the polynomial fed in is v itself. */
  lemma SquareBitsSquares(v: bv32)
    ensures Poly(SquareBits(v)) == Mult(Poly(v), Poly(v))
  {
    var v1 := v >> 4;
    var v2 := v1 >> 4;
    var v3 := v2 >> 4;
    var v4 := v3 >> 4;
    var v5 := v4 >> 4;
    var v6 := v5 >> 4;
    var v7 := v6 >> 4;
    assert SquareBits(v) == SquareNibbles(v, v1, v2, v3, v4, v5, v6, v7);
    hide *;
    SquareOfNibbles(v, v1, v2, v3, v4, v5, v6, v7);
  }

  lemma SquareOfNibbles(v0: bv32, v1: bv32, v2: bv32, v3: bv32, v4: bv32, v5: bv32, v6: bv32, v7: bv32)
    requires v1 == v0 >> 4 && v2 == v1 >> 4 && v3 == v2 >> 4 && v4 == v3 >> 4 && v5 == v4 >> 4 && v6 == v5 >> 4
    requires v7 == v6 >> 4
    ensures Poly(SquareNibbles(v0, v1, v2, v3, v4, v5, v6, v7)) == Mult(Poly(v0), Poly(v0))
  {
    hide *;
    SquareOfZero();
    PolyNibbles(v0, v1, v2, v3, v4, v5, v6, v7);
    var p1, p2, p3, p4, p5, p6, p7, p8 := HexRoots(NibbleVal(v0), NibbleVal(v1), NibbleVal(v2), NibbleVal(v3),
                                                   NibbleVal(v4), NibbleVal(v5), NibbleVal(v6), NibbleVal(v7));
    var r1, q1 := NibbleKeeps(0, 0, v0);
    var r2, q2 := NibbleKeeps(p1, q1, v1);
    var r3, q3 := NibbleKeeps(p2, q2, v2);
    var r4, q4 := NibbleKeeps(p3, q3, v3);
    var r5, q5 := NibbleKeeps(p4, q4, v4);
    var r6, q6 := NibbleKeeps(p5, q5, v5);
    var r7, q7 := NibbleKeeps(p6, q6, v6);
    var r8, q8 := NibbleKeeps(p7, q7, v7);
    SquareSteps(v0, v1, v2, v3, v4, v5, v6, v7, q1, q2, q3, q4, q5, q6, q7, q8);
  }

  lemma SquareOfZero()
    ensures Poly(0) == Mult(0, 0)
  {
    Constants();
    ProductOfZero(0, 32);
  }

  lemma SquareSteps(v0: bv32, v1: bv32, v2: bv32, v3: bv32, v4: bv32, v5: bv32, v6: bv32, v7: bv32, q1: bv32,
      q2: bv32, q3: bv32, q4: bv32, q5: bv32, q6: bv32, q7: bv32, q8: bv32)
    requires q1 == FeedSquare4(0, v0) && q2 == FeedSquare4(q1, v1) && q3 == FeedSquare4(q2, v2)
    requires q4 == FeedSquare4(q3, v3)
    requires q5 == FeedSquare4(q4, v4) && q6 == FeedSquare4(q5, v5) && q7 == FeedSquare4(q6, v6)
    requires q8 == FeedSquare4(q7, v7)
    ensures SquareNibbles(v0, v1, v2, v3, v4, v5, v6, v7) == q8
  {
    hide FeedSquare4;
  }

  // Repeated squaring of x.

  /** The table of x^(2^k) shipped in crc32.h. */
  const X2N_TABLE: seq<bv32> := [
    0x40000000, 0x20000000, 0x08000000, 0x00800000, 0x00008000, 0xedb88320, 0xb1e6b092, 0xa06a2517,
    0xed627dae, 0x88d14467, 0xd7bbfe6a, 0xec447f11, 0x8e7ea170, 0x6427800e, 0x4d47bae0, 0x09fe548f,
    0x83852d0f, 0x30362f1a, 0x7b5a9cc3, 0x31fec169, 0x9fec022a, 0x6c8dedc4, 0x15d6874d, 0x5fde7a4e,
    0xbad90e37, 0x2e4e5eef, 0x4eaba214, 0xa8a472c0, 0x429a969e, 0x148d302a, 0xc40ba6d0, 0xc4e22c3c
  ]

  /** Entry `k` of the table, which wraps after 32 entries. */
  function Entry(k: nat): bv32 {
    X2N_TABLE[k % 32]
  }

  lemma Squarings0()
    ensures SquareBits(0x40000000) == 0x20000000
    ensures SquareBits(0x20000000) == 0x08000000
    ensures SquareBits(0x08000000) == 0x00800000
    ensures SquareBits(0x00800000) == 0x00008000
    ensures SquareBits(0x00008000) == 0xedb88320
    ensures SquareBits(0xedb88320) == 0xb1e6b092
    ensures SquareBits(0xb1e6b092) == 0xa06a2517
    ensures SquareBits(0xa06a2517) == 0xed627dae
  {
  }

  lemma Squarings1()
    ensures SquareBits(0xed627dae) == 0x88d14467
    ensures SquareBits(0x88d14467) == 0xd7bbfe6a
    ensures SquareBits(0xd7bbfe6a) == 0xec447f11
    ensures SquareBits(0xec447f11) == 0x8e7ea170
    ensures SquareBits(0x8e7ea170) == 0x6427800e
    ensures SquareBits(0x6427800e) == 0x4d47bae0
    ensures SquareBits(0x4d47bae0) == 0x09fe548f
    ensures SquareBits(0x09fe548f) == 0x83852d0f
  {
  }

  lemma Squarings2()
    ensures SquareBits(0x83852d0f) == 0x30362f1a
    ensures SquareBits(0x30362f1a) == 0x7b5a9cc3
    ensures SquareBits(0x7b5a9cc3) == 0x31fec169
    ensures SquareBits(0x31fec169) == 0x9fec022a
    ensures SquareBits(0x9fec022a) == 0x6c8dedc4
    ensures SquareBits(0x6c8dedc4) == 0x15d6874d
    ensures SquareBits(0x15d6874d) == 0x5fde7a4e
    ensures SquareBits(0x5fde7a4e) == 0xbad90e37
  {
  }

  lemma Squarings3()
    ensures SquareBits(0xbad90e37) == 0x2e4e5eef
    ensures SquareBits(0x2e4e5eef) == 0x4eaba214
    ensures SquareBits(0x4eaba214) == 0xa8a472c0
    ensures SquareBits(0xa8a472c0) == 0x429a969e
    ensures SquareBits(0x429a969e) == 0x148d302a
    ensures SquareBits(0x148d302a) == 0xc40ba6d0
    ensures SquareBits(0xc40ba6d0) == 0xc4e22c3c
    ensures SquareBits(0xc4e22c3c) == 0x40000000
  {
  }

  /** Every entry is the square of the one before, and the first is the square of the last. */
  lemma TableSquares(k: nat)
    ensures SquareBits(Entry(k)) == Entry(k + 1)
  {
    hide SquareBits;
    var i := k % 32;
    assert (k + 1) % 32 == if i == 31 then 0 else i + 1;
    if i < 8 {
      Squarings0();
    } else if i < 16 {
      Squarings1();
    } else if i < 24 {
      Squarings2();
    } else {
      Squarings3();
    }
  }

  lemma FirstEntry()
    ensures Poly(Entry(0)) == XPow(Pow2(0))
  {
    Constants();
  }

  lemma Pow2Step(k: nat)
    requires k > 0
    ensures Pow2(k) == Pow2(k - 1) + Pow2(k - 1)
  {
  }

  /** The shipped table holds x^(2^k) for every k, however far past its end k wraps. */
  lemma {:induction false} TableHoldsPowers(k: nat)
    ensures Poly(Entry(k)) == XPow(Pow2(k))
  {
    hide *;
    if k == 0 {
      FirstEntry();
    } else {
      TableHoldsPowers(k - 1);
      TableSquares(k - 1);
      SquareBitsSquares(Entry(k - 1));
      XPowAdd(Pow2(k - 1), Pow2(k - 1));
      Pow2Step(k);
    }
  }

  lemma Mod32Twice(k: nat)
    ensures (k % 32) % 32 == k % 32
  {
  }

  lemma EntryWraps(k: nat)
    ensures Entry(k) == Entry(k % 32)
  {
    Mod32Twice(k);
    var i, j := k % 32, (k % 32) % 32;
    assert Entry(k) == X2N_TABLE[i];
    assert Entry(i) == X2N_TABLE[j];
  }

  /** x^(2^32) is x, so the exponent of the exponent only matters modulo 32. */
  lemma PowersWrap(k: nat)
    ensures XPow(Pow2(k)) == XPow(Pow2(k % 32))
  {
    hide *;
    TableHoldsPowers(k);
    TableHoldsPowers(k % 32);
    EntryWraps(k);
  }
}
