/** Machine words as natural numbers: bitwise operations are defined bit by bit, and shifts are
    multiplication and division by powers of two. */
module Bits {

  type byte = x: int | 0 <= x < 256
  type u32 = x: int | 0 <= x < 0x1_0000_0000

  function Pow2(k: nat): (r: nat)
    ensures r > 0
  {
    if k == 0 then 1 else 2 * Pow2(k - 1)
  }

  /** Bitwise exclusive or. */
  function Xor(a: nat, b: nat): nat
    decreases a + b
  {
    if a == 0 && b == 0 then 0 else (if a % 2 == b % 2 then 0 else 1) + 2 * Xor(a / 2, b / 2)
  }

  /** Bitwise and. */
  function And(a: nat, b: nat): nat {
    if a == 0 || b == 0 then 0 else (if a % 2 == 1 && b % 2 == 1 then 1 else 0) + 2 * And(a / 2, b / 2)
  }

  /** Bitwise or. */
  function Or(a: nat, b: nat): nat
    decreases a + b
  {
    if a == 0 && b == 0 then 0 else (if a % 2 == 1 || b % 2 == 1 then 1 else 0) + 2 * Or(a / 2, b / 2)
  }

  /** Bit number `k` of `a`. */
  predicate Bit(a: nat, k: nat) {
    if k == 0 then a % 2 == 1 else Bit(a / 2, k - 1)
  }

  lemma XorHalf(a: nat, b: nat)
    ensures Xor(a, b) / 2 == Xor(a / 2, b / 2)
    ensures Xor(a, b) % 2 == if a % 2 == b % 2 then 0 else 1
  {
  }

  lemma {:induction false} XorZero(a: nat)
    ensures Xor(a, 0) == a
    ensures Xor(0, a) == a
  {
    if a > 0 {
      XorZero(a / 2);
    }
  }

  lemma {:induction false} XorSelf(a: nat)
    ensures Xor(a, a) == 0
  {
    if a > 0 {
      XorSelf(a / 2);
    }
  }

  lemma {:induction false} XorComm(a: nat, b: nat)
    ensures Xor(a, b) == Xor(b, a)
    decreases a + b
  {
    if a + b > 0 {
      XorComm(a / 2, b / 2);
    }
  }

  lemma {:induction false} XorAssoc(a: nat, b: nat, c: nat)
    ensures Xor(Xor(a, b), c) == Xor(a, Xor(b, c))
    decreases a + b + c
  {
    if a + b + c > 0 {
      XorAssoc(a / 2, b / 2, c / 2);
      var l, r := Xor(Xor(a, b), c), Xor(a, Xor(b, c));
      assert l / 2 == r / 2 && l % 2 == r % 2 by {
        XorHalf(a, b);
        XorHalf(b, c);
        XorHalf(Xor(a, b), c);
        XorHalf(a, Xor(b, c));
      }
    }
  }

  /** Xor of two pairs, regrouped. */
  lemma XorSwap(a: nat, b: nat, c: nat, d: nat)
    ensures Xor(Xor(a, b), Xor(c, d)) == Xor(Xor(a, c), Xor(b, d))
  {
    XorAssoc(a, b, Xor(c, d));
    XorAssoc(b, c, d);
    XorComm(b, c);
    XorAssoc(c, b, d);
    XorAssoc(a, c, Xor(b, d));
  }

  lemma XorCancel(a: nat, b: nat)
    ensures Xor(a, Xor(a, b)) == b
    ensures Xor(Xor(b, a), a) == b
  {
    XorAssoc(a, a, b);
    XorAssoc(b, a, a);
    XorSelf(a);
    XorZero(b);
  }

  lemma {:induction false} XorBound(a: nat, b: nat, k: nat)
    requires a < Pow2(k) && b < Pow2(k)
    ensures Xor(a, b) < Pow2(k)
  {
    if k > 0 {
      XorBound(a / 2, b / 2, k - 1);
    }
  }

  lemma {:induction false} Pow2Up(j: nat, k: nat)
    requires j <= k
    ensures Pow2(j) <= Pow2(k)
  {
    if j < k {
      Pow2Up(j, k - 1);
    }
  }

  lemma Pow2OfThree()
    ensures Pow2(3) == 8
  {
  }

  lemma Pow2Values()
    ensures Pow2(8) == 256 && Pow2(16) == 0x1_0000 && Pow2(24) == 0x100_0000 && Pow2(31) == 0x8000_0000
    ensures Pow2(32) == 0x1_0000_0000
  {
    assert Pow2(4) == 16;
    assert Pow2(8) == 256;
    assert Pow2(12) == 0x1000;
    assert Pow2(16) == 0x1_0000;
    assert Pow2(20) == 0x10_0000;
    assert Pow2(24) == 0x100_0000;
    assert Pow2(28) == 0x1000_0000;
    assert Pow2(31) == 0x8000_0000;
  }

  lemma Xor32(a: u32, b: u32)
    ensures Xor(a, b) < 0x1_0000_0000
  {
    Pow2Values();
    XorBound(a, b, 32);
  }

  function Xor32Of(a: u32, b: u32): u32 {
    Xor32(a, b);
    Xor(a, b)
  }

  /** Shifts, and the low `k` bits. */
  function Shr(a: nat, k: nat): nat {
    if k == 0 then a else Shr(a / 2, k - 1)
  }

  function Shl(a: nat, k: nat): nat {
    if k == 0 then a else 2 * Shl(a, k - 1)
  }

  function Low(a: nat, k: nat): nat {
    if k == 0 then 0 else a % 2 + 2 * Low(a / 2, k - 1)
  }

  lemma {:induction false} LowBound(a: nat, k: nat)
    ensures Low(a, k) < Pow2(k)
  {
    if k > 0 {
      LowBound(a / 2, k - 1);
    }
  }

  /** Shifting and masking commute with exclusive or. */
  lemma {:induction false} XorSplit(a: nat, b: nat, k: nat)
    ensures Shr(Xor(a, b), k) == Xor(Shr(a, k), Shr(b, k))
    ensures Low(Xor(a, b), k) == Xor(Low(a, k), Low(b, k))
  {
    hide Xor;
    XorHalf(a, b);
    XorZero(0);
    if k > 0 {
      XorSplit(a / 2, b / 2, k - 1);
      XorDouble(Low(a / 2, k - 1), a % 2, Low(b / 2, k - 1), b % 2);
    }
  }

  lemma {:induction false} XorShl(a: nat, b: nat, k: nat)
    ensures Shl(Xor(a, b), k) == Xor(Shl(a, k), Shl(b, k))
  {
    if k > 0 {
      XorShl(a, b, k - 1);
      XorHalf(2 * Shl(a, k - 1), 2 * Shl(b, k - 1));
    }
  }

  lemma XorDouble(u: nat, i: nat, v: nat, j: nat)
    requires i < 2 && j < 2
    ensures Xor(2 * u + i, 2 * v + j) == 2 * Xor(u, v) + if i == j then 0 else 1
  {
    assert (2 * u + i) / 2 == u && (2 * v + j) / 2 == v;
    XorHalf(2 * u + i, 2 * v + j);
  }

  /** Fields above and below bit `k` combine independently. */
  lemma {:induction false} XorFields(hi: nat, lo: nat, hi': nat, lo': nat, k: nat)
    requires lo < Pow2(k) && lo' < Pow2(k)
    ensures Xor(Shl(hi, k) + lo, Shl(hi', k) + lo') == Shl(Xor(hi, hi'), k) + Xor(lo, lo')
  {
    hide Xor;
    if k == 0 {
      XorZero(0);
    } else {
      XorFields(hi, lo / 2, hi', lo' / 2, k - 1);
      XorDouble(Shl(hi, k - 1) + lo / 2, lo % 2, Shl(hi', k - 1) + lo' / 2, lo' % 2);
      XorDouble(lo / 2, lo % 2, lo' / 2, lo' % 2);
    }
  }

  lemma {:induction false} ShlBound(a: nat, j: nat, k: nat)
    requires a < Pow2(j)
    ensures Shl(a, k) < Pow2(j + k)
  {
    if k > 0 {
      ShlBound(a, j, k - 1);
    }
  }

  lemma Shl8(a: nat)
    ensures Shl(a, 8) == 256 * a
  {
    assert Shl(a, 1) == 2 * a;
    assert Shl(a, 3) == 8 * a;
    assert Shl(a, 5) == 32 * a;
    assert Shl(a, 7) == 128 * a;
  }

  lemma XorShift8(a: nat, b: nat)
    ensures Xor(a, b) / 256 == Xor(a / 256, b / 256)
    ensures Xor(a, b) % 256 == Xor(a % 256, b % 256)
  {
    Pow2Values();
    Shl8(a / 256);
    Shl8(b / 256);
    Shl8(Xor(a / 256, b / 256));
    XorFields(a / 256, a % 256, b / 256, b % 256, 8);
    XorBound(a % 256, b % 256, 8);
  }

  /** Putting a value below bit `k` under a shifted one. */
  lemma {:induction false} OrFields(lo: nat, hi: nat, k: nat)
    requires lo < Pow2(k)
    ensures Or(lo, Shl(hi, k)) == lo + Shl(hi, k)
  {
    if k == 0 {
      OrZero(hi);
    } else {
      OrFields(lo / 2, hi, k - 1);
    }
  }

  /** What is shifted beyond them does not change the low bits. */
  lemma {:induction false} OrLow(lo: nat, hi: nat, k: nat)
    ensures Low(Or(lo, Shl(hi, k)), k) == Low(lo, k)
  {
    if k > 0 {
      OrHalf(lo, Shl(hi, k));
      OrLow(lo / 2, hi, k - 1);
    }
  }

  lemma OrHalf(a: nat, b: nat)
    ensures Or(a, b) / 2 == Or(a / 2, b / 2)
    ensures b % 2 == 0 ==> Or(a, b) % 2 == a % 2
  {
  }

  lemma {:induction false} OrZero(a: nat)
    ensures Or(0, a) == a
  {
    if a > 0 {
      OrZero(a / 2);
    }
  }

  lemma Or16(lo: nat, hi: nat)
    requires lo < 0x1_0000
    ensures Or(lo, Shl(hi, 16)) == lo + hi * 0x1_0000
  {
    Pow2Values();
    OrFields(lo, hi, 16);
    ShlAdd(hi, 8, 8);
    Shl8(hi);
    Shl8(256 * hi);
  }

  lemma {:induction false} ShlAdd(a: nat, j: nat, k: nat)
    ensures Shl(a, j + k) == Shl(Shl(a, j), k)
  {
    if k > 0 {
      ShlAdd(a, j, k - 1);
    }
  }

  /** A mask of the low `k` bits keeps exactly those bits. */
  lemma {:induction false} AndMask(a: nat, k: nat)
    ensures And(a, Pow2(k) - 1) == Low(a, k)
  {
    if k == 0 {
    } else if a == 0 {
      AndMask(0, k - 1);
    } else {
      assert (Pow2(k) - 1) / 2 == Pow2(k - 1) - 1;
      assert (Pow2(k) - 1) % 2 == 1;
      AndMask(a / 2, k - 1);
    }
  }

  /** A single-bit mask tests that bit. */
  lemma {:induction false} AndBit(a: nat, k: nat)
    ensures And(a, Pow2(k)) != 0 <==> Bit(a, k)
  {
    if a == 0 {
      BitOfZero(k);
    } else if k == 0 {
      assert And(a / 2, 0) == 0;
    } else {
      AndBit(a / 2, k - 1);
    }
  }

  lemma {:induction false} BitOfZero(k: nat)
    ensures !Bit(0, k)
  {
    if k > 0 {
      BitOfZero(k - 1);
    }
  }

  /** One more bit on the right, one more bit on the left. */
  lemma {:induction false} ShrStep(a: nat, k: nat)
    ensures Shr(a, k) == 2 * Shr(a, k + 1) + if Bit(a, k) then 1 else 0
  {
    if k > 0 {
      ShrStep(a / 2, k - 1);
    }
  }

  lemma {:induction false} LowStep(a: nat, k: nat)
    ensures Low(a, k + 1) == Low(a, k) + if Bit(a, k) then Pow2(k) else 0
  {
    if k > 0 {
      LowStep(a / 2, k - 1);
    }
  }

  lemma {:induction false} LowAll(a: nat, k: nat)
    requires a < Pow2(k)
    ensures Low(a, k) == a && Shr(a, k) == 0
  {
    if k > 0 {
      LowAll(a / 2, k - 1);
    }
  }

  lemma {:induction false} BitXor(a: nat, b: nat, k: nat)
    ensures Bit(Xor(a, b), k) <==> Bit(a, k) != Bit(b, k)
  {
    XorHalf(a, b);
    if k > 0 {
      BitXor(a / 2, b / 2, k - 1);
    }
  }
}
