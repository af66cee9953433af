/** The rolling hash of three bytes that indexes the hash chains of deflate.c. */
module HashFn {
  import opened Bits

  datatype HashConfig = HashConfig(bits: nat, shift: nat)

  predicate GoodConfig(c: HashConfig) {
    8 <= c.bits <= 16 && c.bits <= 3 * c.shift
  }

  /** UPDATE_HASH. */
  function UpdateHash(c: HashConfig, h: nat, b: byte): (r: nat)
    ensures r < Pow2(c.bits)
  {
    LowBound(Xor(Shl(h, c.shift), b), c.bits);
    Low(Xor(Shl(h, c.shift), b), c.bits)
  }

  function Hash2(c: HashConfig, b0: byte, b1: byte): nat {
    UpdateHash(c, b0, b1)
  }

  function Hash3(c: HashConfig, b0: byte, b1: byte, b2: byte): (r: nat)
    ensures r < Pow2(c.bits)
  {
    UpdateHash(c, Hash2(c, b0, b1), b2)
  }

  /** What is left of a hash value after one shift. */
  function Shifted(c: HashConfig, h: nat): nat {
    Low(Shl(h, c.shift), c.bits)
  }

  /** Is h as good as the hash of these two bytes for hashing a third? */
  predicate Rolls(c: HashConfig, h: nat, b0: byte, b1: byte) {
    Shifted(c, h) == Shifted(c, Hash2(c, b0, b1))
  }

  lemma {:induction false} LowLow(a: nat, k: nat, n: nat)
    requires k <= n
    ensures Low(Low(a, n), k) == Low(a, k)
    decreases k
  {
    if k > 0 {
      LowLow(a / 2, k - 1, n - 1);
    }
  }

  lemma {:induction false} LowShl(a: nat, s: nat, n: nat)
    ensures Low(Shl(Low(a, n), s), n) == Low(Shl(a, s), n)
  {
    hide Low;
    if s == 0 {
      LowLow(a, n, n);
    } else if n == 0 {
      LowNone(Shl(Low(a, n), s));
      LowNone(Shl(a, s));
    } else {
      LowShl(a, s - 1, n);
      LowLow(Shl(Low(a, n), s - 1), n - 1, n);
      LowLow(Shl(a, s - 1), n - 1, n);
      LowDouble(Shl(Low(a, n), s - 1), n);
      LowDouble(Shl(a, s - 1), n);
    }
  }

  lemma LowNone(a: nat)
    ensures Low(a, 0) == 0
  {
  }

  lemma LowDouble(a: nat, n: nat)
    requires n > 0
    ensures Low(2 * a, n) == 2 * Low(a, n - 1)
  {
    LowStepDown(2 * a, n);
    hide Low;
  }

  lemma LowStepDown(a: nat, n: nat)
    requires n > 0
    ensures Low(a, n) == a % 2 + 2 * Low(a / 2, n - 1)
  {
  }

  lemma {:induction false} LowShlZero(a: nat, s: nat, n: nat)
    requires n <= s
    ensures Low(Shl(a, s), n) == 0
  {
    if n > 0 {
      LowShlZero(a, s - 1, n - 1);
    }
  }

  lemma UpdateSplit(c: HashConfig, h: nat, b: byte)
    requires GoodConfig(c)
    ensures UpdateHash(c, h, b) == Xor(Shifted(c, h), b)
  {
    XorSplit(Shl(h, c.shift), b, c.bits);
    ByteFits(b, c.bits);
  }

  lemma ByteFits(b: byte, n: nat)
    requires n >= 8
    ensures Low(b, n) == b
  {
    Pow2Values();
    Pow2Up(8, n);
    LowAll(b, n);
  }

  lemma ShiftedXor(c: HashConfig, a: nat, b: nat)
    ensures Shifted(c, Xor(a, b)) == Xor(Shifted(c, a), Shifted(c, b))
  {
    XorShl(a, b, c.shift);
    XorSplit(Shl(a, c.shift), Shl(b, c.shift), c.bits);
  }

  /** The hash of three bytes: each shifted past the next, and cut to the bits of the table. */
  lemma HashOfThree(c: HashConfig, b0: byte, b1: byte, b2: byte)
    ensures Hash3(c, b0, b1, b2) == Low(Xor(Xor(Shl(b0, 2 * c.shift), Shl(b1, c.shift)), b2), c.bits)
  {
    hide Low, Xor, Shl;
    var s, n := c.shift, c.bits;
    var two := Xor(Shl(b0, s), b1);
    LowShl(two, s, n);
    XorShl(Shl(b0, s), b1, s);
    ShlAdd(b0, s, s);
    XorSplit(Shl(Low(two, n), s), b2, n);
    XorSplit(Shl(two, s), b2, n);
  }

  /** After three shifts the oldest byte no longer takes part. */
  lemma ShiftedThrice(c: HashConfig, h: nat)
    requires GoodConfig(c)
    ensures Shifted(c, Shifted(c, Shifted(c, h))) == 0
  {
    var s, n := c.shift, c.bits;
    LowShl(Shl(h, s), s, n);
    ShlAdd(h, s, s);
    LowShl(Shl(h, 2 * s), s, n);
    ShlAdd(h, 2 * s, s);
    LowShlZero(h, 3 * s, n);
  }

  /** Rolling: with a good h for b0 b1, adding b2 gives the hash of the three and a good h for b1 b2. */
  lemma RollOn(c: HashConfig, h: nat, b0: byte, b1: byte, b2: byte)
    requires GoodConfig(c) && Rolls(c, h, b0, b1)
    ensures UpdateHash(c, h, b2) == Hash3(c, b0, b1, b2)
    ensures Rolls(c, UpdateHash(c, h, b2), b1, b2)
  {
    hide Shifted, UpdateHash, Xor;
    UpdateSplit(c, h, b2);
    UpdateSplit(c, Hash2(c, b0, b1), b2);
    UpdateSplit(c, b0, b1);
    UpdateSplit(c, b1, b2);
    var z := Shifted(c, b0);
    ShiftedXor(c, z, b1);
    ShiftedXor(c, Xor(Shifted(c, z), Shifted(c, b1)), b2);
    ShiftedXor(c, Shifted(c, z), Shifted(c, b1));
    ShiftedXor(c, Shifted(c, b1), b2);
    ShiftedThrice(c, b0);
    XorZero(Shifted(c, Shifted(c, b1)));
  }

  lemma RollsFresh(c: HashConfig, b0: byte, b1: byte)
    ensures Rolls(c, UpdateHash(c, b0, b1), b0, b1)
  {
  }

  /** Equal hashes and two equal bytes leave no choice for the third. */
  lemma ThirdByte(c: HashConfig, b0: byte, b1: byte, b2: byte, b2': byte)
    requires GoodConfig(c) && Hash3(c, b0, b1, b2) == Hash3(c, b0, b1, b2')
    ensures b2 == b2'
  {
    hide Shifted, UpdateHash, Xor;
    var h := Hash2(c, b0, b1);
    UpdateSplit(c, h, b2);
    UpdateSplit(c, h, b2');
    XorCancel(Shifted(c, h), b2);
    XorCancel(Shifted(c, h), b2');
  }
}
