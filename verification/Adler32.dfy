/** adler32.c: the Adler-32 checksum of RFC 1950, computed with deferred and division-free
    reductions, and combined over concatenation. */
module Adler32 {
  import opened Bits

  const BASE: nat := 65521
  const NMAX: nat := 5552
  const MAX32: nat := 0xffff_ffff

  // The definition: two sums modulo BASE, one byte at a time (RFC 1950, sections 2.2 and 8.2).

  datatype Sums = Sums(s1: nat, s2: nat)

  function Step(s: Sums, b: byte): (r: Sums)
    ensures r.s1 < BASE && r.s2 < BASE
  {
    var s1 := (s.s1 + b) % BASE;
    Sums(s1, (s.s2 + s1) % BASE)
  }

  function Adler(s: Sums, data: seq<byte>): Sums {
    if |data| == 0 then s else Step(Adler(s, data[..|data| - 1]), data[|data| - 1])
  }

  function Split(adler: u32): Sums {
    Sums(adler % 0x1_0000, adler / 0x1_0000)
  }

  function Join(s: Sums): nat {
    s.s1 + s.s2 * 0x1_0000
  }

  /** A starting value with both halves reduced, as every adler32() result is. */
  predicate Reduced(adler: u32) {
    Split(adler).s1 < BASE && Split(adler).s2 < BASE
  }

  // The same sums without reduction.

  function Raw(s: Sums, data: seq<byte>): Sums {
    if |data| == 0 then s
    else
      var r := Raw(s, data[..|data| - 1]);
      Sums(r.s1 + data[|data| - 1], r.s2 + r.s1 + data[|data| - 1])
  }

  function Modulo(s: Sums): Sums {
    Sums(s.s1 % BASE, s.s2 % BASE)
  }

  lemma AddMod(a: nat, b: nat)
    ensures (a % BASE + b) % BASE == (a + b) % BASE
  {
  }

  lemma StepModulo(s: Sums, b: byte)
    ensures Step(Modulo(s), b) == Modulo(Sums(s.s1 + b, s.s2 + s.s1 + b))
  {
    AddMod(s.s1, b);
    AddMod(s.s2, (s.s1 + b) % BASE);
    AddMod(s.s1 + b, s.s2);
  }

  /** Reducing late gives the defined sums. */
  lemma {:induction false} RawModulo(s: Sums, data: seq<byte>)
    ensures Adler(Modulo(s), data) == Modulo(Raw(s, data))
  {
    if |data| > 0 {
      RawModulo(s, data[..|data| - 1]);
      StepModulo(Raw(s, data[..|data| - 1]), data[|data| - 1]);
    }
  }

  lemma {:induction false} AdlerConcat(s: Sums, a: seq<byte>, b: seq<byte>)
    ensures Adler(s, a + b) == Adler(Adler(s, a), b)
  {
    if |b| == 0 {
      assert a + b == a;
    } else {
      assert (a + b)[..|a + b| - 1] == a + b[..|b| - 1];
      AdlerConcat(s, a, b[..|b| - 1]);
    }
  }

  /** Without reduction the sums of n bytes stay below these bounds. */
  lemma {:induction false} RawBound(s: Sums, data: seq<byte>)
    ensures var n := |data|;
      && s.s1 <= Raw(s, data).s1 <= s.s1 + 255 * n
      && s.s2 <= Raw(s, data).s2 && 2 * Raw(s, data).s2 <= 2 * s.s2 + 2 * n * s.s1 + 255 * n * (n + 1)
  {
    if |data| > 0 {
      var n := |data|;
      RawBound(s, data[..n - 1]);
      assert 2 * n * s.s1 == 2 * (n - 1) * s.s1 + 2 * s.s1;
      assert 255 * n * (n + 1) == 255 * (n - 1) * n + 2 * 255 * n;
    }
  }

  lemma MulMono(a: nat, b: nat, c: nat)
    requires a <= b
    ensures a * c <= b * c && c * a <= c * b
  {
  }

  lemma TriangleMono(n: nat, m: nat)
    requires n <= m
    ensures n * (n + 1) <= m * (m + 1)
  {
    MulMono(n, m, n + 1);
    MulMono(n + 1, m + 1, m);
  }

  /** Twice the bound of the comment beside NMAX, for blocks of n bytes. */
  function TwiceBound(n: nat): nat {
    255 * (n * (n + 1)) + 2 * (n + 1) * (BASE - 1)
  }

  /** NMAX is exactly the largest block for which the second sum cannot exceed 32 bits. */
  lemma NmaxIsLargest(n: nat)
    ensures TwiceBound(n) <= 2 * MAX32 <==> n <= NMAX
  {
    if n <= NMAX {
      TriangleMono(n, NMAX);
    } else {
      TriangleMono(NMAX + 1, n);
    }
  }

  /** A block of NMAX bytes fits 32 bits even from unreduced halves. */
  lemma BlockFits(s: Sums, data: seq<byte>)
    requires s.s1 <= 0xffff && s.s2 <= 0xffff && |data| <= NMAX
    ensures Raw(s, data).s1 <= MAX32 && Raw(s, data).s2 <= MAX32
  {
    var n := |data|;
    RawBound(s, data);
    BlockArithmetic(n, s.s1, 0xffff, NMAX);
  }

  lemma BlockArithmetic(n: nat, s1: nat, max1: nat, m: nat)
    requires n <= m && s1 <= max1
    ensures 2 * n * s1 + 255 * n * (n + 1) <= 2 * (m * max1) + 255 * (m * (m + 1))
  {
    TriangleMono(n, m);
    MulMono(n, m, s1);
    MulMono(s1, max1, m);
    MulAssoc(2, n, s1);
    MulAssoc(255, n, n + 1);
  }

  lemma MulAssoc(a: nat, b: nat, c: nat)
    ensures a * b * c == a * (b * c)
  {
  }

  // Reduction without division: 65536 is 15 modulo BASE, and 2^32 is 225.

  function Chop(a: nat): nat {
    a % 0x1_0000 + (a / 0x1_0000) * 16 - a / 0x1_0000
  }

  lemma Congruent(a: nat, b: nat, k: int)
    requires a == b + k * BASE
    ensures a % BASE == b % BASE
  {
  }

  lemma ChopCongruent(a: nat)
    ensures Chop(a) % BASE == a % BASE
  {
    Congruent(a, Chop(a), a / 0x1_0000);
  }

  function Mod28(a: nat): (r: nat)
    requires a < 0x1000_0000
    ensures r == a % BASE
  {
    ChopCongruent(a);
    var c := Chop(a);
    if c >= BASE then c - BASE else c
  }

  function Mod32(a: nat): (r: nat)
    requires a <= MAX32
    ensures r == a % BASE
  {
    ChopCongruent(a);
    Mod28(Chop(a))
  }

  function Mod63(a: nat): (r: nat)
    requires a < 0x8000_0000_0000_0000
    ensures r == a % BASE
  {
    var t := a / 0x1_0000_0000;
    var b := a % 0x1_0000_0000 + t * 256 - t * 32 + t;
    Congruent(a, b, t * 65551);
    ChopCongruent(b);
    ChopCongruent(Chop(b));
    var c := Chop(Chop(b));
    if c >= BASE then c - BASE else c
  }

  /** MOD, in the build with or without hardware division. */
  function MOD(a: nat, noDivide: bool): (r: nat)
    requires a <= MAX32
    ensures r == a % BASE
  {
    if noDivide then Mod32(a) else a % BASE
  }

  function MOD28(a: nat, noDivide: bool): (r: nat)
    requires a < 0x1000_0000
    ensures r == a % BASE
  {
    if noDivide then Mod28(a) else a % BASE
  }

  function MOD63(a: nat, noDivide: bool): (r: nat)
    requires a < 0x8000_0000_0000_0000
    ensures r == a % BASE
  {
    if noDivide then Mod63(a) else a % BASE
  }

  datatype Input = Null | Buffer(bytes: seq<byte>)

  /** What adler32() is to return for a message: the defined sums, from the starting halves reduced. */
  function Defined(adler: u32, data: seq<byte>): nat {
    Join(Adler(Modulo(Split(adler)), data))
  }

  /** The bytes added up, and the bytes each as often as it goes into the second of the sums: the first n times. */
  function Total(data: seq<byte>): nat {
    if |data| == 0 then 0 else Total(data[..|data| - 1]) + data[|data| - 1]
  }

  function Weighted(data: seq<byte>, n: nat): nat
    requires |data| <= n
  {
    if |data| == 0 then 0 else Weighted(data[..|data| - 1], n) + (n - (|data| - 1)) * data[|data| - 1]
  }

  lemma {:induction false} WeightedMore(data: seq<byte>, n: nat)
    requires |data| <= n
    ensures Weighted(data, n + 1) == Weighted(data, n) + Total(data)
  {
    if |data| > 0 {
      var k := |data| - 1;
      WeightedMore(data[..k], n);
      assert (n + 1 - k) * data[k] == (n - k) * data[k] + data[k];
    }
  }

  lemma {:induction false} RawClosed(s: Sums, data: seq<byte>)
    ensures Raw(s, data).s1 == s.s1 + Total(data)
    ensures Raw(s, data).s2 == s.s2 + |data| * s.s1 + Weighted(data, |data|)
  {
    if |data| > 0 {
      var k := |data| - 1;
      RawClosed(s, data[..k]);
      WeightedMore(data[..k], k);
      assert (k + 1) * s.s1 == k * s.s1 + s.s1;
      assert Weighted(data, k + 1) == Weighted(data[..k], k + 1) + (k + 1 - k) * data[k];
    }
  }

  /** The checksum in full: from a second half b and a first half a, (b + n a + n d1 + (n - 1) d2 + ... + dn)
      and (a + d1 + d2 + ... + dn), each modulo 65521. */
  lemma AdlerInFull(adler: u32, data: seq<byte>)
    ensures var a, b, n := adler % 0x1_0000, adler / 0x1_0000, |data|;
      Defined(adler, data) == (b + n * a + Weighted(data, n)) % 65521 * 0x1_0000 + (a + Total(data)) % 65521
  {
    RawModulo(Split(adler), data);
    RawClosed(Split(adler), data);
  }

  /** The one branch that reduces the second sum at most once: a single byte, added to a second half
      so large (BASE or more, so not a result of this code) that one subtraction does not reduce it. */
  predicate ReducedOnceTooLittle(adler: u32, data: seq<byte>) {
    |data| == 1 && Split(adler).s2 + (Split(adler).s1 + data[0]) % BASE >= 2 * BASE
  }

  lemma RawAppend(s: Sums, data: seq<byte>, k: nat, i: nat)
    requires k <= i < |data|
    ensures Raw(s, data[k..i + 1]) == var r := Raw(s, data[k..i]); Sums(r.s1 + data[i], r.s2 + r.s1 + data[i])
  {
    assert data[k..i + 1][..i - k] == data[k..i];
  }

  /** Unreduced sums over a stretch of at most NMAX bytes; no intermediate sum exceeds 32 bits. */
  method Accumulate(s: Sums, buf: seq<byte>, k: nat, n: nat) returns (r: Sums)
    requires s.s1 <= 0xffff && s.s2 <= 0xffff && k + n <= |buf| && n <= NMAX
    ensures r == Raw(s, buf[k..k + n]) && r.s1 <= MAX32 && r.s2 <= MAX32
  {
    var adler: nat, sum2: nat := s.s1, s.s2;
    for i := k to k + n
      invariant Sums(adler, sum2) == Raw(s, buf[k..i])
    {
      RawAppend(s, buf, k, i);
      BlockFits(s, buf[k..i + 1]);
      adler := adler + buf[i];
      assert adler <= MAX32;
      sum2 := sum2 + adler;
      assert sum2 <= MAX32;
    }
    BlockFits(s, buf[k..k + n]);
    r := Sums(adler, sum2);
  }

  lemma Extend(adler: u32, buf: seq<byte>, s: Sums, k: nat, n: nat)
    requires k + n <= |buf| && Modulo(s) == Adler(Modulo(Split(adler)), buf[..k])
    ensures Modulo(Raw(s, buf[k..k + n])) == Adler(Modulo(Split(adler)), buf[..k + n])
  {
    RawModulo(s, buf[k..k + n]);
    AdlerConcat(Modulo(Split(adler)), buf[..k], buf[k..k + n]);
    assert buf[..k + n] == buf[..k] + buf[k..k + n];
  }

  lemma OneStep(adler: u32, b: byte)
    ensures var s := Split(adler); var a := (s.s1 + b) % BASE;
      Defined(adler, [b]) == a + (s.s2 + a) % BASE * 0x1_0000
  {
    var s := Split(adler);
    assert [b][..0] == [];
    assert Adler(Modulo(s), [b]) == Step(Modulo(s), b);
    AddMod(s.s1, b);
    AddMod(s.s2, (s.s1 + b) % BASE);
  }

  lemma SubtractOnce(a: nat)
    requires a < 3 * BASE
    ensures (if a >= BASE then a - BASE else a) == a % BASE <==> a < 2 * BASE
  {
  }

  method OneByte(adler: u32, b: byte) returns (r: u32)
    ensures r == Defined(adler, [b]) <==> !ReducedOnceTooLittle(adler, [b])
  {
    hide Defined;
    var s := Split(adler);
    var a, sum2 := s.s1 + b, s.s2;
    SubtractOnce(a);
    if a >= BASE {
      a := a - BASE;
    }
    sum2 := sum2 + a;
    SubtractOnce(sum2);
    if sum2 >= BASE {
      sum2 := sum2 - BASE;
    }
    r := a + sum2 * 0x1_0000;
    OneStep(adler, b);
    JoinInjective(a, sum2, (s.s2 + a) % BASE);
  }

  lemma JoinInjective(a: nat, b: nat, c: nat)
    ensures a + b * 0x1_0000 == a + c * 0x1_0000 <==> b == c
  {
  }

  method FewBytes(adler: u32, buf: seq<byte>, noDivide: bool) returns (r: u32)
    requires |buf| < 16
    ensures r == Defined(adler, buf)
  {
    hide Raw, Adler;
    var s := Split(adler);
    var t := Accumulate(s, buf, 0, |buf|);
    assert buf[0..|buf|] == buf;
    FewBytesBound(s, buf);
    RawModulo(s, buf);
    var a := t.s1;
    SubtractOnce(a);
    if a >= BASE {
      a := a - BASE;
    }
    var sum2 := MOD28(t.s2, noDivide);
    r := a + sum2 * 0x1_0000;
  }

  lemma FewBytesBound(s: Sums, buf: seq<byte>)
    requires |buf| < 16 && s.s1 <= 0xffff && s.s2 <= 0xffff
    ensures Raw(s, buf).s1 < 2 * BASE && Raw(s, buf).s2 < 0x1000_0000
  {
    RawBound(s, buf);
    BlockArithmetic(|buf|, s.s1, 0xffff, 15);
  }

  /** adler32_z(): for every buffer and every 32-bit starting value the result is the checksum RFC
      1950 defines, except in the one case ReducedOnceTooLittle describes. */
  method Adler32Z(adler: u32, input: Input, noDivide: bool) returns (r: u32)
    ensures input.Null? ==> r == 1
    ensures input.Buffer? ==> (r == Defined(adler, input.bytes) <==> !ReducedOnceTooLittle(adler, input.bytes))
    ensures input.Buffer? && Reduced(adler) ==> r == Join(Adler(Split(adler), input.bytes)) && Reduced(r)
  {
    hide Defined, ReducedOnceTooLittle, Reduced, Adler, Modulo, Split;
    if input.Null? {
      return 1;
    }
    var buf := input.bytes;
    NotOneByte(adler, buf);
    if |buf| == 1 {
      r := OneByte(adler, buf[0]);
      assert buf == [buf[0]];
    } else if |buf| < 16 {
      r := FewBytes(adler, buf, noDivide);
    } else {
      r := ManyBytes(adler, buf, noDivide);
    }
    if Reduced(adler) {
      ReducedStart(adler, buf);
    }
  }

  lemma NotOneByte(adler: u32, buf: seq<byte>)
    ensures |buf| != 1 ==> !ReducedOnceTooLittle(adler, buf)
  {
  }

  lemma ReducedStart(adler: u32, buf: seq<byte>)
    requires Reduced(adler)
    ensures !ReducedOnceTooLittle(adler, buf)
    ensures Defined(adler, buf) == Join(Adler(Split(adler), buf)) <= MAX32
    ensures Reduced(Defined(adler, buf))
  {
    hide Adler;
    assert Modulo(Split(adler)) == Split(adler);
    AdlerReduced(Split(adler), buf);
    if |buf| == 1 {
      assert Split(adler).s2 + (Split(adler).s1 + buf[0]) % BASE < 2 * BASE;
    }
  }

  lemma AdlerReduced(s: Sums, buf: seq<byte>)
    requires s.s1 < BASE && s.s2 < BASE
    ensures Adler(s, buf).s1 < BASE && Adler(s, buf).s2 < BASE
  {
  }

  lemma ModuloTwice(s: Sums)
    ensures Modulo(Modulo(s)) == Modulo(s) && Modulo(s).s1 < BASE && Modulo(s).s2 < BASE
  {
  }

  /** A stretch of the buffer, reduced once at its end. */
  method Stretch(adler: u32, buf: seq<byte>, s: Sums, k: nat, n: nat, noDivide: bool) returns (s': Sums)
    requires s.s1 <= 0xffff && s.s2 <= 0xffff && k + n <= |buf| && n <= NMAX
    requires Modulo(s) == Adler(Modulo(Split(adler)), buf[..k])
    ensures s'.s1 < BASE && s'.s2 < BASE && s' == Modulo(s') == Adler(Modulo(Split(adler)), buf[..k + n])
  {
    hide Adler, Raw, Split;
    var t := Accumulate(s, buf, k, n);
    Extend(adler, buf, s, k, n);
    ModuloTwice(t);
    s' := Sums(MOD(t.s1, noDivide), MOD(t.s2, noDivide));
  }

  method ManyBytes(adler: u32, buf: seq<byte>, noDivide: bool) returns (r: u32)
    requires |buf| >= 16
    ensures r == Defined(adler, buf)
  {
    var s := Split(adler);
    var k := 0;
    assert buf[..0] == [];
    hide Raw, Modulo;
    while |buf| - k >= NMAX
      invariant k <= |buf| && s.s1 <= 0xffff && s.s2 <= 0xffff
      invariant Modulo(s) == Adler(Modulo(Split(adler)), buf[..k])
      invariant k > 0 ==> s == Modulo(s)
    {
      s := Stretch(adler, buf, s, k, NMAX, noDivide);
      k := k + NMAX;
    }
    if k < |buf| {
      s := Stretch(adler, buf, s, k, |buf| - k, noDivide);
    }
    assert buf[..|buf|] == buf;
    r := s.s1 + s.s2 * 0x1_0000;
  }

  /** A starting value and a byte for which the single-byte branch leaves the second half at BASE. */
  lemma SingleByteNotReduced()
    ensures ReducedOnceTooLittle(0xffff_ffe3, [0])
  {
    assert Split(0xffff_ffe3) == Sums(0xffe3, 0xffff);
  }

  // adler32_combine_().

  /** A message adds the same to both sums from any start, plus its length times the first sum. */
  lemma {:induction false} RawShift(s: Sums, data: seq<byte>)
    ensures var z := Raw(Sums(0, 0), data);
      Raw(s, data) == Sums(s.s1 + z.s1, s.s2 + |data| * s.s1 + z.s2)
  {
    if |data| > 0 {
      RawShift(s, data[..|data| - 1]);
    }
  }

  /** The sums of a concatenation, from those of its parts: s after the first part, t for the second
      part alone (started at 1, as every checksum is). */
  lemma ConcatSums(s: Sums, b: seq<byte>)
    requires s.s1 < BASE && s.s2 < BASE
    ensures var t := Adler(Sums(1, 0), b); var r := Adler(s, b); var rem := |b| % BASE;
      && r.s1 == (s.s1 + t.s1 + BASE - 1) % BASE
      && r.s2 == (rem * s.s1 + s.s2 + t.s2 + BASE - rem) % BASE
  {
    hide Adler, Raw, Modulo;
    var z, n := Raw(Sums(0, 0), b), |b|;
    SumsFromRaw(s, b);
    SumsFromRaw(Sums(1, 0), b);
    FirstSum(s.s1, z.s1);
    SecondSum(s.s1, s.s2, n, z.s2);
  }

  lemma SumsFromRaw(s: Sums, b: seq<byte>)
    requires s.s1 < BASE && s.s2 < BASE
    ensures var z := Raw(Sums(0, 0), b);
      Adler(s, b) == Sums((s.s1 + z.s1) % BASE, (s.s2 + |b| * s.s1 + z.s2) % BASE)
  {
    hide Adler, Raw;
    assert Modulo(s) == s;
    RawModulo(s, b);
    RawShift(s, b);
  }

  lemma FirstSum(s1: nat, z1: nat)
    ensures (s1 + z1) % BASE == (s1 + (1 + z1) % BASE + BASE - 1) % BASE
  {
    Congruent(s1 + z1 + BASE, s1 + (1 + z1) % BASE + BASE - 1, (1 + z1) / BASE);
    Congruent(s1 + z1 + BASE, s1 + z1, 1);
  }

  lemma SecondSum(s1: nat, s2: nat, n: nat, z2: nat)
    ensures (s2 + n * s1 + z2) % BASE == (n % BASE * s1 + s2 + (n + z2) % BASE + BASE - n % BASE) % BASE
  {
    var rem, q := n % BASE, n / BASE;
    var m := (n + z2) % BASE;
    assert n * s1 == rem * s1 + BASE * (q * s1) by {
      assert n == BASE * q + rem;
    }
    var k := q * s1 + (n + z2) / BASE - q - 1;
    Congruent(s2 + n * s1 + z2, rem * s1 + s2 + m + BASE - rem, k);
  }

  method Combine(adler1: u32, adler2: u32, len2: int, noDivide: bool) returns (r: nat)
    requires len2 < 0x8000_0000_0000_0000
    ensures len2 < 0 ==> r == 0xffff_ffff
    ensures len2 >= 0 ==> (r == Combined(adler1, adler2, len2) <==> TwiceIsEnough(adler1, adler2, len2))
    ensures len2 >= 0 && Reduced(adler1) && Reduced(adler2) ==> r == Combined(adler1, adler2, len2)
  {
    if len2 < 0 {
      return 0xffff_ffff;
    }
    hide Split, Or, Shl, Reduced, Combined, TwiceIsEnough;
    var s, t := Split(adler1), Split(adler2);
    SplitBounds(adler1);
    SplitBounds(adler2);
    var rem := MOD63(len2, noDivide);
    var sum1 := s.s1;
    ProductBound(rem, sum1);
    var sum2 := MOD(rem * sum1, noDivide);
    sum1 := sum1 + t.s1 + BASE - 1;
    sum2 := sum2 + s.s2 + t.s2 + BASE - rem;
    ghost var sum1', sum2' := sum1, sum2;
    if sum1 >= BASE { sum1 := sum1 - BASE; }
    if sum1 >= BASE { sum1 := sum1 - BASE; }
    if sum2 >= 2 * BASE { sum2 := sum2 - 2 * BASE; }
    if sum2 >= BASE { sum2 := sum2 - BASE; }
    r := Or(sum1, Shl(sum2, 16));
    Subtracted(adler1, adler2, len2, sum1', sum2', sum1, sum2);
    ReducedIsEnough(adler1, adler2, len2);
  }

  /** The checksum of a concatenation from those of its parts and the length of the second. */
  function Combined(adler1: u32, adler2: u32, len2: nat): nat {
    var s, t, rem := Split(adler1), Split(adler2), len2 % BASE;
    Join(Sums((s.s1 + t.s1 + BASE - 1) % BASE, (rem * s.s1 + s.s2 + t.s2 + BASE - rem) % BASE))
  }

  /** The sums are not so large that the subtractions leave them unreduced. */
  predicate TwiceIsEnough(adler1: u32, adler2: u32, len2: nat) {
    var s, t, rem := Split(adler1), Split(adler2), len2 % BASE;
    s.s1 + t.s1 + BASE - 1 < 3 * BASE && rem * s.s1 % BASE + s.s2 + t.s2 + BASE - rem < 4 * BASE
  }

  lemma ReducedIsEnough(adler1: u32, adler2: u32, len2: nat)
    ensures Reduced(adler1) && Reduced(adler2) ==> TwiceIsEnough(adler1, adler2, len2)
  {
    hide Split;
  }

  /** What the subtractions make of the sums is the combined checksum exactly if they are not too large. */
  lemma Subtracted(adler1: u32, adler2: u32, len2: nat, sum1': nat, sum2': nat, sum1: nat, sum2: nat)
    requires var s, t, rem := Split(adler1), Split(adler2), len2 % BASE;
      && sum1' == s.s1 + t.s1 + BASE - 1 && sum2' == rem * s.s1 % BASE + s.s2 + t.s2 + BASE - rem
    requires sum1 == (if sum1' >= 2 * BASE then sum1' - 2 * BASE else if sum1' >= BASE then sum1' - BASE else sum1')
    requires sum2 == (if sum2' >= 3 * BASE then sum2' - 3 * BASE else if sum2' >= 2 * BASE then sum2' - 2 * BASE
                      else if sum2' >= BASE then sum2' - BASE else sum2')
    ensures Or(sum1, Shl(sum2, 16)) == Combined(adler1, adler2, len2) <==> TwiceIsEnough(adler1, adler2, len2)
  {
    hide Split, Or, Shl, Low;
    var s, t, rem := Split(adler1), Split(adler2), len2 % BASE;
    SplitBounds(adler1);
    SplitBounds(adler2);
    AddMod(rem * s.s1, s.s2 + t.s2 + (BASE - rem));
    Remainders(sum1', sum2', sum1, sum2);
    OrDiffers(sum1, sum2, sum1' % BASE, sum2' % BASE);
  }

  /** Subtracting may leave one BASE too many. */
  lemma Remainders(sum1': nat, sum2': nat, sum1: nat, sum2: nat)
    requires sum1' <= 0xffff + 0xffff + BASE - 1 && sum2' < BASE + 0xffff + 0xffff + BASE
    requires sum1 == (if sum1' >= 2 * BASE then sum1' - 2 * BASE else if sum1' >= BASE then sum1' - BASE else sum1')
    requires sum2 == (if sum2' >= 3 * BASE then sum2' - 3 * BASE else if sum2' >= 2 * BASE then sum2' - 2 * BASE
                      else if sum2' >= BASE then sum2' - BASE else sum2')
    ensures sum1 == sum1' % BASE + if sum1' >= 3 * BASE then BASE else 0
    ensures sum2 == sum2' % BASE + if sum2' >= 4 * BASE then BASE else 0
    ensures sum1 <= BASE + 27 && sum2 <= BASE + 27
  {
    var k1 := if sum1' >= 3 * BASE then 3 else if sum1' >= 2 * BASE then 2 else if sum1' >= BASE then 1 else 0;
    var k2 := if sum2' >= 4 * BASE then 4 else if sum2' >= 3 * BASE then 3 else if sum2' >= 2 * BASE then 2
      else if sum2' >= BASE then 1 else 0;
    Congruent(sum1', sum1' - k1 * BASE, k1);
    Congruent(sum2', sum2' - k2 * BASE, k2);
  }

  /** An unreduced half shows in the result. */
  lemma OrDiffers(sum1: nat, sum2: nat, c1: nat, c2: nat)
    requires c1 < BASE && c2 < BASE && sum1 <= BASE + 27
    requires (sum1 == c1 || sum1 == c1 + BASE) && (sum2 == c2 || sum2 == c2 + BASE)
    ensures Or(sum1, Shl(sum2, 16)) == c1 + c2 * 0x1_0000 <==> sum1 == c1 && sum2 == c2
  {
    hide Or, Shl, Low;
    Or16(c1, c2);
    if sum1 == c1 {
      Or16(sum1, sum2);
    } else if Or(sum1, Shl(sum2, 16)) == c1 + c2 * 0x1_0000 {
      OrLow(sum1, sum2, 16);
      OrLow(c1, c2, 16);
      Pow2Values();
      LowAll(c1, 16);
      LowStep(sum1, 16);
      assert Pow2(17) == 2 * Pow2(16);
      LowAll(sum1, 17);
    }
  }

  lemma SplitBounds(adler: u32)
    ensures Split(adler).s1 <= 0xffff && Split(adler).s2 <= 0xffff
  {
  }

  lemma ProductBound(rem: nat, s1: nat)
    requires rem < BASE && s1 <= 0xffff
    ensures 0 <= rem * s1 <= MAX32
  {
    MulMono(rem, BASE - 1, s1);
    MulMono(s1, 0xffff, BASE - 1);
  }

  /** Combination: the checksums of two messages give that of their concatenation, for every length
      and every reduced start of the first. */
  lemma CombineIsConcat(start: u32, a: seq<byte>, b: seq<byte>)
    requires Reduced(start)
    ensures var s, t, rem := Adler(Split(start), a), Adler(Sums(1, 0), b), |b| % BASE;
      Adler(Split(start), a + b) == Sums((s.s1 + t.s1 + BASE - 1) % BASE,
          (rem * s.s1 + s.s2 + t.s2 + BASE - rem) % BASE)
  {
    hide Adler;
    AdlerReduced(Split(start), a);
    AdlerConcat(Split(start), a, b);
    ConcatSums(Adler(Split(start), a), b);
  }
}
