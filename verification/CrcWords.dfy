/** The CRC of whole machine words: one table lookup per byte of a word, words loaded in either
    byte order, and the braids of crc32.c. */
module CrcWords {
  import opened Bits
  import opened CrcPoly
  import opened CrcSpec

  /** Byte `k` of a word, counted from the least significant. */
  function ByteAt(w: nat, k: nat): byte
    decreases k
  {
    if k == 0 then w % 256 else ByteAt(w / 256, k - 1)
  }

  /** The word with the given bytes, least significant first. */
  function Load(bs: seq<byte>): nat {
    if |bs| == 0 then 0 else bs[0] + 256 * Load(bs[1..])
  }

  /** The `n` low bytes of a word, least significant first. */
  function Bytes(w: nat, n: nat): (bs: seq<byte>)
    ensures |bs| == n
    decreases n
  {
    if n == 0 then [] else [w % 256] + Bytes(w / 256, n - 1)
  }

  /** The word shifted right by `k` bytes. */
  function ShrBytes(w: nat, k: nat): nat
    decreases k
  {
    if k == 0 then w else ShrBytes(w / 256, k - 1)
  }

  /** One lookup of crc_word(): the low byte leaves through the table. */
  function WordStep(d: nat): nat {
    Xor(d / 256, MulXn(d % 256, 8))
  }

  function WordSteps(d: nat, k: nat): nat {
    if k == 0 then d else WordStep(WordSteps(d, k - 1))
  }

  lemma {:induction false} XorBytes(a: nat, b: nat, k: nat)
    ensures ByteAt(Xor(a, b), k) == Xor(ByteAt(a, k), ByteAt(b, k))
    ensures ShrBytes(Xor(a, b), k) == Xor(ShrBytes(a, k), ShrBytes(b, k))
    decreases k
  {
    XorShift8(a, b);
    if k > 0 {
      XorBytes(a / 256, b / 256, k - 1);
    }
  }

  lemma {:induction false} ShrByteStep(w: nat, k: nat)
    ensures ShrBytes(w, k) % 256 == ByteAt(w, k) && ShrBytes(w, k) / 256 == ShrBytes(w, k + 1)
    decreases k
  {
    if k > 0 {
      ShrByteStep(w / 256, k - 1);
    }
  }

  lemma {:induction false} LoadBytes(bs: seq<byte>, k: nat)
    requires k <= |bs|
    ensures ShrBytes(Load(bs), k) == Load(bs[k..])
    ensures k < |bs| ==> ByteAt(Load(bs), k) == bs[k]
    decreases k
  {
    if k == 0 {
      assert bs[0..] == bs;
    } else {
      assert Load(bs) / 256 == Load(bs[1..]);
      assert bs[1..][k - 1..] == bs[k..];
      LoadBytes(bs[1..], k - 1);
    }
  }

  lemma {:induction false} BytesOfLoad(w: nat, n: nat)
    requires ShrBytes(w, n) == 0
    ensures Load(Bytes(w, n)) == w
    decreases n
  {
    if n > 0 {
      BytesOfLoad(w / 256, n - 1);
      assert Bytes(w, n)[1..] == Bytes(w / 256, n - 1);
    }
  }

  lemma {:induction false} BytesAt(w: nat, n: nat, k: nat)
    requires k < n
    ensures Bytes(w, n)[k] == ByteAt(w, k)
    decreases k
  {
    if k > 0 {
      BytesAt(w / 256, n - 1, k - 1);
    }
  }

  /** A register of 32 bits has at most four bytes. */
  lemma RegisterFits(r: u32, n: nat)
    requires n >= 4
    ensures ShrBytes(r, n) == 0
  {
    var a, b, c := r / 256, r / 0x1_0000, r / 0x100_0000;
    assert ShrBytes(r, n) == ShrBytes(a, n - 1) == ShrBytes(b, n - 2) == ShrBytes(c, n - 3) == ShrBytes(0, n - 4);
    ShrZero(n - 4);
  }

  lemma {:induction false} ShrZero(n: nat)
    ensures ShrBytes(0, n) == 0
  {
    if n > 0 {
      ShrZero(n - 1);
    }
  }

  // crc_word().

  /** While the lookups run, the word is the bytes still to come plus the register so far. */
  lemma {:induction false} WordStepsRun(reg: u32, bs: seq<byte>, k: nat)
    requires k <= |bs|
    ensures WordSteps(Xor(reg, Load(bs)), k) == Xor(Crc(reg, bs[..k]), Load(bs[k..]))
    decreases k
  {
    hide Xor, MulXn, Load;
    if k == 0 {
      assert bs[0..] == bs && bs[..0] == [];
    } else {
      var r, rest, b := Crc(reg, bs[..k - 1]), Load(bs[k..]), bs[k - 1];
      WordStepsRun(reg, bs, k - 1);
      assert bs[..k][..k - 1] == bs[..k - 1];
      LoadStep(bs, k - 1);
      var d := Xor(r, Load(bs[k - 1..]));
      XorShift8(r, Load(bs[k - 1..]));
      TableStep(r, b);
      XorMod(r, b);
      XorAssoc(r / 256, rest, MulXn(d % 256, 8));
      XorComm(rest, MulXn(d % 256, 8));
      XorAssoc(r / 256, MulXn(d % 256, 8), rest);
    }
  }

  lemma LoadStep(bs: seq<byte>, k: nat)
    requires k < |bs|
    ensures Load(bs[k..]) % 256 == bs[k] && Load(bs[k..]) / 256 == Load(bs[k + 1..])
  {
    assert bs[k..][1..] == bs[k + 1..];
  }

  lemma XorMod(r: nat, b: byte)
    ensures Xor(r, b) % 256 == Xor(r % 256, b)
  {
    XorShift8(r, b);
  }

  /** The CRC of a word of `n` bytes with the register already exclusive-ored in. */
  function CrcWord(w: nat, n: nat): nat {
    WordSteps(w, n)
  }

  lemma CrcWordIsCrc(reg: u32, bs: seq<byte>)
    ensures CrcWord(Xor(reg, Load(bs)), |bs|) == Crc(reg, bs)
  {
    WordStepsRun(reg, bs, |bs|);
    assert bs[..|bs|] == bs;
    XorZero(Crc(reg, bs));
  }

  lemma CrcWordOfWord(w: nat, n: nat)
    requires ShrBytes(w, n) == 0
    ensures CrcWord(w, n) == Crc(0, Bytes(w, n))
  {
    CrcWordIsCrc(0, Bytes(w, n));
    BytesOfLoad(w, n);
    XorZero(w);
  }

  // The sum of the contributions of the bytes of a word.

  /** The first `k` bytes of a word, each shifted on by its place: byte i by 8 * (e - i) bits. */
  function BraidSum(w: nat, k: nat, e: nat): u32
    requires k <= e
  {
    if k == 0 then 0 else Xor32Of(BraidSum(w, k - 1, e), MulXn(ByteAt(w, k - 1), 8 * (e - (k - 1))))
  }

  lemma {:induction false} BraidSumShift(w: nat, k: nat, e: nat, m: nat)
    requires k <= e
    ensures BraidSum(w, k, e + m) == MulXn(BraidSum(w, k, e), 8 * m)
  {
    hide MulXn;
    if k == 0 {
      MulXnZero(0, 8 * m);
    } else {
      var b := MulXn(ByteAt(w, k - 1), 8 * (e - (k - 1)));
      BraidSumShift(w, k - 1, e, m);
      MulXnAdd(ByteAt(w, k - 1), 8 * (e - (k - 1)), 8 * m);
      MulXnLinear(BraidSum(w, k - 1, e), b, 8 * m);
    }
  }

  lemma {:induction false} BraidSumIsCrc(w: nat, k: nat)
    ensures BraidSum(w, k, k) == Crc(0, Bytes(w, k))
  {
    hide MulXn;
    if k > 0 {
      var n := k - 1;
      BraidSumIsCrc(w, n);
      BraidSumShift(w, n, n, 1);
      BytesPrefix(w, n);
      BytesAt(w, k, n);
      MulXnLinear(BraidSum(w, n, n), ByteAt(w, n), 8);
    }
  }

  lemma {:induction false} BytesPrefix(w: nat, n: nat)
    ensures Bytes(w, n + 1)[..n] == Bytes(w, n)
    decreases n
  {
    if n > 0 {
      BytesPrefix(w / 256, n - 1);
      assert Bytes(w, n + 1) == [w % 256] + Bytes(w / 256, n);
      assert Bytes(w, n) == [w % 256] + Bytes(w / 256, n - 1);
      assert Bytes(w, n + 1)[..n] == [w % 256] + Bytes(w / 256, n)[..n - 1];
    }
  }

  /** The lookups in the braid tables for words N words apart: the CRC of the word, moved on over
      the other N-1 words. */
  lemma BraidIsShiftedCrc(w: nat, W: nat, N: nat)
    requires N >= 1 && ShrBytes(w, W) == 0
    requires W <= N * W
    ensures BraidSum(w, W, N * W) == MulXn(BraidSum(w, W, W), 8 * ((N - 1) * W))
  {
    BraidSumShift(w, W, W, (N - 1) * W);
    assert W + (N - 1) * W == N * W;
  }

  lemma {:induction false} BraidSumLinear(v: nat, w: nat, k: nat, e: nat)
    requires k <= e
    ensures BraidSum(Xor(v, w), k, e) == Xor(BraidSum(v, k, e), BraidSum(w, k, e))
  {
    hide MulXn;
    if k > 0 {
      BraidSumLinear(v, w, k - 1, e);
      XorBytes(v, w, k - 1);
      var a, b := ByteAt(v, k - 1), ByteAt(w, k - 1);
      MulXnLinear(a, b, 8 * (e - (k - 1)));
      XorSwap(BraidSum(v, k - 1, e), BraidSum(w, k - 1, e), MulXn(a, 8 * (e - (k - 1))), MulXn(b, 8 * (e - (k - 1))));
    }
  }
}
