/** Byte order: a big-endian machine sees every word of the message with its bytes reversed, and
    runs the same calculation on reversed words. */
module CrcBigEndian {
  import opened Bits
  import opened CrcPoly
  import opened CrcWords

  function Reversed(bs: seq<byte>): (r: seq<byte>)
    ensures |r| == |bs|
    ensures forall k :: 0 <= k < |bs| ==> r[k] == bs[|bs| - 1 - k]
  {
    if |bs| == 0 then [] else Reversed(bs[1..]) + [bs[0]]
  }

  /** byte_swap() on a word of W bytes. */
  function Swap(w: nat, W: nat): nat {
    Load(Reversed(Bytes(w, W)))
  }

  ghost predicate Fits(w: nat, W: nat) {
    ShrBytes(w, W) == 0
  }

  lemma SwapBytes(w: nat, W: nat)
    ensures Fits(Swap(w, W), W)
    ensures forall k {:trigger ByteAt(Swap(w, W), k)} :: 0 <= k < W ==> ByteAt(Swap(w, W), k) == ByteAt(w, W - 1 - k)
  {
    var r := Reversed(Bytes(w, W));
    LoadBytes(r, W);
    forall k | 0 <= k < W
      ensures ByteAt(Swap(w, W), k) == ByteAt(w, W - 1 - k)
    {
      LoadBytes(r, k);
      BytesAt(w, W, W - 1 - k);
    }
  }

  lemma {:induction false} SameBytes(v: nat, w: nat, W: nat)
    requires Fits(v, W) && Fits(w, W)
    requires forall k {:trigger ByteAt(v, k)} :: 0 <= k < W ==> ByteAt(v, k) == ByteAt(w, k)
    ensures v == w
    decreases W
  {
    if W > 0 {
      assert ByteAt(v, 0) == ByteAt(w, 0);
      forall k {:trigger ByteAt(v / 256, k)} | 0 <= k < W - 1
        ensures ByteAt(v / 256, k) == ByteAt(w / 256, k)
      {
        assert ByteAt(v, k + 1) == ByteAt(w, k + 1);
      }
      SameBytes(v / 256, w / 256, W - 1);
    }
  }

  lemma SwapTwice(w: nat, W: nat)
    requires Fits(w, W)
    ensures Swap(Swap(w, W), W) == w
  {
    SwapBytes(w, W);
    SwapBytes(Swap(w, W), W);
    SameBytes(Swap(Swap(w, W), W), w, W);
  }

  lemma SwapXor(a: nat, b: nat, W: nat)
    ensures Swap(Xor(a, b), W) == Xor(Swap(a, W), Swap(b, W))
  {
    hide Swap, Xor;
    SwapBytes(a, W);
    SwapBytes(b, W);
    SwapBytes(Xor(a, b), W);
    XorBytes(Swap(a, W), Swap(b, W), W);
    XorZero(0);
    var x := Xor(Swap(a, W), Swap(b, W));
    forall k {:trigger ByteAt(Swap(Xor(a, b), W), k)} | 0 <= k < W
      ensures ByteAt(Swap(Xor(a, b), W), k) == ByteAt(x, k)
    {
      XorBytes(a, b, W - 1 - k);
      XorBytes(Swap(a, W), Swap(b, W), k);
    }
    SameBytes(Swap(Xor(a, b), W), x, W);
  }

  /** Loading W bytes with the most significant first. */
  function LoadBig(bs: seq<byte>): nat {
    Load(Reversed(bs))
  }

  lemma LoadBigIsSwapped(bs: seq<byte>)
    ensures LoadBig(bs) == Swap(Load(bs), |bs|)
  {
    var b := Bytes(Load(bs), |bs|);
    forall k | 0 <= k < |bs|
      ensures b[k] == bs[k]
    {
      BytesAt(Load(bs), |bs|, k);
      LoadBytes(bs, k);
    }
    assert b == bs;
  }

  /** The word shifted left by one byte, its top byte dropped. */
  function ShlByte(w: nat, W: nat): nat
    requires W >= 1
  {
    Load([0] + Bytes(w, W - 1))
  }

  lemma ShlByteIsSwappedShift(d: nat, W: nat)
    requires W >= 1 && Fits(d, W)
    ensures ShlByte(Swap(d, W), W) == Swap(d / 256, W)
  {
    var D := Swap(d, W);
    var bs := [0] + Bytes(D, W - 1);
    SwapBytes(d, W);
    SwapBytes(d / 256, W);
    LoadBytes(bs, W);
    forall k {:trigger ByteAt(ShlByte(D, W), k)} | 0 <= k < W
      ensures ByteAt(ShlByte(D, W), k) == ByteAt(Swap(d / 256, W), k)
    {
      LoadBytes(bs, k);
      if k == 0 {
        ShrByteStep(d, W);
        assert ByteAt(d / 256, W - 1) == ByteAt(d, W);
      } else {
        BytesAt(D, W - 1, k - 1);
        assert ByteAt(d / 256, W - 1 - k) == ByteAt(d, W - k);
      }
    }
    SameBytes(ShlByte(D, W), Swap(d / 256, W), W);
  }

  /** One lookup of crc_word_big(), in the table of swapped CRCs. */
  function BigStep(D: nat, W: nat): nat
    requires W >= 1
  {
    Xor(ShlByte(D, W), Swap(MulXn(ByteAt(D, W - 1), 8), W))
  }

  lemma StepFits(d: nat, W: nat)
    requires W >= 4 && Fits(d, W)
    ensures Fits(WordStep(d), W)
  {
    hide MulXn, Xor;
    ShrByteStep(d, W);
    assert ShrBytes(d / 256, W) == ShrBytes(d, W + 1) == 0 / 256;
    RegisterFits(MulXn(d % 256, 8), W);
    XorBytes(d / 256, MulXn(d % 256, 8), W);
    XorZero(0);
  }

  lemma BigStepIsSwappedStep(d: nat, W: nat)
    requires W >= 4 && Fits(d, W)
    ensures BigStep(Swap(d, W), W) == Swap(WordStep(d), W)
  {
    hide MulXn, Xor, Swap, ShlByte;
    ShlByteIsSwappedShift(d, W);
    SwapBytes(d, W);
    assert ByteAt(Swap(d, W), W - 1) == ByteAt(d, 0);
    SwapXor(d / 256, MulXn(d % 256, 8), W);
  }

  /** The lookups of a big-endian braid visit the bytes of a word from the last to the first. */
  function BraidSumDown(w: nat, W: nat, k: nat, e: nat): u32
    requires k <= W <= e
  {
    if k == 0 then 0 else Xor32Of(BraidSumDown(w, W, k - 1, e), MulXn(ByteAt(w, W - k), 8 * (e - (W - k))))
  }

  lemma {:induction false} BraidSumEitherWay(w: nat, W: nat, k: nat, e: nat)
    requires k <= W <= e
    ensures Xor(BraidSum(w, W - k, e), BraidSumDown(w, W, k, e)) == BraidSum(w, W, e)
  {
    hide Xor, MulXn;
    if k == 0 {
      XorZero(BraidSum(w, W, e));
    } else {
      BraidSumEitherWay(w, W, k - 1, e);
      var s, t, d := BraidSum(w, W - k, e), MulXn(ByteAt(w, W - k), 8 * (e - (W - k))), BraidSumDown(w, W, k - 1, e);
      XorAssoc(s, t, d);
      XorComm(t, d);
    }
  }
}
