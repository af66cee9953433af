/** The algebra of the braided calculation: N interleaved sparse CRCs over blocks of N words carry
    the same information as one register. */
module CrcBraid {
  import opened Bits
  import opened CrcPoly
  import opened CrcSpec
  import opened CrcWords

  /** The CRC of one word of W bytes, started from zero. */
  function WordCrc(w: nat, W: nat): u32 {
    BraidSum(w, W, W)
  }

  /** The register after the first `j` words. */
  function WordsCrc(reg: u32, ws: seq<nat>, W: nat, j: nat): u32
    requires j <= |ws|
  {
    if j == 0 then reg else WordCrc(Xor(WordsCrc(reg, ws, W, j - 1), ws[j - 1]), W)
  }

  /** The registers of the braids, read as one register N words further on. */
  function Pending(c: seq<u32>, W: nat, j: nat): u32
    requires j <= |c|
  {
    if j == 0 then 0 else MulXn(Xor32Of(Pending(c, W, j - 1), c[j - 1]), 8 * W)
  }

  /** The last block: the braids are folded into one register while its words are fed. */
  function Folded(c: seq<u32>, ws: seq<nat>, W: nat, j: nat): u32
    requires j <= |c| && j <= |ws|
  {
    if j == 0 then 0 else WordCrc(Xor(Xor(c[j - 1], ws[j - 1]), Folded(c, ws, W, j - 1)), W)
  }

  /** One braid over one block: its register and its word, moved on N words. */
  function NextBraid(c: u32, w: nat, W: nat, N: nat): u32
    requires N >= 1
  {
    MulXn(WordCrc(Xor(c, w), W), 8 * ((N - 1) * W))
  }

  ghost predicate IsNextBlock(c: seq<u32>, ws: seq<nat>, c': seq<u32>, W: nat, N: nat)
    requires N >= 1
  {
    |c| == |ws| == |c'| == N && forall j :: 0 <= j < N ==> c'[j] == NextBraid(c[j], ws[j], W, N)
  }

  lemma WordCrcOfRegister(r: u32, W: nat)
    requires W >= 4
    ensures WordCrc(r, W) == MulXn(r, 8 * W)
  {
    hide MulXn, Xor;
    var zeros := seq(W, i => 0 as byte);
    RegisterFits(r, W);
    BraidSumIsCrc(r, W);
    CrcWordOfWord(r, W);
    LoadZeros(W);
    XorZero(r);
    CrcWordIsCrc(r, zeros);
    CrcLinear(r, zeros);
    CrcOfZeros(W);
    XorZero(MulXn(r, 8 * W));
  }

  lemma {:induction false} LoadZeros(n: nat)
    ensures Load(seq(n, i => 0 as byte)) == 0
  {
    if n > 0 {
      LoadZeros(n - 1);
      assert seq(n, i => 0 as byte)[1..] == seq(n - 1, i => 0 as byte);
    }
  }

  lemma {:induction false} CrcOfZeros(n: nat)
    ensures Crc(0, seq(n, i => 0 as byte)) == 0
  {
    if n > 0 {
      CrcOfZeros(n - 1);
      assert seq(n, i => 0 as byte)[..n - 1] == seq(n - 1, i => 0 as byte);
      MulXnZero(0, 8);
      XorZero(0);
    }
  }

  lemma WordCrcLinear(r: u32, w: nat, W: nat)
    requires W >= 4
    ensures WordCrc(Xor(r, w), W) == Xor(MulXn(r, 8 * W), WordCrc(w, W))
    ensures WordCrc(Xor(w, r), W) == Xor(WordCrc(w, W), MulXn(r, 8 * W))
  {
    BraidSumLinear(r, w, W, W);
    BraidSumLinear(w, r, W, W);
    WordCrcOfRegister(r, W);
  }

  /** Feeding words is linear in the starting register. */
  lemma {:induction false} WordsCrcLinear(reg: u32, ws: seq<nat>, W: nat, j: nat)
    requires W >= 4 && j <= |ws|
    ensures WordsCrc(reg, ws, W, j) == Xor(MulXn(reg, 8 * (j * W)), WordsCrc(0, ws, W, j))
  {
    hide Xor, MulXn, WordCrc;
    if j == 0 {
      XorZero(reg);
      MulXnNone(reg);
    } else {
      var n, w := 8 * ((j - 1) * W), ws[j - 1];
      var r, z := MulXn(reg, n), WordsCrc(0, ws, W, j - 1);
      WordsCrcLinear(reg, ws, W, j - 1);
      XorAssoc(r, z, w);
      WordCrcLinear(r, Xor(z, w), W);
      MulXnAdd(reg, n, 8 * W);
      assert n + 8 * W == 8 * (j * W);
    }
  }

  lemma MulXnNone(r: u32)
    ensures MulXn(r, 0) == r
  {
  }

  /** Folding the braids: what they carry and what the words contribute. */
  lemma {:induction false} FoldedSplit(c: seq<u32>, ws: seq<nat>, W: nat, j: nat)
    requires W >= 4 && j <= |c| && j <= |ws|
    ensures Folded(c, ws, W, j) == Xor(WordsCrc(0, ws, W, j), Pending(c, W, j))
  {
    hide Xor, MulXn, WordCrc;
    if j == 0 {
      XorZero(0);
    } else {
      var x, w := c[j - 1], ws[j - 1];
      var z, p := WordsCrc(0, ws, W, j - 1), Pending(c, W, j - 1);
      FoldedSplit(c, ws, W, j - 1);
      FoldArguments(x, w, z, p);
      WordCrcLinear(Xor32Of(p, x), Xor(z, w), W);
      XorComm(MulXn(Xor32Of(p, x), 8 * W), WordCrc(Xor(z, w), W));
    }
  }

  lemma FoldArguments(x: nat, w: nat, z: nat, p: nat)
    ensures Xor(Xor(x, w), Xor(z, p)) == Xor(Xor(p, x), Xor(z, w))
  {
    XorComm(Xor(x, w), Xor(z, p));
    XorComm(z, p);
    XorSwap(p, z, x, w);
  }

  /** The last block gives the register of the whole, if the braids carried the register before. */
  lemma LastBlock(c: seq<u32>, ws: seq<nat>, W: nat, N: nat, reg: u32)
    requires W >= 4 && |c| == |ws| == N
    requires Pending(c, W, N) == MulXn(reg, 8 * (N * W))
    ensures Folded(c, ws, W, N) == WordsCrc(reg, ws, W, N)
  {
    FoldedSplit(c, ws, W, N);
    WordsCrcLinear(reg, ws, W, N);
    XorComm(WordsCrc(0, ws, W, N), Pending(c, W, N));
  }

  /** Any other block keeps the braids carrying the register. */
  lemma {:induction false} NextBlock(c: seq<u32>, ws: seq<nat>, c': seq<u32>, W: nat, N: nat, j: nat)
    requires W >= 4 && N >= 1 && IsNextBlock(c, ws, c', W, N) && j <= N
    ensures Pending(c', W, j) == MulXn(Folded(c, ws, W, j), 8 * (N * W))
  {
    hide Xor, MulXn, WordCrc;
    if j == 0 {
      MulXnZero(0, 8 * (N * W));
    } else {
      var f, u := Folded(c, ws, W, j - 1), Xor(c[j - 1], ws[j - 1]);
      var m, n := 8 * ((N - 1) * W), 8 * (N * W);
      NextBlock(c, ws, c', W, N, j - 1);
      WordCrcLinear(f, u, W);
      var g := WordCrc(u, W);
      assert m + 8 * W == n;
      MulXnLinear(MulXn(f, n), MulXn(g, m), 8 * W);
      MulXnAdd(f, n, 8 * W);
      MulXnAdd(f, 8 * W, n);
      MulXnAdd(g, m, 8 * W);
      MulXnLinear(g, MulXn(f, 8 * W), n);
      XorComm(MulXn(f, n + 8 * W), MulXn(g, n));
    }
  }

  /** At the start the first braid holds the register and the others nothing. */
  lemma {:induction false} FirstBlock(c: seq<u32>, W: nat, j: nat, reg: u32)
    requires 1 <= j <= |c| && c[0] == reg && forall i :: 1 <= i < j ==> c[i] == 0
    ensures Pending(c, W, j) == MulXn(reg, 8 * (j * W))
  {
    hide Xor, MulXn;
    if j == 1 {
      assert Pending(c, W, 0) == 0;
      XorZero(reg);
    } else {
      FirstBlock(c, W, j - 1, reg);
      XorZero(Pending(c, W, j - 1));
      MulXnAdd(reg, 8 * ((j - 1) * W), 8 * W);
      assert 8 * ((j - 1) * W) + 8 * W == 8 * (j * W);
    }
  }
}
