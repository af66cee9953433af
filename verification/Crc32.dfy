/** crc32.c: the tables, the braided CRC-32 in both byte orders, and the combination of CRCs. */
module Crc32 {
  import opened Bits
  import opened CrcPoly
  import opened CrcPowers
  import opened CrcSpec
  import opened CrcWords
  import opened CrcBraid
  import opened CrcBigEndian

  // multmodp(): the product, one coefficient of a at a time.

  lemma {:induction false} NoMoreTerms(a: u32, b: u32, n: nat)
    requires n <= 32 && Low(a, 32 - n) == 0
    ensures Mult(a, b) == PartialProduct(a, b, n)
    decreases 32 - n
  {
    if n < 32 {
      LowStep(a, 31 - n);
      NoMoreTerms(a, b, n + 1);
    }
  }

  method MultModP(a: u32, b: u32) returns (p: u32)
    requires a != 0
    ensures p == Mult(a, b)
  {
    hide Xor, Low, MulX, Pow2, And, Bit;
    Pow2Values();
    LowAll(a, 32);
    var m, b' := 0x8000_0000, b;
    p := 0;
    ghost var i := 0;
    while true
      invariant 0 <= i < 32 && m == Pow2(31 - i)
      invariant p == PartialProduct(a, b, i) && b' == MulXn(b, i)
      invariant Low(a, 32 - i) != 0
      decreases 32 - i
    {
      AndBit(a, 31 - i);
      AndMask(a, 31 - i);
      LowStep(a, 31 - i);
      if And(a, m) != 0 {
        p := Xor32Of(p, b');
        if And(a, m - 1) == 0 {
          NoMoreTerms(a, b, i + 1);
          break;
        }
      }
      LastBit(a, i);
      if i < 31 {
        HalfPower(31 - i);
      }
      m := m / 2;
      b' := MulX(b');
      i := i + 1;
    }
  }

  /** The mask in turn i of the loop; at last the bit is shifted out. */
  function MaskAt(i: nat): nat {
    if i < 32 then Pow2(31 - i) else 0
  }

  /** The loop of multmodp() is left in turn i. */
  predicate BreaksAt(a: u32, i: nat) {
    MaskAt(i) > 0 && And(a, MaskAt(i)) != 0 && And(a, MaskAt(i) - 1) == 0
  }

  /** The loop ends if and only if the operand is not zero. */
  lemma MultModPEnds(a: u32)
    ensures (exists i: nat :: BreaksAt(a, i)) <==> a != 0
  {
    hide Pow2, Low, And;
    if a == 0 {
      forall i: nat ensures !BreaksAt(a, i) {
        AndNothing(MaskAt(i));
      }
    } else {
      Pow2Values();
      LowAll(a, 32);
      LowestBit(a, 32);
    }
  }

  lemma AndNothing(m: nat)
    ensures And(0, m) == 0
  {
  }

  lemma {:induction false} LowestBit(a: u32, n: nat)
    requires n <= 32 && Low(a, n) != 0
    ensures exists i: nat :: BreaksAt(a, i)
    decreases n
  {
    hide Pow2, And;
    if Low(a, n - 1) != 0 {
      LowestBit(a, n - 1);
    } else {
      LowStep(a, n - 1);
      AndBit(a, n - 1);
      AndMask(a, n - 1);
      assert BreaksAt(a, 32 - n);
    }
  }

  lemma HalfPower(k: nat)
    requires k > 0
    ensures Pow2(k) / 2 == Pow2(k - 1)
  {
  }

  /** At the last coefficient nothing is left below, so the loop has stopped by then. */
  lemma LastBit(a: u32, i: nat)
    requires i < 32
    ensures i == 31 ==> Low(a, 31 - i) == 0
  {
  }

  // x2nmodp(): x^(n * 2^k), by the table of x^(2^k).

  ghost predicate HoldsPowers(x2n: seq<u32>) {
    |x2n| == 32 && forall k :: 0 <= k < 32 ==> x2n[k] == XPow(Pow2(k))
  }

  lemma Halve(n: nat, k: nat)
    requires n > 0
    ensures n * Pow2(k) == (n / 2) * Pow2(k + 1) + if n % 2 == 1 then Pow2(k) else 0
  {
    var h, q := n / 2, Pow2(k);
    assert h * (2 * q) == (2 * h) * q;
  }

  method X2nModP(x2n: array<u32>, n: nat, k: nat) returns (p: u32)
    requires HoldsPowers(x2n[..])
    ensures p == XPow(n * Pow2(k))
  {
    hide XPow, Pow2;
    var n': nat, k': nat := n, k;
    p := 0x8000_0000;
    ghost var e: nat := 0;
    PowZero();
    while n' > 0
      invariant e + n' * Pow2(k') == n * Pow2(k)
      invariant p == XPow(e)
    {
      Halve(n', k');
      if n' % 2 == 1 {
        PowersWrap(k');
        var x := x2n[k' % 32];
        assert x == x2n[..][k' % 32];
        XPowNonzero(Pow2(k'));
        XPowAdd(Pow2(k'), e);
        p := MultModP(x, p);
        e := e + Pow2(k');
      }
      n' := n' / 2;
      k' := k' + 1;
    }
    assert n' == 0;
    assert 0 * Pow2(k') == 0;
  }

  /** n after i turns of the loop, shifted with its sign. */
  function ShiftedDown(n: int, i: nat): int
    decreases i
  {
    if i == 0 then n else ShiftedDown(n / 2, i - 1)
  }

  /** The loop ends if and only if n is not negative. */
  lemma X2nModPEnds(n: int)
    ensures (exists i: nat :: ShiftedDown(n, i) == 0) <==> n >= 0
  {
    if n < 0 {
      forall i: nat ensures ShiftedDown(n, i) != 0 {
        StaysNegative(n, i);
      }
    } else {
      RunsOut(n);
    }
  }

  lemma {:induction false} StaysNegative(n: int, i: nat)
    requires n < 0
    ensures ShiftedDown(n, i) < 0
    decreases i
  {
    if i > 0 {
      StaysNegative(n / 2, i - 1);
    }
  }

  lemma {:induction false} RunsOut(n: nat)
    ensures exists i: nat :: ShiftedDown(n, i) == 0
  {
    if n == 0 {
      assert ShiftedDown(n, 0) == 0;
    } else {
      RunsOut(n / 2);
      var i: nat :| ShiftedDown(n / 2, i) == 0;
      assert ShiftedDown(n, i + 1) == 0;
    }
  }

  lemma PowZero()
    ensures XPow(0) == 0x8000_0000
  {
  }

  // The tables.

  class Tables {
    const N: nat
    const W: nat
    const crcTable: array<u32>
    const crcBigTable: array<nat>
    const x2nTable: array<u32>
    const braidTable: array2<u32>
    const braidBigTable: array2<nat>

    ghost predicate Shape()
    {
      && 1 <= N <= 6 && (W == 4 || W == 8)
      && crcTable.Length == 256 && crcBigTable.Length == 256 && x2nTable.Length == 32
      && braidTable.Length0 == W && braidTable.Length1 == 256
      && braidBigTable.Length0 == W && braidBigTable.Length1 == 256
      && crcTable != x2nTable
    }

    ghost predicate ByteTables()
      requires Shape()
      reads crcTable, crcBigTable
    {
      forall i :: 0 <= i < 256 ==> crcTable[i] == MulXn(i, 8) && crcBigTable[i] == Swap(MulXn(i, 8), W)
    }

    /** Byte i of a message, k bytes into its word, moved on over N words. */
    function Moved(i: byte, k: nat): u32
      requires WholeWords() && k <= W
    {
      MulXn(i, 8 * (N * W - k))
    }

    ghost predicate BraidTables(rows: nat)
      requires Shape() && WholeWords() && rows <= W
      reads braidTable, braidBigTable
    {
      && (forall k, i :: 0 <= k < rows && 0 <= i < 256 ==> braidTable[k, i] == Moved(i, k))
      && (forall r, i :: W - rows <= r < W && 0 <= i < 256 ==> braidBigTable[r, i] == Swap(Moved(i, W - 1 - r), W))
    }

    ghost predicate Valid()
      reads crcTable, crcBigTable, x2nTable, braidTable, braidBigTable
    {
      Shape() && ByteTables() && HoldsPowers(x2nTable[..]) && WholeWords() && BraidTables(W)
    }

    ghost predicate WholeWords()
    {
      N * W >= W
    }

    lemma WholeWordsHold()
      requires Shape()
      ensures WholeWords()
    {
      assert N * W == (N - 1) * W + W;
    }

    /** make_crc_table(), for braids of N words of W bytes. */
    constructor (n: nat, w: nat)
      requires 1 <= n <= 6 && (w == 4 || w == 8)
      ensures Valid() && N == n && W == w
      ensures fresh(crcTable) && fresh(crcBigTable) && fresh(x2nTable) && fresh(braidTable) && fresh(braidBigTable)
    {
      N := n;
      W := w;
      crcTable := new u32[256];
      crcBigTable := new nat[256];
      x2nTable := new u32[32];
      braidTable := new u32[w, 256];
      braidBigTable := new nat[w, 256];
      new;
      MakeByteTables();
      MakePowers();
      assert WholeWords() by { WholeWordsHold(); }
      Braid();
    }

    method MakeByteTables()
      requires Shape()
      modifies crcTable, crcBigTable
      ensures ByteTables()
    {
      hide MulX, Swap;
      for i := 0 to 256
        invariant forall l :: 0 <= l < i ==> crcTable[l] == MulXn(l, 8) && crcBigTable[l] == Swap(MulXn(l, 8), W)
      {
        var p: u32 := i;
        for j := 0 to 8
          invariant p == MulXn(i, j)
        {
          p := MulX(p);
        }
        crcTable[i] := p;
        crcBigTable[i] := Swap(p, W);
      }
    }

    method MakePowers()
      requires Shape()
      modifies x2nTable
      ensures HoldsPowers(x2nTable[..])
    {
      hide XPow, Mult;
      var p: u32 := 0x4000_0000;
      PowOne();
      x2nTable[0] := p;
      for n := 1 to 32
        invariant p == XPow(Pow2(n - 1))
        invariant forall k :: 0 <= k < n ==> x2nTable[k] == XPow(Pow2(k))
      {
        XPowNonzero(Pow2(n - 1));
        XPowAdd(Pow2(n - 1), Pow2(n - 1));
        p := MultModP(p, p);
        x2nTable[n] := p;
      }
    }

    method Braid()
      requires Shape() && HoldsPowers(x2nTable[..]) && WholeWords()
      modifies braidTable, braidBigTable
      ensures BraidTables(W)
    {
      hide XPow, Mult, Swap, MulXn, HoldsPowers;
      for k := 0 to W
        invariant BraidTables(k)
      {
        var p := X2nModP(x2nTable, 8 * (N * W + 3 - k), 0);
        assert Pow2(0) == 1;
        BraidRow(k, p);
      }
    }

    method BraidRow(k: nat, p: u32)
      requires Shape() && WholeWords() && k < W && BraidTables(k)
      requires p == XPow(8 * (N * W + 3 - k))
      modifies braidTable, braidBigTable
      ensures BraidTables(k + 1)
    {
      hide XPow, Mult, Swap, MulXn;
      braidTable[k, 0] := 0;
      braidBigTable[W - 1 - k, 0] := 0;
      BraidZero(8 * (N * W - k), W);
      for i := 1 to 256
        invariant BraidTables(k)
        invariant forall l :: 0 <= l < i ==> braidTable[k, l] == Moved(l, k)
        invariant forall l :: 0 <= l < i ==> braidBigTable[W - 1 - k, l] == Swap(Moved(l, k), W)
      {
        BraidEntry(i, 8 * (N * W - k));
        var q := MultModP(BytePoly(i), p);
        braidTable[k, i] := q;
        braidBigTable[W - 1 - k, i] := Swap(q, W);
      }
    }
  }

  lemma PowOne()
    ensures XPow(Pow2(0)) == 0x4000_0000
  {
    assert XPow(1) == MulX(MulXn(ONE, 0));
  }

  lemma BraidZero(n: nat, W: nat)
    ensures MulXn(0, n) == 0 && Swap(0, W) == 0
  {
    MulXnZero(0, n);
    ShrZero(W);
    SwapBytes(0, W);
    SwapXor(0, 0, W);
    XorSelf(0);
    XorSelf(Swap(0, W));
  }

  /** The entry braid() computes for byte i: the byte in the top of a register, times x^(n+24). */
  lemma BraidEntry(i: byte, n: nat)
    ensures Mult(BytePoly(i), XPow(n + 24)) == MulXn(i, n)
    ensures i != 0 ==> BytePoly(i) != 0
  {
    MultXPow(n + 24, BytePoly(i));
    MulXnAdd(BytePoly(i), 24, n);
    BytePolyShifted(i);
    MulXnZero(BytePoly(i), 24);
  }

  // crc_word(), crc_word_big() and the braid lookups.

  lemma StepBounds(d: nat, W: nat, k: nat)
    requires W >= 4 && Fits(d, W)
    ensures Fits(WordSteps(d, k), W)
    decreases k
  {
    if k > 0 {
      StepBounds(d, W, k - 1);
      StepFits(WordSteps(d, k - 1), W);
    }
  }

  method CrcWordLittle(t: Tables, data: nat) returns (d: nat)
    requires t.Valid()
    ensures d == CrcWord(data, t.W)
  {
    hide MulXn, Xor, HoldsPowers;
    d := data;
    for k := 0 to t.W
      invariant d == WordSteps(data, k)
    {
      d := Xor(d / 256, t.crcTable[d % 256]);
    }
  }

  /** crc_word_big() works on the swapped word and leaves the swapped CRC. */
  method CrcWordBig(t: Tables, data: nat, ghost w: nat) returns (d: nat)
    requires t.Valid() && Fits(w, t.W) && data == Swap(w, t.W)
    ensures d == Swap(CrcWord(w, t.W), t.W)
  {
    hide MulXn, Xor, Swap, ShlByte, HoldsPowers, WordStep;
    d := data;
    for k := 0 to t.W
      invariant d == Swap(WordSteps(w, k), t.W)
    {
      StepBounds(w, t.W, k);
      BigStepIsSwappedStep(WordSteps(w, k), t.W);
      d := Xor(ShlByte(d, t.W), t.crcBigTable[ByteAt(d, t.W - 1)]);
    }
  }

  method BraidWordLittle(t: Tables, w: nat) returns (c: u32)
    requires t.Valid()
    ensures c == BraidSum(w, t.W, t.N * t.W)
  {
    hide MulXn, Xor, HoldsPowers;
    c := t.braidTable[0, ByteAt(w, 0)];
    XorZero(c);
    assert BraidSum(w, 0, t.N * t.W) == 0;
    for k := 1 to t.W
      invariant c == BraidSum(w, k, t.N * t.W)
    {
      c := Xor32Of(c, t.braidTable[k, ByteAt(w, k)]);
    }
  }

  method BraidWordBig(t: Tables, data: nat, ghost w: nat) returns (c: nat)
    requires t.Valid() && data == Swap(w, t.W)
    ensures c == Swap(BraidSum(w, t.W, t.N * t.W), t.W)
  {
    hide MulXn, Xor, Swap, HoldsPowers;
    ghost var e := t.N * t.W;
    SwapBytes(w, t.W);
    c := t.braidBigTable[0, ByteAt(data, 0)];
    assert ByteAt(data, 0) == ByteAt(w, t.W - 1);
    XorZero(MulXn(ByteAt(w, t.W - 1), 8 * (e - (t.W - 1))));
    assert BraidSumDown(w, t.W, 0, e) == 0;
    for k := 1 to t.W
      invariant c == Swap(BraidSumDown(w, t.W, k, e), t.W)
    {
      assert ByteAt(data, k) == ByteAt(w, t.W - 1 - k);
      SwapXor(BraidSumDown(w, t.W, k, e), MulXn(ByteAt(w, t.W - 1 - k), 8 * (e - (t.W - 1 - k))), t.W);
      c := Xor(c, t.braidBigTable[k, ByteAt(data, k)]);
    }
    BraidSumEitherWay(w, t.W, t.W, e);
    assert BraidSum(w, 0, e) == 0;
    XorZero(BraidSumDown(w, t.W, t.W, e));
  }

  // The blocks of N words.

  /** Word `j` of the block at `p`. */
  function WordAt(buf: seq<byte>, p: nat, W: nat, j: nat): nat {
    if p + j * W + W <= |buf| then Load(buf[p + j * W..p + j * W + W]) else 0
  }

  function BlockWords(buf: seq<byte>, p: nat, W: nat, N: nat): (ws: seq<nat>)
    ensures |ws| == N
  {
    seq(N, j requires 0 <= j < N => WordAt(buf, p, W, j))
  }

  lemma WordFits(buf: seq<byte>, p: nat, W: nat, j: nat)
    ensures Fits(WordAt(buf, p, W, j), W)
  {
    if p + j * W + W <= |buf| {
      LoadBytes(buf[p + j * W..p + j * W + W], W);
    } else {
      ShrZero(W);
    }
  }

  lemma WordCrcIsCrc(reg: u32, bs: seq<byte>)
    requires |bs| >= 4
    ensures WordCrc(Xor(reg, Load(bs)), |bs|) == Crc(reg, bs)
  {
    hide Xor, MulXn;
    var W, w := |bs|, Xor(reg, Load(bs));
    RegisterFits(reg, W);
    LoadBytes(bs, W);
    XorBytes(reg, Load(bs), W);
    XorZero(0);
    CrcWordOfWord(w, W);
    BraidSumIsCrc(w, W);
    CrcWordIsCrc(reg, bs);
  }

  /** Feeding the words of a block is feeding its bytes. */
  lemma {:induction false} BlockCrc(reg: u32, buf: seq<byte>, p: nat, W: nat, N: nat, j: nat)
    requires W >= 4 && j <= N && p + j * W <= |buf|
    ensures WordsCrc(reg, BlockWords(buf, p, W, N), W, j) == Crc(reg, buf[p..p + j * W])
  {
    hide Xor, MulXn, WordCrc, Load;
    if j > 0 {
      var q, r := p + (j - 1) * W, p + j * W;
      assert q + W == r;
      BlockCrc(reg, buf, p, W, N, j - 1);
      CrcExtend(reg, buf, p, q, r);
      WordCrcIsCrc(Crc(reg, buf[p..q]), buf[q..r]);
      assert BlockWords(buf, p, W, N)[j - 1] == Load(buf[q..r]);
    }
  }

  ghost predicate Swapped(C: seq<nat>, c: seq<nat>, W: nat) {
    |C| == |c| && forall j :: 0 <= j < |c| ==> C[j] == Swap(c[j], W)
  }

  method LoadLittle(buf: seq<byte>, p: nat, W: nat, N: nat) returns (ws: seq<nat>)
    requires p + N * W <= |buf|
    ensures ws == BlockWords(buf, p, W, N)
  {
    ws := [];
    for j := 0 to N
      invariant |ws| == j && forall i :: 0 <= i < j ==> ws[i] == WordAt(buf, p, W, i)
    {
      InsideBlock(N, W, j);
      ws := ws + [Load(buf[p + j * W..p + j * W + W])];
    }
  }

  lemma InsideBlock(N: nat, W: nat, j: nat)
    requires j < N
    ensures j * W + W <= N * W
  {
    assert N * W == j * W + W + (N - j - 1) * W;
  }

  method LoadBigWords(buf: seq<byte>, p: nat, W: nat, N: nat) returns (ws: seq<nat>)
    requires p + N * W <= |buf|
    ensures Swapped(ws, BlockWords(buf, p, W, N), W)
  {
    hide Swap, Load, LoadBig;
    ws := [];
    for j := 0 to N
      invariant |ws| == j && forall i :: 0 <= i < j ==> ws[i] == Swap(WordAt(buf, p, W, i), W)
    {
      InsideBlock(N, W, j);
      var bs := buf[p + j * W..p + j * W + W];
      LoadBigIsSwapped(bs);
      ws := ws + [LoadBig(bs)];
    }
  }

  /** All blocks but the last: the braids run side by side. */
  method NextBraids(t: Tables, c: seq<u32>, ws: seq<nat>) returns (c': seq<u32>)
    requires t.Valid() && |c| == |ws| == t.N
    requires forall j :: 0 <= j < t.N ==> Fits(ws[j], t.W)
    ensures IsNextBlock(c, ws, c', t.W, t.N)
  {
    hide Xor, MulXn, HoldsPowers, BraidSum;
    c' := [];
    for j := 0 to t.N
      invariant |c'| == j && forall i :: 0 <= i < j ==> c'[i] == NextBraid(c[i], ws[i], t.W, t.N)
    {
      var word := Xor(c[j], ws[j]);
      BraidFits(c[j], ws[j], t.W);
      BraidIsShiftedCrc(word, t.W, t.N);
      var crc := BraidWordLittle(t, word);
      c' := c' + [crc];
    }
  }

  lemma BraidFits(c: u32, w: nat, W: nat)
    requires W >= 4 && Fits(w, W)
    ensures Fits(Xor(c, w), W)
  {
    hide Xor;
    RegisterFits(c, W);
    XorBytes(c, w, W);
    XorZero(0);
  }

  /** The last block: the braids are combined as its words are fed. */
  method FoldBraids(t: Tables, c: seq<u32>, ws: seq<nat>) returns (crc: u32)
    requires t.Valid() && |c| == |ws| == t.N
    requires forall j :: 0 <= j < t.N ==> Fits(ws[j], t.W)
    ensures crc == Folded(c, ws, t.W, t.N)
  {
    hide Xor, MulXn, HoldsPowers, CrcWord, BraidSum;
    crc := 0;
    for j := 0 to t.N
      invariant crc == Folded(c, ws, t.W, j)
    {
      var word := Xor(Xor(c[j], ws[j]), crc);
      FoldFits(c[j], ws[j], crc, t.W);
      CrcWordOfWord(word, t.W);
      BraidSumIsCrc(word, t.W);
      crc := CrcWordLittle(t, word);
    }
  }

  lemma FoldFits(c: u32, w: nat, crc: u32, W: nat)
    requires W >= 4 && Fits(w, W)
    ensures Fits(Xor(Xor(c, w), crc), W)
  {
    hide Xor;
    BraidFits(c, w, W);
    RegisterFits(crc, W);
    XorBytes(Xor(c, w), crc, W);
    XorZero(0);
  }

  method NextBraidsBig(t: Tables, C: seq<nat>, Ws: seq<nat>, ghost c: seq<u32>, ghost ws: seq<nat>)
    returns (C': seq<nat>, ghost c': seq<u32>)
    requires t.Valid() && |c| == |ws| == t.N && Swapped(C, c, t.W) && Swapped(Ws, ws, t.W)
    requires forall j :: 0 <= j < t.N ==> Fits(ws[j], t.W)
    ensures IsNextBlock(c, ws, c', t.W, t.N) && Swapped(C', c', t.W)
  {
    hide Xor, MulXn, HoldsPowers, BraidSum, Swap;
    C', c' := [], [];
    for j := 0 to t.N
      invariant |C'| == |c'| == j && forall i :: 0 <= i < j ==> c'[i] == NextBraid(c[i], ws[i], t.W, t.N)
      invariant Swapped(C', c', t.W)
    {
      ghost var w := Xor(c[j], ws[j]);
      SwapXor(c[j], ws[j], t.W);
      BraidFits(c[j], ws[j], t.W);
      BraidIsShiftedCrc(w, t.W, t.N);
      var crc := BraidWordBig(t, Xor(C[j], Ws[j]), w);
      C', c' := C' + [crc], c' + [BraidSum(w, t.W, t.N * t.W)];
    }
  }

  method FoldBraidsBig(t: Tables, C: seq<nat>, Ws: seq<nat>, ghost c: seq<u32>, ghost ws: seq<nat>) returns (comb: nat)
    requires t.Valid() && |c| == |ws| == t.N && Swapped(C, c, t.W) && Swapped(Ws, ws, t.W)
    requires forall j :: 0 <= j < t.N ==> Fits(ws[j], t.W)
    ensures comb == Swap(Folded(c, ws, t.W, t.N), t.W)
  {
    hide Xor, MulXn, HoldsPowers, BraidSum, Swap, CrcWord;
    comb := 0;
    BraidZero(0, t.W);
    for j := 0 to t.N
      invariant comb == Swap(Folded(c, ws, t.W, j), t.W)
    {
      ghost var f := Folded(c, ws, t.W, j);
      ghost var w := Xor(Xor(c[j], ws[j]), f);
      SwapXor(c[j], ws[j], t.W);
      SwapXor(Xor(c[j], ws[j]), f, t.W);
      FoldFits(c[j], ws[j], f, t.W);
      CrcWordOfWord(w, t.W);
      BraidSumIsCrc(w, t.W);
      comb := CrcWordBig(t, Xor(Xor(C[j], Ws[j]), comb), w);
    }
  }

  lemma BlockFits(buf: seq<byte>, p: nat, W: nat, N: nat)
    ensures forall j :: 0 <= j < N ==> Fits(BlockWords(buf, p, W, N)[j], W)
  {
    forall j | 0 <= j < N
      ensures Fits(BlockWords(buf, p, W, N)[j], W)
    {
      WordFits(buf, p, W, j);
    }
  }

  /** What a block does to the braids and to the register they stand for. */
  lemma BlockStep(c: seq<u32>, c': seq<u32>, reg: u32, buf: seq<byte>, p: nat, W: nat, N: nat)
    requires W >= 4 && N >= 1 && |c| == N && p + N * W <= |buf|
    requires Pending(c, W, N) == MulXn(reg, 8 * (N * W))
    ensures var ws := BlockWords(buf, p, W, N);
      && Folded(c, ws, W, N) == Crc(reg, buf[p..p + N * W])
      && (IsNextBlock(c, ws, c', W, N) ==> Pending(c', W, N) == MulXn(Crc(reg, buf[p..p + N * W]), 8 * (N * W)))
  {
    hide MulXn;
    var ws := BlockWords(buf, p, W, N);
    LastBlock(c, ws, W, N, reg);
    BlockCrc(reg, buf, p, W, N, N);
    if IsNextBlock(c, ws, c', W, N) {
      NextBlock(c, ws, c', W, N, N);
    }
  }

  lemma CrcExtend(crc: u32, buf: seq<byte>, p: nat, q: nat, r: nat)
    requires p <= q <= r <= |buf|
    ensures Crc(crc, buf[p..r]) == Crc(Crc(crc, buf[p..q]), buf[q..r])
  {
    assert buf[p..r] == buf[p..q] + buf[q..r];
    CrcConcat(crc, buf[p..q], buf[q..r]);
  }

  /** The braids c carry the register reg: read N words further on they make up the same polynomial. */
  ghost predicate Carries(c: seq<u32>, reg: u32, t: Tables) {
    |c| == t.N && Pending(c, t.W, t.N) == MulXn(reg, 8 * (t.N * t.W))
  }

  method BlockLittle(t: Tables, c: seq<u32>, buf: seq<byte>, p: nat, ghost reg: u32) returns (c': seq<u32>)
    requires t.Valid() && p + t.N * t.W <= |buf| && Carries(c, reg, t)
    ensures Carries(c', Crc(reg, buf[p..p + t.N * t.W]), t)
  {
    hide Xor, MulXn, Load, HoldsPowers, BraidSum, Crc, Folded, Pending;
    var ws := LoadLittle(buf, p, t.W, t.N);
    BlockFits(buf, p, t.W, t.N);
    c' := NextBraids(t, c, ws);
    BlockStep(c, c', reg, buf, p, t.W, t.N);
  }

  method LastLittle(t: Tables, c: seq<u32>, buf: seq<byte>, p: nat, ghost reg: u32) returns (crc: u32)
    requires t.Valid() && p + t.N * t.W <= |buf| && Carries(c, reg, t)
    ensures crc == Crc(reg, buf[p..p + t.N * t.W])
  {
    hide Xor, MulXn, Load, HoldsPowers, BraidSum, Crc, Folded, Pending;
    var ws := LoadLittle(buf, p, t.W, t.N);
    BlockFits(buf, p, t.W, t.N);
    BlockStep(c, c, reg, buf, p, t.W, t.N);
    crc := FoldBraids(t, c, ws);
  }

  method BlockBig(t: Tables, C: seq<nat>, buf: seq<byte>, p: nat, ghost c: seq<u32>, ghost reg: u32)
    returns (C': seq<nat>, ghost c': seq<u32>)
    requires t.Valid() && p + t.N * t.W <= |buf| && Carries(c, reg, t) && Swapped(C, c, t.W)
    ensures Carries(c', Crc(reg, buf[p..p + t.N * t.W]), t) && Swapped(C', c', t.W)
  {
    hide Xor, MulXn, Load, HoldsPowers, BraidSum, Crc, Folded, Pending, Swap;
    var Ws := LoadBigWords(buf, p, t.W, t.N);
    BlockFits(buf, p, t.W, t.N);
    C', c' := NextBraidsBig(t, C, Ws, c, BlockWords(buf, p, t.W, t.N));
    BlockStep(c, c', reg, buf, p, t.W, t.N);
  }

  method LastBig(t: Tables, C: seq<nat>, buf: seq<byte>, p: nat, ghost c: seq<u32>, ghost reg: u32) returns (crc: u32)
    requires t.Valid() && p + t.N * t.W <= |buf| && Carries(c, reg, t) && Swapped(C, c, t.W)
    ensures crc == Crc(reg, buf[p..p + t.N * t.W])
  {
    hide Xor, MulXn, Load, HoldsPowers, BraidSum, Crc, Folded, Pending, Swap;
    var Ws := LoadBigWords(buf, p, t.W, t.N);
    BlockFits(buf, p, t.W, t.N);
    BlockStep(c, c, reg, buf, p, t.W, t.N);
    var comb := FoldBraidsBig(t, C, Ws, c, BlockWords(buf, p, t.W, t.N));
    RegisterFits(Crc(reg, buf[p..p + t.N * t.W]), t.W);
    SwapTwice(Crc(reg, buf[p..p + t.N * t.W]), t.W);
    crc := Swap(comb, t.W);
  }

  lemma StartCarries(c: seq<u32>, crc: u32, t: Tables)
    requires t.Valid() && c == StartBraids(crc, t.N)
    ensures Carries(c, crc, t)
  {
    FirstBlock(c, t.W, t.N, crc);
  }

  /** One block less to go. */
  lemma OneBlock(b: nat, nw: nat)
    requires b > 0
    ensures b * nw == (b - 1) * nw + nw
  {
  }

  method BraidLittle(t: Tables, crc: u32, buf: seq<byte>, p: nat, blks: nat) returns (crc': u32, p': nat)
    requires t.Valid() && blks >= 1 && p + blks * (t.N * t.W) <= |buf|
    ensures p' == p + blks * (t.N * t.W) && crc' == Crc(crc, buf[p..p'])
  {
    hide *;
    var nw := t.N * t.W;
    var b: nat := blks - 1;
    var c := StartBraids(crc, t.N);
    StartCarries(c, crc, t);
    CrcNothing(crc);
    assert buf[p..p] == [];
    OneBlock(blks, nw);
    p' := p;
    while b > 0
      invariant p <= p' && p' + b * nw + nw == p + blks * nw
      invariant Carries(c, Crc(crc, buf[p..p']), t)
    {
      OneBlock(b, nw);
      c := BlockLittle(t, c, buf, p', Crc(crc, buf[p..p']));
      CrcExtend(crc, buf, p, p', p' + nw);
      p', b := p' + nw, b - 1;
    }
    assert 0 * nw == 0;
    crc' := LastLittle(t, c, buf, p', Crc(crc, buf[p..p']));
    CrcExtend(crc, buf, p, p', p' + nw);
    p' := p' + nw;
  }

  method BraidBig(t: Tables, crc: u32, buf: seq<byte>, p: nat, blks: nat) returns (crc': u32, p': nat)
    requires t.Valid() && blks >= 1 && p + blks * (t.N * t.W) <= |buf|
    ensures p' == p + blks * (t.N * t.W) && crc' == Crc(crc, buf[p..p'])
  {
    hide *;
    var nw := t.N * t.W;
    var b: nat := blks - 1;
    ghost var c := StartBraids(crc, t.N);
    var C := StartBraidsBig(crc, t.N, t.W);
    StartCarries(c, crc, t);
    CrcNothing(crc);
    assert buf[p..p] == [];
    OneBlock(blks, nw);
    p' := p;
    while b > 0
      invariant p <= p' && p' + b * nw + nw == p + blks * nw
      invariant Carries(c, Crc(crc, buf[p..p']), t) && Swapped(C, c, t.W)
    {
      OneBlock(b, nw);
      C, c := BlockBig(t, C, buf, p', c, Crc(crc, buf[p..p']));
      CrcExtend(crc, buf, p, p', p' + nw);
      p', b := p' + nw, b - 1;
    }
    assert 0 * nw == 0;
    crc' := LastBig(t, C, buf, p', c, Crc(crc, buf[p..p']));
    CrcExtend(crc, buf, p, p', p' + nw);
    p' := p' + nw;
  }

  function StartBraidsBig(crc: u32, N: nat, W: nat): (C: seq<nat>)
    ensures Swapped(C, StartBraids(crc, N), W)
  {
    BraidZero(0, W);
    seq(N, j => if j == 0 then Swap(crc, W) else 0)
  }

  function StartBraids(crc: u32, N: nat): (c: seq<u32>)
    ensures |c| == N && forall j :: 0 <= j < N ==> c[j] == if j == 0 then crc else 0
  {
    seq(N, j => if j == 0 then crc else 0)
  }

  /** Is this address a multiple of the word size? */
  predicate Aligned(addr: nat, W: nat) {
    if W == 4 then addr % 4 == 0 else addr % 8 == 0
  }

  method FeedByte(t: Tables, crc: u32, b: byte) returns (crc': u32)
    requires t.Valid()
    ensures crc' == CrcByte(crc, b)
  {
    hide Xor, MulXn, HoldsPowers;
    TableStep(crc, b);
    crc' := Xor(crc / 256, t.crcTable[Xor(crc, b) % 256]);
  }

  /** Bytes one at a time up to a word boundary: at most W-1 of them. */
  method FeedToBoundary(t: Tables, crc: u32, buf: seq<byte>, addr: nat) returns (crc': u32, p: nat)
    requires t.Valid()
    ensures p <= |buf| && p < t.W && crc' == Crc(crc, buf[..p])
    ensures p < |buf| ==> Aligned(addr + p, t.W)
  {
    hide Xor, MulXn, HoldsPowers, CrcByte;
    crc', p := crc, 0;
    while p < |buf| && !Aligned(addr + p, t.W)
      invariant p <= |buf| && crc' == Crc(crc, buf[..p])
      invariant p <= ToBoundary(addr, t.W)
    {
      crc' := FeedByte(t, crc', buf[p]);
      assert buf[..p + 1][..p] == buf[..p];
      p := p + 1;
    }
  }

  /** Distance from an address to the next word boundary. */
  function ToBoundary(addr: nat, W: nat): (d: nat)
    requires W == 4 || W == 8
    ensures d < W && Aligned(addr + d, W)
  {
    if W == 4 then NextBy(addr, 4) else NextBy(addr, 8)
  }

  function NextBy(addr: nat, m: nat): (d: nat)
    requires m == 4 || m == 8
    ensures d < m && (addr + d) % m == 0
  {
    var r := addr % m;
    assert addr == m * (addr / m) + r;
    if r == 0 then 0 else m - r
  }

  method FeedRest(t: Tables, crc: u32, buf: seq<byte>, p: nat) returns (crc': u32)
    requires t.Valid() && p <= |buf|
    ensures crc' == Crc(crc, buf[p..])
  {
    hide Xor, MulXn, HoldsPowers, CrcByte;
    crc' := crc;
    for i := p to |buf|
      invariant crc' == Crc(crc, buf[p..i])
    {
      crc' := FeedByte(t, crc', buf[i]);
      assert buf[p..i + 1][..i - p] == buf[p..i];
    }
    assert buf[p..|buf|] == buf[p..];
  }

  lemma BlockCount(len: nat, nw: nat)
    requires nw > 0
    ensures (len / nw) * nw <= len < (len / nw) * nw + nw && (len >= nw ==> len / nw >= 1)
  {
  }

  /** As many blocks as the buffer holds, after the bytes up to a word boundary. The length leaves
      room for at least one block, so the block count never wraps. */
  method FeedBlocks(t: Tables, crc: u32, buf: seq<byte>, addr: nat, littleEndian: bool) returns (c: u32, p: nat)
    requires t.Valid() && |buf| >= t.N * t.W + t.W - 1
    ensures p <= |buf| && c == Crc(crc, buf[..p])
    ensures |buf| - p < t.N * t.W
  {
    hide Xor, MulXn, HoldsPowers, Crc;
    c, p := FeedToBoundary(t, crc, buf, addr);
    var nw := t.N * t.W;
    BlockCount(|buf| - p, nw);
    var blks := (|buf| - p) / nw;
    ghost var q := p;
    if littleEndian {
      c, p := BraidLittle(t, c, buf, p, blks);
    } else {
      c, p := BraidBig(t, c, buf, p, blks);
    }
    assert buf[..q] == buf[0..q] && buf[..p] == buf[0..p];
    CrcExtend(crc, buf, 0, q, p);
  }

  /** crc32_z(): whatever the length, the alignment of the buffer and the byte order of the machine,
      the braided calculation is the byte-at-a-time CRC. A null buffer asks for the initial value. */
  method Crc32Z(t: Tables, crc: u32, input: Input, addr: nat, littleEndian: bool) returns (r: u32)
    requires t.Valid()
    ensures input.Null? ==> r == 0
    ensures input.Buffer? ==> r == Update(crc, input.bytes)
    ensures Xor(crc, 0xffff_ffff) < 0x1_0000_0000
    ensures input.Buffer? ==>
      r == Xor(Xor(MulXn(Xor(crc, 0xffff_ffff), 8 * |input.bytes|), MulXn(Message(input.bytes), 32)), 0xffff_ffff)
  {
    Xor32(crc, 0xffff_ffff);
    if input.Null? {
      return 0;
    }
    hide Xor, MulXn, HoldsPowers, Crc;
    var buf := input.bytes;
    var start := Xor32Of(crc, ALL_ONES);
    var c, p := start, 0;
    CrcNothing(start);
    assert buf[..0] == [];
    if |buf| >= t.N * t.W + t.W - 1 {
      c, p := FeedBlocks(t, start, buf, addr, littleEndian);
    }
    assert buf == buf[..p] + buf[p..];
    CrcConcat(start, buf[..p], buf[p..]);
    c := FeedRest(t, c, buf, p);
    r := Xor32Of(c, ALL_ONES);
    UpdateIsRemainder(crc, buf);
  }

  lemma CrcNothing(reg: u32)
    ensures Crc(reg, []) == reg
  {
  }

  datatype Input = Null | Buffer(bytes: seq<byte>)

  // crc32_combine64(), crc32_combine_gen64(), crc32_combine_op().

  /** What a call comes to. Some do not come back, see X2nModPEnds and MultModPEnds. */
  datatype Outcome = Returns(value: u32) | NeverReturns

  method Combine64(x2n: array<u32>, crc1: u32, crc2: u32, len2: int) returns (r: Outcome)
    requires HoldsPowers(x2n[..])
    ensures r == if len2 < 0 then NeverReturns else Returns(Xor32Of(MulXn(crc1, 8 * len2), crc2))
  {
    hide Xor, XPow, Mult;
    var gen := CombineGen64(x2n, len2);
    if gen == NeverReturns {
      return NeverReturns;
    }
    r := CombineOp(crc1, crc2, gen.value);
    MultXPow(8 * len2, crc1);
  }

  method CombineGen64(x2n: array<u32>, len2: int) returns (r: Outcome)
    requires HoldsPowers(x2n[..])
    ensures r == if len2 < 0 then NeverReturns else Returns(XPow(8 * len2))
    ensures r.Returns? ==> r.value != 0
  {
    hide XPow;
    if len2 < 0 {
      return NeverReturns;
    }
    var op := X2nModP(x2n, len2, 3);
    Pow2OfThree();
    XPowNonzero(8 * len2);
    r := Returns(op);
  }

  method CombineOp(crc1: u32, crc2: u32, op: u32) returns (r: Outcome)
    ensures r == if op == 0 then NeverReturns else Returns(Xor32Of(Mult(op, crc1), crc2))
  {
    if op == 0 {
      return NeverReturns;
    }
    var m := MultModP(op, crc1);
    m := Xor32Of(m, crc2);
    r := Returns(m);
  }

  /** Combination is a homomorphism: from the checksums of two messages, that of their concatenation,
      however the first checksum was started. */
  lemma CombineIsConcat(crc: u32, a: seq<byte>, b: seq<byte>)
    ensures Xor(MulXn(Update(crc, a), 8 * |b|), Update(0, b)) == Update(crc, a + b)
    ensures Xor(Mult(XPow(8 * |b|), Update(crc, a)), Update(0, b)) == Update(crc, a + b)
  {
    UpdateConcat(crc, a, b);
    MultXPow(8 * |b|, Update(crc, a));
  }
}
