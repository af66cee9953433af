/** _tr_flush_block(): from the counts of a block to the bits that are sent. */
module BlockFlush {
  import opened Bits
  import opened Lz77
  import opened Pending
  import opened BlockStream
  import opened PrefixCodes
  import opened Symbols
  import opened CodeLengths
  import opened BlockTrees
  import opened TreeTables
  import opened TreeSender
  import opened Kraft
  import opened BitCost
  import opened HuffmanLengths
  import opened HuffmanTree
  import opened Tallies

  // scan_tree() and build_bl_tree().

  ghost predicate ItemsIn(items: seq<Item>) {
    forall i :: 0 <= i < |items| ==> items[i].code < BL_CODES
  }

  lemma RunItemsIn(count: nat, cur: nat, prev: int)
    requires cur <= MAX_BITS && count <= MaxCount(prev, cur)
    ensures ItemsIn(RunItems(count, cur, prev))
  {
  }

  lemma {:induction false} SinglesCounted(freq: seq<nat>, count: nat, cur: nat)
    requires |freq| == BL_CODES && cur < BL_CODES
    ensures ItemFreqs(freq, seq(count, _ => Item(cur, 0))) == freq[cur := freq[cur] + count]
  {
    var items := seq(count, _ => Item(cur, 0));
    if count > 0 {
      SinglesCounted(freq, count - 1, cur);
      assert items[..count - 1] == seq(count - 1, _ => Item(cur, 0));
    }
  }

  lemma OneItem(freq: seq<nat>, i: Item)
    requires |freq| == BL_CODES && i.code < BL_CODES
    ensures ItemFreqs(freq, [i]) == More(freq, i.code)
  {
    assert [i][..0] == [];
  }

  lemma TwoItems(freq: seq<nat>, i: Item, j: Item)
    requires |freq| == BL_CODES && i.code < BL_CODES && j.code < BL_CODES
    ensures ItemFreqs(freq, [i, j]) == More(More(freq, i.code), j.code)
  {
    OneItem(freq, i);
    assert [i, j][..1] == [i];
  }

  /** Counting the items for a run. */
  method ScanRun(fc: array<nat>, count: nat, cur: nat, prev: int, min: nat)
    requires fc.Length >= BL_CODES && cur <= MAX_BITS && 1 <= count <= MaxCount(prev, cur) && min == MinCount(prev, cur)
    modifies fc
    ensures ItemsIn(RunItems(count, cur, prev))
    ensures fc[..BL_CODES] == ItemFreqs(old(fc[..BL_CODES]), RunItems(count, cur, prev))
  {
    hide ItemFreqs;
    RunItemsIn(count, cur, prev);
    ghost var freq := fc[..BL_CODES];
    if count < min {
      SinglesCounted(freq, count, cur);
      fc[cur] := fc[cur] + count;
      assert fc[..BL_CODES] == freq[cur := freq[cur] + count];
    } else if cur != 0 {
      if cur != prev {
        TwoItems(freq, Item(cur, 0), Item(REP_3_6, count - 4));
        fc[cur] := fc[cur] + 1;
        assert fc[..BL_CODES] == More(freq, cur);
        fc[REP_3_6] := fc[REP_3_6] + 1;
        assert fc[..BL_CODES] == More(More(freq, cur), REP_3_6);
      } else {
        OneItem(freq, Item(REP_3_6, count - 3));
        fc[REP_3_6] := fc[REP_3_6] + 1;
        assert fc[..BL_CODES] == More(freq, REP_3_6);
      }
    } else if count <= 10 {
      OneItem(freq, Item(REPZ_3_10, count - 3));
      fc[REPZ_3_10] := fc[REPZ_3_10] + 1;
      assert fc[..BL_CODES] == More(freq, REPZ_3_10);
    } else {
      OneItem(freq, Item(REPZ_11_138, count - 11));
      fc[REPZ_11_138] := fc[REPZ_11_138] + 1;
      assert fc[..BL_CODES] == More(freq, REPZ_11_138);
    }
  }

  lemma {:induction false} AfterIn(lens: seq<nat>, n: nat)
    requires n <= |lens| && Short(lens)
    ensures ItemsIn(After(lens, n).items)
  {
    ItemsGood(lens, n);
  }

  lemma RunScanned(freq: seq<nat>, lens: seq<nat>, n: nat)
    requires |freq| == BL_CODES && n < |lens| && Short(lens) && After(lens, n + 1).count == 0
    ensures ItemsIn(After(lens, n).items) && ItemsIn(After(lens, n + 1).items) && After(lens, n + 1).prev == lens[n]
    ensures var p := After(lens, n); var run := RunItems(p.count + 1, lens[n], p.prev);
      ItemsIn(run) && ItemFreqs(freq, After(lens, n + 1).items) == ItemFreqs(ItemFreqs(freq, p.items), run)
  {
    hide RunItems, MaxCount, ItemFreqs;
    AfterIn(lens, n);
    AfterIn(lens, n + 1);
    var p := After(lens, n);
    RunItemsIn(p.count + 1, lens[n], p.prev);
    ItemFreqsConcat(freq, p.items, RunItems(p.count + 1, lens[n], p.prev));
  }

  /** scan_tree(): how often each item will be sent for these lengths. */
  method ScanTree(fc: array<nat>, lens: seq<nat>)
    requires fc.Length >= BL_CODES && |lens| > 0 && Short(lens)
    modifies fc
    ensures ItemsIn(TreeItems(lens)) && fc[..BL_CODES] == ItemFreqs(old(fc[..BL_CODES]), TreeItems(lens))
  {
    hide ItemFreqs, RunItems, ItemsIn;
    ghost var freq := fc[..BL_CODES];
    var prevlen: int, nextlen: nat, count: nat := -1, lens[0], 0;
    var maxCount, minCount := 7, 4;
    if nextlen == 0 {
      maxCount, minCount := 138, 3;
    }
    AfterIn(lens, 0);
    NoFreqs(freq);
    for i := 0 to |lens|
      invariant After(lens, i) == Progress(After(lens, i).items, count, prevlen) && nextlen == NextLen(lens, i)
      invariant i < |lens| ==> maxCount == MaxCount(prevlen, lens[i]) && minCount == MinCount(prevlen, lens[i])
      invariant ItemsIn(After(lens, i).items) && Freqs(fc[..BL_CODES], freq, After(lens, i).items)
    {
      var curlen := nextlen;
      nextlen := NextLen(lens, i + 1);
      count := count + 1;
      if count < maxCount && curlen == nextlen {
        continue;
      }
      RunScanned(freq, lens, i);
      ScanRun(fc, count, curlen, prevlen, minCount);
      count, prevlen := 0, curlen;
      if nextlen == 0 {
        maxCount, minCount := 138, 3;
      } else if curlen == nextlen {
        maxCount, minCount := 6, 3;
      } else {
        maxCount, minCount := 7, 4;
      }
    }
  }

  ghost predicate Freqs(now: seq<nat>, freq: seq<nat>, items: seq<Item>) {
    |freq| == BL_CODES && ItemsIn(items) && now == ItemFreqs(freq, items)
  }

  lemma NoFreqs(freq: seq<nat>)
    requires |freq| == BL_CODES
    ensures ItemFreqs(freq, []) == freq && ItemsIn([])
  {
  }

  // The three trees of a block.

  function LDesc(): Desc { Desc(EXTRA_LBITS, END_BLOCK + 1, L_CODES, MAX_BITS, FixedLengths()) }
  function DDesc(): Desc { Desc(EXTRA_DBITS, 0, D_CODES, MAX_BITS, FixedDistances()) }
  function BlDesc(): Desc { Desc(EXTRA_BLBITS, 0, BL_CODES, 7, []) }

  lemma Descs()
    ensures GoodDesc(LDesc()) && GoodDesc(DDesc()) && GoodDesc(BlDesc())
  {
    hide Pow2;
    SmallPowers();
    assert Pow2(14) == 2 * Pow2(13) && Pow2(15) == 2 * Pow2(14) by {
      PowerStep(13);
      PowerStep(14);
    }
  }

  lemma PowerStep(n: nat)
    ensures Pow2(n + 1) == 2 * Pow2(n)
  {
  }

  /** A tree built for these counts: what must hold of it before anything is sent. */
  ghost predicate BuiltFor(t: Table, freq: seq<nat>, d: Desc, opt: int, stat: int) {
    && |t.lens| <= d.elems == |freq| && |t.lens| >= 2 && GoodTable(t)
    && (forall n :: 0 <= n < |t.lens| ==> t.lens[n] <= d.max)
    && (forall n :: 0 <= n < |freq| && freq[n] != 0 ==> Uses(t.lens, n))
    && opt == Cost(freq, t.lens, d.extra, d.base)
    && (d.stree != [] ==> |d.stree| >= |t.lens| && stat == Cost(freq, d.stree[..|t.lens|], d.extra, d.base))
    && (d.stree == [] ==> stat == 0)
  }

  /** build_tree(), and its result. */
  method BuildTable(heap: array<nat>, depth: array<nat>, counts: array<nat>, dl: array<nat>, fc: array<nat>, d: Desc)
    returns (t: Table, opt: int, stat: int)
    requires heap != dl && heap != fc && heap != depth && dl != fc && dl != depth && fc != depth && counts != dl
    requires counts != fc && counts != heap && counts != depth
    requires fc.Length == dl.Length <= depth.Length && 2 * d.elems <= dl.Length && 2 * d.elems <= heap.Length
    requires counts.Length == MAX_BITS + 1 && GoodDesc(d)
    modifies heap, depth, counts, dl, fc
    ensures BuiltFor(t, old(fc[..d.elems]), d, opt, stat)
    ensures |t.lens| <= dl.Length && t.lens == dl[..|t.lens|] && t.codes == fc[..|t.lens|]
    ensures forall n :: |t.lens| <= n < d.elems ==> dl[n] == 0
  {
    hide Consistent, Counts, Space, Pow2, Cost, Reversed, XBits;
    ghost var freq := fc[..];
    CoversParts(d.stree, d.elems);
    var maxCode;
    ghost var cut;
    maxCode, opt, stat, cut := BuildTree(heap, dl, fc, depth, counts, d);
    t := Table(dl[..maxCode + 1], fc[..maxCode + 1]);
    CostSame(freq, freq[..d.elems], t.lens, t.lens, d.extra, d.base);
    if d.stree != [] {
      CostSame(freq, freq[..d.elems], d.stree[..maxCode + 1], d.stree[..maxCode + 1], d.extra, d.base);
    }
  }

  // The code for the items may have symbols without a length at its end.

  lemma {:induction false} CountPadded(lens: seq<nat>, n: nat, len: nat)
    requires len >= 1
    ensures Count(lens + Same(0, n), len) == Count(lens, len)
  {
    CountSame(0, n, len);
    CountConcat(lens, Same(0, n), len);
  }

  lemma {:induction false} FirstPadded(lens: seq<nat>, n: nat, len: nat)
    ensures First(lens + Same(0, n), len) == First(lens, len)
  {
    if len > 0 {
      FirstPadded(lens, n, len - 1);
      if len > 1 {
        CountPadded(lens, n, len - 1);
      }
    }
  }

  lemma PaddedTable(t: Table, n: nat, codes: seq<nat>)
    requires GoodTable(t) && |t.codes| == |t.lens| && |codes| == |t.lens| + n && codes[..|t.lens|] == t.codes
    ensures GoodTable(Table(t.lens + Same(0, n), codes))
  {
    hide First, Count;
    var lens := t.lens + Same(0, n);
    forall len | 1 <= len <= MAX_BITS ensures RoomFor(lens, len) {
      CountPadded(t.lens, n, len);
      FirstPadded(t.lens, n, len);
      assert RoomFor(t.lens, len);
    }
    forall i | 0 <= i < |lens| && lens[i] != 0 ensures Reversed(codes[i], lens, i) {
      FirstPadded(t.lens, n, lens[i]);
      assert lens[..i] == t.lens[..i];
      assert codes[i] == codes[..|t.lens|][i];
      assert Reversed(t.codes[i], t.lens, i);
    }
  }

  /** The fields of deflate_state that trees.c works with. A tree keeps the count of a symbol and later its
      code in one place, and the father of a node and later its length in another. */
  class TreeSpace {
    const heap: array<nat>
    const depth: array<nat>
    const blCount: array<nat>
    const lfc: array<nat>
    const ldl: array<nat>
    const dfc: array<nat>
    const ddl: array<nat>
    const blfc: array<nat>
    const bldl: array<nat>

    constructor ()
      ensures Valid() && fresh(heap) && fresh(depth) && fresh(blCount) && fresh(lfc) && fresh(ldl) && fresh(dfc)
      ensures fresh(ddl) && fresh(blfc) && fresh(bldl)
    {
      heap, depth, blCount := new nat[2 * L_CODES + 1], new nat[2 * L_CODES + 1], new nat[MAX_BITS + 1];
      lfc, ldl := new nat[2 * L_CODES + 1], new nat[2 * L_CODES + 1];
      dfc, ddl := new nat[2 * D_CODES + 1], new nat[2 * D_CODES + 1];
      blfc, bldl := new nat[2 * BL_CODES + 1], new nat[2 * BL_CODES + 1];
    }

    predicate Valid() {
      && heap.Length == depth.Length == lfc.Length == ldl.Length == 2 * L_CODES + 1 && blCount.Length == MAX_BITS + 1
      && dfc.Length == ddl.Length == 2 * D_CODES + 1 && blfc.Length == bldl.Length == 2 * BL_CODES + 1
      && heap != depth && heap != lfc && heap != ldl && depth != lfc && depth != ldl && lfc != ldl && dfc != ddl
      && blfc != bldl
    }

    /** Nothing of this is the output buffer. */
    predicate Apart(buf: array<byte>) {
      && buf as object != heap && buf as object != depth && buf as object != blCount && buf as object != lfc
      && buf as object != ldl
      && buf as object != dfc && buf as object != ddl && buf as object != blfc && buf as object != bldl
    }

    /** init_block(). */
    method Restart()
      requires Valid()
      modifies lfc, dfc, blfc
      ensures Counted([])
    {
      InitBlock(lfc, dfc, blfc);
    }

    /** The symbols of the block have been counted. */
    ghost predicate Counted(syms: seq<Sym>)
      reads lfc, dfc, blfc
    {
      Valid() && lfc[..L_CODES] == LFreqs(syms) && dfc[..D_CODES] == DFreqs(syms)
          && blfc[..BL_CODES] == Same(0, BL_CODES)
    }

    /** The first half of build_bl_tree(): the items for both codes counted, and a tree for them. */
    method BuildBlTree(ll: seq<nat>, dl: seq<nat>) returns (bt: Table, opt: int)
      requires Valid() && blfc[..BL_CODES] == Same(0, BL_CODES) && Short(ll) && Short(dl) && |ll| > 0 && |dl| > 0
      modifies heap, depth, blCount, blfc, bldl
      ensures GoodTable(bt) && BlLengths(bt.lens) && Sendable(bt.lens, TreeItems(ll))
      ensures Sendable(bt.lens, TreeItems(dl))
      ensures opt == |ItemsBits(bt.lens, TreeItems(ll))| + |ItemsBits(bt.lens, TreeItems(dl))|
    {
      hide GoodTable, ItemsBits, ItemFreqs, TreeItems, GoodDesc;
      Descs();
      ScanTree(blfc, ll);
      ScanTree(blfc, dl);
      ghost var freq := blfc[..BL_CODES];
      var t, stat;
      t, opt, stat := BuildTable(heap, depth, blCount, bldl, blfc, BlDesc());
      bt := Table(bldl[..BL_CODES], blfc[..BL_CODES]);
      assert bt.lens == t.lens + Same(0, BL_CODES - |t.lens|);
      assert bt.codes[..|t.lens|] == t.codes;
      PaddedTable(t, BL_CODES - |t.lens|, bt.codes);
      ItemsUsed(ll, dl, freq, t, bt.lens, opt, stat);
    }

    /** The trees for the literals and lengths and for the distances, and the one for their lengths. The
        lengths kept are exactly the bits to be sent. */
    method BuildTrees(ghost syms: seq<Sym>)
      returns (t: Trees, lt: Table, dt: Table, bt: Table, blcodes: nat, optLen: int, staticLen: int)
      requires Counted(syms) && InReach(syms)
      modifies heap, depth, blCount, lfc, ldl, dfc, ddl, blfc, bldl
      ensures Usable(t, syms) && GoodTable(lt) && GoodTable(dt) && GoodTable(bt)
      ensures t == Trees(lt.lens, dt.lens, bt.lens)
      ensures blcodes == BlCodes(t.bl, BL_CODES) && optLen == |HeaderBits(t)| + |BlockData(t.ll, t.dl, syms)|
      ensures FixedSize(syms, staticLen)
    {
      hide BuiltFor, GoodTable, Sendable, AllCoded, BlockData, GoodDesc, HeaderBits, Cost, LFreqs, DFreqs;
      Descs();
      var lopt, lstat, dopt, dstat, bopt;
      lt, lopt, lstat := BuildTable(heap, depth, blCount, ldl, lfc, LDesc());
      dt, dopt, dstat := BuildTable(heap, depth, blCount, ddl, dfc, DDesc());
      BuiltLengths(lt, LFreqs(syms), LDesc(), lopt, lstat);
      BuiltLengths(dt, DFreqs(syms), DDesc(), dopt, dstat);
      bt, bopt := BuildBlTree(lt.lens, dt.lens);
      DataCost(lt, dt, syms, lopt, lstat, dopt, dstat);
      ghost var rank := SomeLengthSent(bt.lens, lt.lens, END_BLOCK);
      var max := MaxBlIndex(bt.lens, rank);
      blcodes := max + 1;
      t := Trees(lt.lens, dt.lens, bt.lens);
      GoodParts(lt);
      GoodParts(dt);
      GoodParts(bt);
      HeaderSize(t);
      optLen := lopt + dopt + bopt + 3 * (max + 1) + 5 + 5 + 4;
      staticLen := lstat + dstat;
    }
  }

  lemma GoodParts(t: Table)
    requires GoodTable(t)
    ensures Consistent(t.lens)
  {
  }

  ghost predicate FixedSize(syms: seq<Sym>, n: int)
    requires InReach(syms)
  {
    FixedSuffices(syms);
    n == |BlockData(FixedLengths(), FixedDistances(), syms)|
  }

  lemma BuiltLengths(t: Table, freq: seq<nat>, d: Desc, opt: int, stat: int)
    requires BuiltFor(t, freq, d, opt, stat)
    ensures 2 <= |t.lens| <= d.elems && Short(t.lens) && GoodTable(t)
  {
    hide Uses, Cost, Reversed;
  }

  /** Both trees together provide for the block, and the lengths are its bits. */
  lemma DataCost(lt: Table, dt: Table, syms: seq<Sym>, lopt: int, lstat: int, dopt: int, dstat: int)
    requires BuiltFor(lt, LFreqs(syms), LDesc(), lopt, lstat) && BuiltFor(dt, DFreqs(syms), DDesc(), dopt, dstat)
    requires InReach(syms)
    ensures AllCoded(lt.lens, dt.lens, syms) && Uses(lt.lens, END_BLOCK) && |lt.lens| >= 257
    ensures lopt + dopt == |BlockData(lt.lens, dt.lens, syms)| && FixedSize(syms, lstat + dstat)
  {
    hide BlockData, Cost, LFreqs, DFreqs, AllCoded, GoodTable, Cut;
    CountedIsCoded(lt.lens, dt.lens, syms);
    BlockCost(lt.lens, dt.lens, syms);
    CutShort(lt.lens);
    FixedSuffices(syms);
    BlockCost(FixedLengths(), FixedDistances(), syms);
    CutOfFixed(|lt.lens|);
    StaticCost(lt.lens, LFreqs(syms), Cut(FixedLengths()), EXTRA_LBITS, END_BLOCK + 1);
    StaticCost(dt.lens, DFreqs(syms), FixedDistances(), EXTRA_DBITS, 0);
  }

  lemma CutShort(lens: seq<nat>)
    requires |lens| <= L_CODES
    ensures Cut(lens) == lens
  {
  }

  lemma CutOfFixed(n: nat)
    requires n <= L_CODES
    ensures |Cut(FixedLengths())| == L_CODES && Cut(FixedLengths())[..n] == FixedLengths()[..n]
  {
  }

  lemma StaticCost(lens: seq<nat>, freq: seq<nat>, stree: seq<nat>, extra: seq<nat>, base: nat)
    requires |lens| <= |freq| == |stree| && forall n :: 0 <= n < |freq| && freq[n] != 0 ==> Uses(lens, n)
    ensures Cost(freq, stree[..|lens|], extra, base) == Cost(freq, stree, extra, base)
  {
    CostTail(freq, stree, |lens|, extra, base);
  }

  lemma HeaderSize(t: Trees)
    requires 257 <= |t.ll| && 1 <= |t.dl| && |t.bl| == BL_CODES && Sendable(t.bl, TreeItems(t.ll))
    requires Sendable(t.bl, TreeItems(t.dl))
    ensures |HeaderBits(t)| == 14 + 3 * BlCodes(t.bl, BL_CODES) + |ItemsBits(t.bl,
        TreeItems(t.ll))| + |ItemsBits(t.bl, TreeItems(t.dl))|
  {
    hide LowBits, ItemsBits, TreeItems;
  }

  lemma ItemsUsed(ll: seq<nat>, dl: seq<nat>, freq: seq<nat>, t: Table, bl: seq<nat>, opt: int, stat: int)
    requires ItemsIn(TreeItems(ll)) && ItemsIn(TreeItems(dl))
    requires freq == ItemFreqs(ItemFreqs(Same(0, BL_CODES), TreeItems(ll)), TreeItems(dl))
    requires BuiltFor(t, freq, BlDesc(), opt, stat) && bl == t.lens + Same(0, BL_CODES - |t.lens|)
    ensures BlLengths(bl) && Sendable(bl, TreeItems(ll)) && Sendable(bl, TreeItems(dl))
    ensures opt == |ItemsBits(bl, TreeItems(ll))| + |ItemsBits(bl, TreeItems(dl))|
  {
    hide ItemsBits, ItemFreqs, TreeItems, GoodTable, Cost, Uses;
    var zero, a, b := Same(0, BL_CODES), TreeItems(ll), TreeItems(dl);
    ItemFreqsConcat(zero, a, b);
    ItemsAreUsed(zero, a + b, t.lens, bl);
    forall i | 0 <= i < |a| ensures Uses(bl, a[i].code) {
      assert (a + b)[i] == a[i];
    }
    forall i | 0 <= i < |b| ensures Uses(bl, b[i].code) {
      assert (a + b)[|a| + i] == b[i];
    }
    ItemsConcat(bl, a, b);
    ItemsCost(bl, zero, a + b);
    CostNone(zero, bl, EXTRA_BLBITS, 0);
    CostPadded(freq, t.lens, bl);
  }

  lemma ItemsAreUsed(zero: seq<nat>, items: seq<Item>, lens: seq<nat>, bl: seq<nat>)
    requires |zero| == BL_CODES && ItemsIn(items) && |lens| <= |bl| && lens == bl[..|lens|]
    requires forall n :: 0 <= n < BL_CODES && ItemFreqs(zero, items)[n] != 0 ==> Uses(lens, n)
    ensures Sendable(bl, items)
  {
    forall i | 0 <= i < |items| ensures Uses(bl, items[i].code) {
      ItemCounted(zero, items, i);
      assert Uses(lens, items[i].code);
    }
  }

  lemma CostPadded(freq: seq<nat>, lens: seq<nat>, bl: seq<nat>)
    requires |freq| == BL_CODES && |lens| <= BL_CODES && bl == lens + Same(0, BL_CODES - |lens|)
    requires forall n :: 0 <= n < |freq| && freq[n] != 0 ==> Uses(lens, n)
    ensures Cost(freq, bl, EXTRA_BLBITS, 0) == Cost(freq, lens, EXTRA_BLBITS, 0)
  {
    CostTail(freq, bl, |lens|, EXTRA_BLBITS, 0);
    assert bl[..|lens|] == lens;
  }

  // The fixed codes, as tr_static_init() makes them.

  /** One of the loops that set lengths and count them. */
  method SetLengths(lens: array<nat>, blCount: array<nat>, from: nat, to: nat, len: nat)
    requires lens != blCount && from <= to <= lens.Length && len < blCount.Length
    modifies lens, blCount
    ensures forall i :: 0 <= i < lens.Length ==> lens[i] == if from <= i < to then len else old(lens[i])
    ensures forall b :: 0 <= b < blCount.Length ==> blCount[b] == old(blCount[b]) + if b == len then to - from else 0
  {
    var n := from;
    while n < to
      invariant from <= n <= to
      invariant forall i :: 0 <= i < lens.Length ==> lens[i] == if from <= i < n then len else old(lens[i])
      invariant forall b :: 0 <= b < blCount.Length ==> blCount[b] == old(blCount[b]) + if b == len then n - from else 0
    {
      lens[n] := len;
      blCount[len] := blCount[len] + 1;
      n := n + 1;
    }
  }

  /** static_ltree. */
  method StaticLTree() returns (t: Table)
    ensures GoodTable(t) && t.lens == FixedLengths()
  {
    hide Count, First, CodeBits, GoodTable, Consistent;
    var lens := new nat[L_CODES + 2];
    var blCount := new nat[MAX_BITS + 1](_ => 0);
    SetLengths(lens, blCount, 0, 144, 8);
    SetLengths(lens, blCount, 144, 256, 9);
    SetLengths(lens, blCount, 256, 280, 7);
    SetLengths(lens, blCount, 280, 288, 8);
    assert lens[..] == FixedLengths();
    FixedConsistent();
    forall len | 1 <= len <= MAX_BITS ensures blCount[len] == Count(FixedLengths(), len) {
      FixedCount(len);
    }
    t := MakeTable(lens[..], blCount[..]);
  }

  method MakeTable(lens: seq<nat>, blCount: seq<nat>) returns (t: Table)
    requires Consistent(lens) && |blCount| == MAX_BITS + 1 && blCount[0] == 0
    requires forall len :: 1 <= len <= MAX_BITS ==> blCount[len] == Count(lens, len)
    ensures GoodTable(t) && t.lens == lens
  {
    hide Count, First, CodeBits;
    var codes := new nat[|lens|];
    GenCodes(lens, blCount, codes);
    t := Table(lens, codes[..]);
  }

  /** static_dtree: five bits each. */
  method StaticDTree() returns (t: Table)
    ensures GoodTable(t) && t.lens == FixedDistances()
  {
    hide Count, First;
    var codes := new nat[D_CODES];
    for n := 0 to D_CODES
      invariant forall i :: 0 <= i < n ==> Reversed(codes[i], FixedDistances(), i)
    {
      DistanceCode(n);
      codes[n] := BiReverse(n, 5);
    }
    FixedConsistent();
    t := Table(FixedDistances(), codes[..]);
  }

  lemma DistanceCode(n: nat)
    requires n < D_CODES
    ensures Code(FixedDistances(), n) == n
  {
    hide Count;
    forall len: nat ensures Count(FixedDistances(), len) == if len == 5 then 30 else 0 {
      CountSame(5, 30, len);
    }
    FirstOfNone(FixedDistances(), 5);
    CountSame(5, n, 5);
    assert FixedDistances()[..n] == Same(5, n);
  }

  // Sending the block in the form chosen.

  method SendStored(out: Output, data: seq<byte>, last: bool, ghost sent: seq<bool>, ghost lead: seq<byte>,
      ghost n: nat)
    requires |data| < 0x1_0000 && 42 + 8 * |data| <= n && SoFar(out, sent, lead, n)
    modifies out`pending, out`put, out`biBuf, out`biValid, out.buf
    ensures SoFar(out, sent + StoredBits(|sent|, data, last), lead, 0)
  {
    hide Pow2, LowBits, ByteBits, StoredHead;
    out.StoredBlock(data, last);
    assert sent + StoredHead(|sent|, |data|, last) + ByteBits(data) == sent + StoredBits(|sent|, data, last);
  }

  method SendFixed(out: Output, tables: Tables, lt: Table, dt: Table, syms: seq<Sym>, last: bool,
      ghost sent: seq<bool>, ghost lead: seq<byte>, ghost n: nat)
    requires GoodTables(tables) && GoodTable(lt) && GoodTable(dt) && lt.lens == FixedLengths()
    requires dt.lens == FixedDistances()
    requires InReach(syms) && |FixedBits(syms, last)| <= n && SoFar(out, sent, lead, n)
    modifies out`pending, out`put, out`biBuf, out`biValid, out.buf
    ensures SoFar(out, sent + FixedBits(syms, last), lead, n - |FixedBits(syms, last)|)
  {
    hide SoFar, GoodTable, GoodTables, BlockData, LowBits, AllCoded;
    FixedSuffices(syms);
    FixedType(last);
    SendField(out, if last then 3 else 2, 3, sent, lead, n);
    CompressBlock(out, tables, lt, dt, syms, sent + [last, true, false], lead, n - 3);
    assert sent + [last, true, false] + BlockData(lt.lens, dt.lens, syms) == sent + FixedBits(syms, last);
  }

  lemma FixedType(last: bool)
    ensures LowBits(if last then 3 else 2, 3) == [last, true, false] && Pow2(3) == 8
  {
    assert LowBits(1, 2) == [true, false];
  }

  lemma DynamicType(last: bool)
    ensures LowBits(if last then 5 else 4, 3) == [last, false, true] && Pow2(3) == 8
  {
    assert LowBits(2, 2) == [false, true];
  }

  method SendDynamic(out: Output, tables: Tables, t: Trees, lt: Table, dt: Table, bt: Table, blcodes: nat,
      syms: seq<Sym>, last: bool, ghost sent: seq<bool>, ghost lead: seq<byte>, ghost n: nat)
    requires GoodTables(tables) && GoodTable(lt) && GoodTable(dt) && GoodTable(bt)
    requires t == Trees(lt.lens, dt.lens, bt.lens)
    requires Usable(t, syms) && blcodes == BlCodes(t.bl, BL_CODES) && |DynamicBits(t, syms, last)| <= n
    requires SoFar(out, sent, lead, n)
    modifies out`pending, out`put, out`biBuf, out`biValid, out.buf
    ensures SoFar(out, sent + DynamicBits(t, syms, last), lead, n - |DynamicBits(t, syms, last)|)
  {
    hide SoFar, GoodTable, GoodTables, BlockData, LowBits, AllCoded, HeaderBits, Sendable, Consistent;
    DynamicType(last);
    ghost var head := HeaderBits(t);
    SendField(out, if last then 5 else 4, 3, sent, lead, n);
    SendAllTrees(out, t, bt, blcodes, syms, sent + [last, false, true], lead, n - 3);
    CompressBlock(out, tables, lt, dt, syms, sent + [last, false, true] + head, lead, n - 3 - |head|);
    assert sent + [last, false, true] + head + BlockData(t.ll, t.dl, syms) == sent + DynamicBits(t, syms, last);
  }

  /** A block as it is when it is flushed. */
  ghost predicate Flushable(b: Block) {
    b.form == Tallied && InReach(b.syms) && (b.verbatim.Some? ==> b.storedLen == |b.verbatim.value| < 0x1_0000)
  }

  /** The form is that which _tr_flush_block() chooses, given the lengths build_tree() kept. */
  method Choose(b: Block, optLen: int, staticLen: int, forceFixed: bool, ghost t: Trees) returns (c: Choice)
    requires Flushable(b) && Usable(t, b.syms) && FixedSize(b.syms, staticLen)
    requires optLen == |HeaderBits(t)| + |BlockData(t.ll, t.dl, b.syms)|
    ensures c == FormOf(t, forceFixed, b)
  {
    hide BlockData, HeaderBits, AllCoded, FixedLengths, FixedDistances, Consistent, Sendable, LengthParts;
    FixedSuffices(b.syms);
    var optLenb, staticLenb := (optLen + 3 + 7) / 8, (staticLen + 3 + 7) / 8;
    if staticLenb <= optLenb || forceFixed {
      optLenb := staticLenb;
    }
    if b.storedLen + 4 <= optLenb && b.verbatim.Some? {
      c := Choice.Store;
    } else if staticLenb == optLenb {
      c := Fixed;
    } else {
      c := Dynamic;
    }
  }

  /** A chosen block fits, with room to spare. */
  lemma ChosenFits(t: Trees, forceFixed: bool, b: Block, at: nat)
    requires Flushable(b) && Usable(t, b.syms)
    ensures |TreeBits(t, forceFixed, b, at)| <= 31 * |b.syms| + 30
    ensures FormOf(t, forceFixed, b) == Choice.Store ==> 42 + 8 * |b.verbatim.value| <= 31 * |b.syms| + 40
  {
    hide SymsBits, CodeBits, Usable, Coded, HeaderBits, LowBits, ByteBits, PadTo8;
    ChosenSize(t, forceFixed, b, at);
    SymbolsSize(b.syms);
    FixedSuffices(b.syms);
  }

  /** _tr_flush_block() at a level above 0. It sends what the specification of the encoder says, for the
      trees it builds, and these are always usable. */
  method FlushBlock(out: Output, s: TreeSpace, tables: Tables, lt: Table, dt: Table, b: Block, forceFixed: bool,
      ghost sent: seq<bool>, ghost lead: seq<byte>) returns (t: Trees)
    requires GoodTables(tables) && GoodTable(lt) && GoodTable(dt) && lt.lens == FixedLengths()
    requires dt.lens == FixedDistances()
    requires Flushable(b) && s.Valid() && s.Counted(b.syms) && s.Apart(out.buf)
    requires SoFar(out, sent, lead, 31 * |b.syms| + 40)
    modifies s.heap, s.depth, s.blCount, s.lfc, s.ldl, s.dfc, s.ddl, s.blfc, s.bldl
    modifies out`pending, out`put, out`biBuf, out`biValid, out.buf
    ensures Usable(t, b.syms) && s.Counted([])
    ensures SoFar(out, sent + TreeBits(t, forceFixed, b, |sent|) + Padding(b.last, |sent + TreeBits(t, forceFixed, b,
        |sent|)|), lead, -8)
  {
    hide SoFar, GoodTable, GoodTables, BlockData, Usable, TreeSpace.Counted, FixedLengths, FixedDistances, FixedSize;
    hide HeaderBits, FormOf, FixedBits, DynamicBits, StoredBits;
    var dlt, ddt, dbt, blcodes, optLen, staticLen;
    t, dlt, ddt, dbt, blcodes, optLen, staticLen := s.BuildTrees(b.syms);
    ghost var n := 31 * |b.syms| + 40;
    ChosenFits(t, forceFixed, b, |sent|);
    var c := Choose(b, optLen, staticLen, forceFixed, t);
    match c {
      case Store =>
        SendStored(out, b.verbatim.value, b.last, sent, lead, n);
      case Fixed =>
        SendFixed(out, tables, lt, dt, b.syms, b.last, sent, lead, n);
        LessRoom(out, sent + FixedBits(b.syms, b.last), lead, n - |FixedBits(b.syms, b.last)|);
      case Dynamic =>
        SendDynamic(out, tables, Trees(dlt.lens, ddt.lens, dbt.lens), dlt, ddt, dbt, blcodes, b.syms, b.last, sent,
          lead, n);
        LessRoom(out, sent + DynamicBits(t, b.syms, b.last), lead, n - |DynamicBits(t, b.syms, b.last)|);
    }
    s.Restart();
    Windup(out, b.last, sent + TreeBits(t, forceFixed, b, |sent|), lead);
  }

  lemma LessRoom(out: Output, sent: seq<bool>, lead: seq<byte>, n: nat)
    requires SoFar(out, sent, lead, n)
    ensures SoFar(out, sent, lead, 0)
  {
  }

  method Windup(out: Output, last: bool, ghost sent: seq<bool>, ghost lead: seq<byte>)
    requires SoFar(out, sent, lead, 0)
    modifies out`pending, out`put, out`biBuf, out`biValid, out.buf
    ensures SoFar(out, sent + Padding(last, |sent|), lead, -8)
  {
    hide Pow2, LowBits, ByteBits, PadTo8, Zeros;
    if last {
      out.BiWindup();
    } else {
      assert sent + [] == sent;
    }
  }

  // The whole of it, from the symbols on.

  /** What is made once: the tables, the fixed codes, and whether only those are to be used. */
  datatype Kit = Kit(tables: Tables, lt: Table, dt: Table, fixed: bool)

  ghost predicate GoodKit(k: Kit) {
    GoodTables(k.tables) && GoodTable(k.lt) && GoodTable(k.dt) && k.lt.lens == FixedLengths()
        && k.dt.lens == FixedDistances()
  }

  method MakeKit(fixed: bool) returns (k: Kit)
    ensures GoodKit(k) && k.fixed == fixed
  {
    hide GoodTables, GoodTable;
    var tables := StaticInit();
    var lt := StaticLTree();
    var dt := StaticDTree();
    k := Kit(tables, lt, dt, fixed);
  }

  /** The pending buffer holds any block of so many symbols. */
  ghost predicate Fits(k: Kit, symEnd: nat, size: nat) {
    GoodKit(k) && 31 * symEnd + 80 <= 8 * size
  }

  /** Counting the symbols of a block. */
  method TallyAll(s: TreeSpace, t: Tables, syms: seq<Sym>)
    requires s.Valid() && GoodTables(t) && InReach(syms)
    modifies s.lfc, s.dfc, s.blfc
    ensures s.Counted(syms)
  {
    hide GoodTables, LFreqs, DFreqs;
    s.Restart();
    for i := 0 to |syms|
      invariant s.Counted(syms[..i])
    {
      assert syms[..i + 1] == syms[..i] + [syms[i]];
      Tally(s.lfc, s.dfc, t, syms[i], syms[..i]);
    }
    assert syms[..|syms|] == syms;
  }

  /** A block of symbols, on its way to the output. The trees built for it are put on record. */
  method EncodeBlock(out: Output, k: Kit, b: Block) returns (t: Trees)
    requires Flushable(b) && GoodKit(k) && out.Clear() && 31 * |b.syms| + 80 <= 8 * out.size
    modifies out`pending, out`put, out`biBuf, out`biValid, out.buf
    ensures Usable(t, b.syms) && out.Valid() && out.pendingOut == 0 && out.Lead() == old(out.Lead())
    ensures out.BitStream() == old(out.BitStream()) + BlockBits(k.fixed, b.(trees := t), |old(out.BitStream())|)
  {
    hide GoodTables, GoodTable, Usable, TreeSpace.Counted, Pow2, LowBits, ByteBits, FixedLengths, FixedDistances;
    hide TreeBits, PadTo8, Zeros, BlockBits, Padding;
    ghost var sent, lead := out.BitStream(), out.Lead();
    var s := new TreeSpace();
    TallyAll(s, k.tables, b.syms);
    t := FlushBlock(out, s, k.tables, k.lt, k.dt, b, k.fixed, sent, lead);
    IsEncoded(t, k.fixed, b, sent);
  }

  lemma IsEncoded(t: Trees, fixed: bool, b: Block, sent: seq<bool>)
    requires Flushable(b) && Usable(t, b.syms)
    ensures var bits := TreeBits(t, fixed, b, |sent|);
      sent + bits + Padding(b.last, |sent + bits|) == sent + BlockBits(fixed, b.(trees := t), |sent|)
  {
    hide Usable, TreeBits, PadTo8, Zeros;
    TreesOnly(t, fixed, b, |sent|);
    var bits := TreeBits(t, fixed, b, |sent|);
    assert |sent + bits| == |sent| + |bits|;
    assert sent + bits + Padding(b.last, |sent + bits|) == sent + (bits + Padding(b.last, |sent| + |bits|));
  }

  /** The choice looks at the trees it is given, not at those on record. */
  lemma TreesOnly(t: Trees, fixed: bool, b: Block, at: nat)
    requires Flushable(b) && Usable(t, b.syms)
    ensures TreeBits(t, fixed, b, at) == TreeBits(t, fixed, b.(trees := t), at)
  {
    hide Usable, FixedBits, DynamicBits, StoredBits, BlockData, HeaderBits;
  }
}
