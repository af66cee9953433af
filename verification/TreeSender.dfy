/** Sending blocks: compress_block(), send_tree(), send_all_trees() and _tr_flush_block(). */
module TreeSender {
  import opened Bits
  import opened Lz77
  import opened Pending
  import opened PrefixCodes
  import opened Symbols
  import opened CodeLengths
  import opened BlockTrees
  import opened TreeTables

  /** A tree ready for sending: the lengths, and the codes as gen_codes() leaves them, reversed. */
  datatype Table = Table(lens: seq<nat>, codes: seq<nat>)

  ghost predicate GoodTable(t: Table) {
    && Consistent(t.lens) && |t.codes| >= |t.lens|
    && forall n :: 0 <= n < |t.lens| && t.lens[n] != 0 ==> Reversed(t.codes[n], t.lens, n)
  }

  /** These bits have been sent in all, after those bytes, and there is room for `n` more bits. */
  ghost predicate SoFar(out: Output, sent: seq<bool>, lead: seq<byte>, n: int)
    reads out`pending, out`pendingOut, out`biBuf, out`biValid, out`delivered, out`put, out`start, out.buf
  {
    && out.Valid() && out.pendingOut == 0 && 8 * out.pending + out.biValid + n + 32 <= 8 * out.size
    && out.BitStream() == sent && out.Lead() == lead
  }

  /** send_bits() of a field that is not empty. */
  method SendField(out: Output, v: nat, len: nat, ghost sent: seq<bool>, ghost lead: seq<byte>, ghost n: nat)
    requires 1 <= len <= 15 && v < Pow2(len) && len <= n && SoFar(out, sent, lead, n)
    modifies out`pending, out`put, out`biBuf, out`biValid, out.buf
    ensures SoFar(out, sent + LowBits(v, len), lead, n - len)
  {
    hide Pow2, LowBits, ByteBits;
    out.SendBits(v, len);
  }

  /** send_code(). */
  method SendCode(out: Output, t: Table, c: nat, ghost sent: seq<bool>, ghost lead: seq<byte>, ghost n: nat)
    requires GoodTable(t) && Uses(t.lens, c) && t.lens[c] <= n && SoFar(out, sent, lead, n)
    modifies out`pending, out`put, out`biBuf, out`biValid, out.buf
    ensures SoFar(out, sent + CodeBits(t.lens, c), lead, n - t.lens[c])
  {
    hide SoFar, Pow2, LowBits, CodeBits, RoomFor;
    SendField(out, t.codes[c], t.lens[c], sent, lead, n);
  }

  /** A code and its extra bits, if it has any. */
  method SendParts(out: Output, t: Table, c: nat, p: Parts, ghost sent: seq<bool>, ghost lead: seq<byte>, ghost n: nat)
    requires GoodTable(t) && Uses(t.lens, c) && p.extra <= 15 && p.rest < Pow2(p.extra)
    requires |PartsBits(t.lens, c, p)| <= n && SoFar(out, sent, lead, n)
    modifies out`pending, out`put, out`biBuf, out`biValid, out.buf
    ensures SoFar(out, sent + PartsBits(t.lens, c, p), lead, n - |PartsBits(t.lens, c, p)|)
  {
    hide SoFar, Pow2, CodeBits, Consistent, LowBits;
    SendCode(out, t, c, sent, lead, n);
    if p.extra != 0 {
      SendField(out, p.rest, p.extra, sent + CodeBits(t.lens, c), lead, n - t.lens[c]);
      assert sent + CodeBits(t.lens, c) + LowBits(p.rest, p.extra) == sent + PartsBits(t.lens, c, p);
    } else {
      NoBits(p.rest);
      assert sent + CodeBits(t.lens, c) == sent + PartsBits(t.lens, c, p);
    }
  }

  // compress_block().

  /** A literal, or a match as two codes with extra bits. */
  method SendSymbol(out: Output, tables: Tables, lt: Table, dt: Table, s: Sym, ghost sent: seq<bool>,
      ghost lead: seq<byte>, ghost n: nat)
    requires GoodTables(tables) && GoodTable(lt) && GoodTable(dt) && Coded(lt.lens, dt.lens, s)
    requires |SymBits(lt.lens, dt.lens, s)| <= n && SoFar(out, sent, lead, n)
    modifies out`pending, out`put, out`biBuf, out`biValid, out.buf
    ensures SoFar(out, sent + SymBits(lt.lens, dt.lens, s), lead, n - |SymBits(lt.lens, dt.lens, s)|)
  {
    hide SoFar, Pow2, CodeBits, GoodTable, GoodTables, LengthParts, DistParts, PartsBits;
    if s.dist == 0 {
      SendCode(out, lt, s.lc, sent, lead, n);
    } else {
      var l := LengthFromTable(tables, s.lc);
      var d := DistFromTable(tables, s.dist - 1);
      ghost var bits := PartsBits(lt.lens, END_BLOCK + 1 + l.code, l);
      SendParts(out, lt, END_BLOCK + 1 + l.code, l, sent, lead, n);
      SendParts(out, dt, d.code, d, sent + bits, lead, n - |bits|);
      assert sent + bits + PartsBits(dt.lens, d.code, d) == sent + SymBits(lt.lens, dt.lens, s);
    }
  }

  /** _length_code[] and base_length[]. */
  method LengthFromTable(t: Tables, lc: byte) returns (p: Parts)
    requires GoodTables(t)
    ensures p == LengthParts(lc)
  {
    hide LengthParts, DistParts, Pow2;
    TableSizes();
    ghost var q := LengthParts(lc);
    var code := t.lengthCode[lc];
    var extra := EXTRA_LBITS[code];
    if extra != 0 {
      ExtraNotLast(code);
      p := Parts(code, extra, lc - t.baseLength[code]);
    } else {
      RestIsZero(q);
      p := Parts(code, 0, 0);
    }
  }

  lemma RestIsZero(p: Parts)
    requires p.extra == 0 && p.rest < Pow2(p.extra)
    ensures p.rest == 0
  {
  }

  lemma ExtraNotLast(c: nat)
    requires c < 29 && EXTRA_LBITS[c] != 0
    ensures c < 28
  {
  }

  /** d_code() and base_dist[]. */
  method DistFromTable(t: Tables, d: nat) returns (p: Parts)
    requires GoodTables(t) && d < 0x8000
    ensures p == DistParts(d)
  {
    hide LengthParts, DistParts, Pow2;
    TableSizes();
    ghost var q := DistParts(d);
    var code := DCode(t.distCode, d);
    var extra := EXTRA_DBITS[code];
    if extra != 0 {
      p := Parts(code, extra, d - t.baseDist[code]);
    } else {
      RestIsZero(q);
      p := Parts(code, 0, 0);
    }
  }

  /** compress_block(): the symbols in order, and the end-of-block code. */
  method CompressBlock(out: Output, tables: Tables, lt: Table, dt: Table, syms: seq<Sym>, ghost sent: seq<bool>,
      ghost lead: seq<byte>, ghost n: nat)
    requires GoodTables(tables) && GoodTable(lt) && GoodTable(dt) && AllCoded(lt.lens, dt.lens, syms)
    requires Uses(lt.lens, END_BLOCK)
    requires |BlockData(lt.lens, dt.lens, syms)| <= n && SoFar(out, sent, lead, n)
    modifies out`pending, out`put, out`biBuf, out`biValid, out.buf
    ensures SoFar(out, sent + BlockData(lt.lens, dt.lens, syms), lead, n - |BlockData(lt.lens, dt.lens, syms)|)
  {
    hide SoFar, CodeBits, GoodTable, GoodTables, SymBits, Coded;
    ghost var ll, dl := lt.lens, dt.lens;
    NoSymbols(ll, dl, syms);
    assert sent + [] == sent;
    for i := 0 to |syms|
      invariant SoFar(out, sent + SymsBits(ll, dl, syms[..i]), lead, n - |SymsBits(ll, dl, syms[..i])|)
    {
      SymsMore(ll, dl, syms, i);
      PrefixSize(ll, dl, syms, i + 1);
      SendSymbol(out, tables, lt, dt, syms[i], sent + SymsBits(ll, dl, syms[..i]), lead,
        n - |SymsBits(ll, dl, syms[..i])|);
      assert sent + SymsBits(ll, dl, syms[..i]) + SymBits(ll, dl, syms[i]) == sent + SymsBits(ll, dl, syms[..i + 1]);
    }
    assert syms[..|syms|] == syms;
    SendCode(out, lt, END_BLOCK, sent + SymsBits(ll, dl, syms), lead, n - |SymsBits(ll, dl, syms)|);
    assert sent + SymsBits(ll, dl, syms) + CodeBits(ll, END_BLOCK) == sent + BlockData(ll, dl, syms);
  }

  lemma NoSymbols(ll: seq<nat>, dl: seq<nat>, syms: seq<Sym>)
    ensures SymsBits(ll, dl, syms[..0]) == []
  {
  }

  lemma {:induction false} PrefixSize(ll: seq<nat>, dl: seq<nat>, syms: seq<Sym>, i: nat)
    requires AllCoded(ll, dl, syms) && i <= |syms|
    ensures |SymsBits(ll, dl, syms[..i])| <= |SymsBits(ll, dl, syms)|
    decreases |syms|
  {
    hide SymBits, Coded;
    if i == |syms| {
      assert syms[..i] == syms;
    } else {
      PrefixSize(ll, dl, syms[..|syms| - 1], i);
      assert syms[..|syms| - 1][..i] == syms[..i];
    }
  }

  // send_tree() and send_all_trees().

  method SendItem(out: Output, bl: Table, i: Item, ghost sent: seq<bool>, ghost lead: seq<byte>, ghost n: nat)
    requires GoodTable(bl) && Uses(bl.lens, i.code) && GoodItem(i)
    requires |PartsBits(bl.lens, i.code, ItemParts(i))| <= n && SoFar(out, sent, lead, n)
    modifies out`pending, out`put, out`biBuf, out`biValid, out.buf
    ensures SoFar(out, sent + PartsBits(bl.lens, i.code, ItemParts(i)), lead, n - |PartsBits(bl.lens, i.code,
        ItemParts(i))|)
  {
    hide SoFar, Pow2, GoodTable, PartsBits;
    SendParts(out, bl, i.code, ItemParts(i), sent, lead, n);
  }

  /** The items for a run that has ended. */
  method SendRun(out: Output, bl: Table, count: nat, cur: nat, prev: int, min: nat, ghost sent: seq<bool>,
      ghost lead: seq<byte>, ghost n: nat)
    requires GoodTable(bl) && cur <= MAX_BITS && 1 <= count <= MaxCount(prev, cur) && min == MinCount(prev, cur)
    requires Sendable(bl.lens, RunItems(count, cur, prev)) && |ItemsBits(bl.lens, RunItems(count, cur, prev))| <= n
    requires SoFar(out, sent, lead, n)
    modifies out`pending, out`put, out`biBuf, out`biValid, out.buf
    ensures SoFar(out, sent + ItemsBits(bl.lens, RunItems(count, cur, prev)), lead, n - |ItemsBits(bl.lens,
        RunItems(count, cur, prev))|)
  {
    hide SoFar, Pow2, GoodTable, PartsBits, ItemsBits, GoodItem;
    ghost var items := RunItems(count, cur, prev);
    RunItemsGood(count, cur, prev);
    NoItemBits(bl.lens);
    assert sent + [] == sent;
    if count < min {
      for i := 0 to count
        invariant SoFar(out, sent + ItemsBits(bl.lens, items[..i]), lead, n - |ItemsBits(bl.lens, items[..i])|)
      {
        SendNext(out, bl, Item(cur, 0), items, i, sent, lead, n);
      }
      assert items[..count] == items;
    } else {
      var left := count;
      ghost var i := 0;
      if cur != 0 {
        if cur != prev {
          SendNext(out, bl, Item(cur, 0), items, 0, sent, lead, n);
          left, i := left - 1, 1;
        }
        SendNext(out, bl, Item(REP_3_6, left - 3), items, i, sent, lead, n);
      } else if count <= 10 {
        SendNext(out, bl, Item(REPZ_3_10, count - 3), items, 0, sent, lead, n);
      } else {
        SendNext(out, bl, Item(REPZ_11_138, count - 11), items, 0, sent, lead, n);
      }
      assert items[..|items|] == items;
    }
  }

  /** The next item of a list. */
  method SendNext(out: Output, bl: Table, item: Item, ghost items: seq<Item>, ghost i: nat, ghost sent: seq<bool>,
      ghost lead: seq<byte>, ghost n: nat)
    requires GoodTable(bl) && i < |items| && items[i] == item && GoodItem(item) && Sendable(bl.lens, items)
    requires |ItemsBits(bl.lens, items)| <= n
    requires SoFar(out, sent + ItemsBits(bl.lens, items[..i]), lead, n - |ItemsBits(bl.lens, items[..i])|)
    modifies out`pending, out`put, out`biBuf, out`biValid, out.buf
    ensures SoFar(out, sent + ItemsBits(bl.lens, items[..i + 1]), lead, n - |ItemsBits(bl.lens, items[..i + 1])|)
  {
    hide SoFar, Pow2, GoodTable, PartsBits, ItemsBits, GoodItem;
    ItemsMore(bl.lens, items, i);
    ItemsSize(bl.lens, items, i + 1);
    SendItem(out, bl, item, sent + ItemsBits(bl.lens, items[..i]), lead, n - |ItemsBits(bl.lens, items[..i])|);
    assert sent + ItemsBits(bl.lens, items[..i]) + PartsBits(bl.lens, item.code, ItemParts(item))
        == sent + ItemsBits(bl.lens, items[..i + 1]);
  }

  lemma {:induction false} ItemsSize(bl: seq<nat>, items: seq<Item>, i: nat)
    requires Sendable(bl, items) && i <= |items|
    ensures |ItemsBits(bl, items[..i])| <= |ItemsBits(bl, items)|
    decreases |items|
  {
    hide PartsBits, ItemParts;
    if i == |items| {
      assert items[..i] == items;
    } else {
      ItemsSize(bl, items[..|items| - 1], i);
      assert items[..|items| - 1][..i] == items[..i];
    }
  }

  lemma {:induction false} AfterGrows(lens: seq<nat>, n: nat, m: nat)
    requires n <= m <= |lens|
    ensures After(lens, n).items <= After(lens, m).items
  {
    hide RunItems, MaxCount;
    if n < m {
      AfterGrows(lens, n, m - 1);
    }
  }

  /** What is sent so far can be sent, and fits. */
  lemma AfterFits(bl: seq<nat>, lens: seq<nat>, n: nat)
    requires n <= |lens| && Sendable(bl, TreeItems(lens))
    ensures Sendable(bl, After(lens, n).items)
    ensures |ItemsBits(bl, After(lens, n).items)| <= |ItemsBits(bl, TreeItems(lens))|
  {
    hide ItemsBits, After, RunItems;
    AfterGrows(lens, n, |lens|);
    var a, b := After(lens, n).items, TreeItems(lens);
    assert a == b[..|a|];
    ItemsSize(bl, b, |a|);
  }

  /** The run at position n ends. */
  lemma RunEnds(bl: seq<nat>, lens: seq<nat>, n: nat)
    requires n < |lens| && Short(lens) && Sendable(bl, TreeItems(lens)) && After(lens, n + 1).count == 0
    ensures var p := After(lens, n);
      var run := RunItems(p.count + 1, lens[n], p.prev);
      After(lens, n + 1).items == p.items + run && After(lens, n + 1).prev == lens[n]
      && Sendable(bl, p.items) && Sendable(bl, run)
      && ItemsBits(bl, After(lens, n + 1).items) == ItemsBits(bl, p.items) + ItemsBits(bl, run)
      && |ItemsBits(bl, p.items)| + |ItemsBits(bl, run)| <= |ItemsBits(bl, TreeItems(lens))|
  {
    hide ItemsBits, RunItems, MaxCount;
    AfterFits(bl, lens, n);
    AfterFits(bl, lens, n + 1);
    var p := After(lens, n);
    var run := RunItems(p.count + 1, lens[n], p.prev);
    assert After(lens, n + 1).items == p.items + run;
    forall i | 0 <= i < |run| ensures Uses(bl, run[i].code) {
      assert (p.items + run)[|p.items| + i] == run[i];
    }
    ItemsConcat(bl, p.items, run);
  }

  /** send_tree(). */
  method SendTree(out: Output, bl: Table, lens: seq<nat>, ghost sent: seq<bool>, ghost lead: seq<byte>, ghost n: nat)
    requires GoodTable(bl) && Short(lens) && |lens| > 0 && Sendable(bl.lens, TreeItems(lens))
    requires |ItemsBits(bl.lens, TreeItems(lens))| <= n && SoFar(out, sent, lead, n)
    modifies out`pending, out`put, out`biBuf, out`biValid, out.buf
    ensures SoFar(out, sent + ItemsBits(bl.lens, TreeItems(lens)), lead, n - |ItemsBits(bl.lens, TreeItems(lens))|)
  {
    hide SoFar, GoodTable, ItemsBits, RunItems, Sendable;
    var prevlen: int, nextlen: nat, count: nat := -1, lens[0], 0;
    var maxCount, minCount := 7, 4;
    if nextlen == 0 {
      maxCount, minCount := 138, 3;
    }
    AfterFits(bl.lens, lens, 0);
    NoItemBits(bl.lens);
    assert sent + [] == sent;
    for i := 0 to |lens|
      invariant After(lens, i) == Progress(After(lens, i).items, count, prevlen) && nextlen == NextLen(lens, i)
      invariant i < |lens| ==> maxCount == MaxCount(prevlen, lens[i]) && minCount == MinCount(prevlen, lens[i])
      invariant Sendable(bl.lens, After(lens, i).items)
      invariant SoFar(out, sent + ItemsBits(bl.lens, After(lens, i).items), lead, n - |ItemsBits(bl.lens, After(lens,
          i).items)|)
    {
      var curlen := nextlen;
      nextlen := NextLen(lens, i + 1);
      count := count + 1;
      AfterFits(bl.lens, lens, i + 1);
      if count < maxCount && curlen == nextlen {
        continue;
      }
      RunEnds(bl.lens, lens, i);
      ghost var items := After(lens, i).items;
      SendRun(out, bl, count, curlen, prevlen, minCount, sent + ItemsBits(bl.lens, items), lead,
        n - |ItemsBits(bl.lens, items)|);
      assert sent + ItemsBits(bl.lens, items) + ItemsBits(bl.lens, RunItems(count, curlen, prevlen))
          == sent + ItemsBits(bl.lens, After(lens, i + 1).items);
      count, prevlen := 0, curlen;
      if nextlen == 0 {
        maxCount, minCount := 138, 3;
      } else if curlen == nextlen {
        maxCount, minCount := 6, 3;
      } else {
        maxCount, minCount := 7, 4;
      }
    }
  }

  /** The lengths of the code for the items, as many as there are up to the last that is not zero. */
  method SendBl(out: Output, bl: seq<nat>, blcodes: nat, ghost sent: seq<bool>, ghost lead: seq<byte>, ghost n: nat)
    requires BlLengths(bl) && blcodes <= BL_CODES && 3 * blcodes <= n && SoFar(out, sent, lead, n)
    modifies out`pending, out`put, out`biBuf, out`biValid, out.buf
    ensures SoFar(out, sent + BlBits(bl, blcodes), lead, n - 3 * blcodes)
  {
    hide SoFar, LowBits;
    assert sent + BlBits(bl, 0) == sent;
    for rank := 0 to blcodes
      invariant SoFar(out, sent + BlBits(bl, rank), lead, n - 3 * rank)
    {
      Pow2OfThree();
      SendField(out, bl[BL_ORDER[rank]], 3, sent + BlBits(bl, rank), lead, n - 3 * rank);
      assert sent + BlBits(bl, rank) + LowBits(bl[BL_ORDER[rank]], 3) == sent + BlBits(bl, rank + 1);
    }
  }

  /** The end of build_bl_tree(): the last of the lengths to send. */
  method MaxBlIndex(bl: seq<nat>, ghost rank: nat) returns (max: nat)
    requires |bl| == BL_CODES && 3 <= rank < BL_CODES && bl[BL_ORDER[rank]] != 0
    ensures max + 1 == BlCodes(bl, BL_CODES)
  {
    max := BL_CODES - 1;
    while max >= 3 && bl[BL_ORDER[max]] == 0
      invariant rank <= max < BL_CODES && BlCodes(bl, BL_CODES) == BlCodes(bl, max + 1)
    {
      max := max - 1;
    }
  }

  /** The three counts at the start of send_all_trees(). */
  method SendCounts(out: Output, lcodes: nat, dcodes: nat, blcodes: nat, ghost sent: seq<bool>, ghost lead: seq<byte>,
      ghost n: nat)
    requires 257 <= lcodes <= 286 && 1 <= dcodes <= 30 && 4 <= blcodes <= 19 && 14 <= n && SoFar(out, sent, lead, n)
    modifies out`pending, out`put, out`biBuf, out`biValid, out.buf
    ensures SoFar(out, sent + (LowBits(lcodes - 257, 5) + LowBits(dcodes - 1, 5) + LowBits(blcodes - 4, 4)), lead,
        n - 14)
  {
    hide SoFar, LowBits, Pow2;
    SmallPowers();
    ghost var a, b, c := LowBits(lcodes - 257, 5), LowBits(dcodes - 1, 5), LowBits(blcodes - 4, 4);
    SendField(out, lcodes - 257, 5, sent, lead, n);
    SendField(out, dcodes - 1, 5, sent + a, lead, n - 5);
    SendField(out, blcodes - 4, 4, sent + a + b, lead, n - 10);
    assert sent + a + b + c == sent + (a + b + c);
  }

  /** send_all_trees(). */
  method SendAllTrees(out: Output, t: Trees, bl: Table, blcodes: nat, ghost syms: seq<Sym>, ghost sent: seq<bool>,
      ghost lead: seq<byte>, ghost n: nat)
    requires Usable(t, syms) && GoodTable(bl) && bl.lens == t.bl && blcodes == BlCodes(t.bl, BL_CODES)
    requires |HeaderBits(t)| <= n && SoFar(out, sent, lead, n)
    modifies out`pending, out`put, out`biBuf, out`biValid, out.buf
    ensures SoFar(out, sent + HeaderBits(t), lead, n - |HeaderBits(t)|)
  {
    hide SoFar, LowBits, BlBits, ItemsBits, TreeItems, GoodTable, Consistent, Sendable, AllCoded;
    ghost var a := LowBits(|t.ll| - 257, 5) + LowBits(|t.dl| - 1, 5) + LowBits(blcodes - 4, 4);
    ghost var b, c, d := BlBits(t.bl, blcodes), ItemsBits(t.bl, TreeItems(t.ll)), ItemsBits(t.bl, TreeItems(t.dl));
    ConsistentShort(t.ll);
    ConsistentShort(t.dl);
    SendCounts(out, |t.ll|, |t.dl|, blcodes, sent, lead, n);
    SendBl(out, t.bl, blcodes, sent + a, lead, n - |a|);
    SendTree(out, bl, t.ll, sent + a + b, lead, n - |a| - |b|);
    SendTree(out, bl, t.dl, sent + a + b + c, lead, n - |a| - |b| - |c|);
    assert sent + a + b + c + d == sent + (a + b + (c + d));
  }
}
