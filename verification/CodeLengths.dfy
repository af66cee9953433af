/** The code lengths of a block, themselves run-length encoded (RFC 1951, section 3.2.7). */
module CodeLengths {
  import opened Bits
  import opened Lz77
  import opened Pending
  import opened BitReading
  import opened PrefixCodes
  import opened Symbols

  const BL_CODES: nat := 19
  const REP_3_6: nat := 16
  const REPZ_3_10: nat := 17
  const REPZ_11_138: nat := 18
  const BL_ORDER: seq<nat> := [16, 17, 18, 0, 8, 7, 9, 6, 10, 5, 11, 4, 12, 3, 13, 2, 14, 1, 15]

  /** Beyond the last symbol stands a length that no code has. */
  const GUARD: nat := 0xffff

  /** An item of the encoded lengths: a length, or one of the three repeat codes and its extra bits. */
  datatype Item = Item(code: nat, rest: nat)

  function ExtraBlBits(code: nat): (n: nat)
    ensures n <= 7
  {
    if code == REP_3_6 then 2 else if code == REPZ_3_10 then 3 else if code == REPZ_11_138 then 7 else 0
  }

  ghost predicate GoodItem(i: Item) {
    i.code < BL_CODES && i.rest < Pow2(ExtraBlBits(i.code))
  }

  // What the items stand for.

  function Same(len: nat, n: nat): (r: seq<nat>)
    ensures |r| == n && forall i :: 0 <= i < n ==> r[i] == len
  {
    seq(n, _ => len)
  }

  function Apply(lens: seq<nat>, i: Item): (r: Option<seq<nat>>)
    ensures r.Some? ==> |lens| < |r.value|
  {
    if i.code < 16 then Some(lens + [i.code])
    else if i.code == 16 then if |lens| == 0 then None else Some(lens + Same(lens[|lens| - 1], 3 + i.rest))
    else if i.code == 17 then Some(lens + Same(0, 3 + i.rest))
    else Some(lens + Same(0, 11 + i.rest))
  }

  function ApplyAll(lens: seq<nat>, items: seq<Item>): Option<seq<nat>> {
    if |items| == 0 then Some(lens)
    else
      match ApplyAll(lens, items[..|items| - 1])
      case None => None
      case Some(r) => Apply(r, items[|items| - 1])
  }

  lemma {:induction false} ApplyConcat(lens: seq<nat>, a: seq<Item>, b: seq<Item>)
    requires ApplyAll(lens, a).Some?
    ensures ApplyAll(lens, a + b) == ApplyAll(ApplyAll(lens, a).value, b)
  {
    if b == [] {
      assert a + b == a;
    } else {
      ApplyConcat(lens, a, b[..|b| - 1]);
      assert (a + b)[..|a + b| - 1] == a + b[..|b| - 1];
    }
  }

  // send_tree(): which items are sent.

  function MaxCount(prev: int, cur: nat): nat {
    if cur == 0 then 138 else if cur == prev then 6 else 7
  }

  function MinCount(prev: int, cur: nat): nat {
    if cur == 0 || cur == prev then 3 else 4
  }

  function NextLen(lens: seq<nat>, n: nat): nat {
    if n < |lens| then lens[n] else GUARD
  }

  /** The items for a run of `count` lengths, after the length `prev`. */
  function RunItems(count: nat, cur: nat, prev: int): seq<Item>
    requires count <= MaxCount(prev, cur)
  {
    if count < MinCount(prev, cur) then seq(count, _ => Item(cur, 0))
    else if cur != 0 && cur != prev then [Item(cur, 0), Item(REP_3_6, count - 4)]
    else if cur != 0 then [Item(REP_3_6, count - 3)]
    else if count <= 10 then [Item(REPZ_3_10, count - 3)]
    else [Item(REPZ_11_138, count - 11)]
  }

  /** Where send_tree() is after some of the lengths: what it has sent, the length of the run it is in,
      and the length that run follows. */
  datatype Progress = Progress(items: seq<Item>, count: nat, prev: int)

  function After(lens: seq<nat>, n: nat): (p: Progress)
    requires n <= |lens|
    ensures p.count < MaxCount(p.prev, NextLen(lens, n))
  {
    if n == 0 then Progress([], 0, -1)
    else
      var p, cur := After(lens, n - 1), lens[n - 1];
      if p.count + 1 < MaxCount(p.prev, cur) && cur == NextLen(lens, n) then p.(count := p.count + 1)
      else Progress(p.items + RunItems(p.count + 1, cur, p.prev), 0, cur)
  }

  /** All that send_tree() sends. */
  function TreeItems(lens: seq<nat>): seq<Item> {
    After(lens, |lens|).items
  }

  lemma AppliesRun(lens: seq<nat>, count: nat, cur: nat, prev: int)
    requires cur <= MAX_BITS && 1 <= count <= MaxCount(prev, cur)
    requires prev == -1 || (|lens| > 0 && lens[|lens| - 1] == prev)
    ensures ApplyAll(lens, RunItems(count, cur, prev)) == Some(lens + Same(cur, count))
  {
    hide ApplyAll;
    if count < MinCount(prev, cur) {
      AppliesSingles(lens, count, cur);
    } else if cur != 0 && cur != prev {
      AppliesTwo(lens, cur, count - 4);
    } else {
      AppliesOne(lens, RunItems(count, cur, prev)[0]);
    }
  }

  lemma AppliesTwo(lens: seq<nat>, cur: nat, rest: nat)
    requires cur < REP_3_6
    ensures ApplyAll(lens, [Item(cur, 0), Item(REP_3_6, rest)]) == Some(lens + Same(cur, rest + 4))
  {
    hide ApplyAll;
    AppliesOne(lens, Item(cur, 0));
    AppliesOne(lens + [cur], Item(REP_3_6, rest));
    ApplyConcat(lens, [Item(cur, 0)], [Item(REP_3_6, rest)]);
    assert [Item(cur, 0)] + [Item(REP_3_6, rest)] == [Item(cur, 0), Item(REP_3_6, rest)];
    assert lens + [cur] + Same(cur, rest + 3) == lens + Same(cur, rest + 4);
  }

  lemma AppliesOne(lens: seq<nat>, i: Item)
    ensures ApplyAll(lens, [i]) == Apply(lens, i)
  {
    assert [i][..0] == [];
  }

  lemma {:induction false} AppliesSingles(lens: seq<nat>, count: nat, cur: nat)
    requires cur <= MAX_BITS
    ensures ApplyAll(lens, seq(count, _ => Item(cur, 0))) == Some(lens + Same(cur, count))
  {
    var items := seq(count, _ => Item(cur, 0));
    if count > 0 {
      AppliesSingles(lens, count - 1, cur);
      assert items[..count - 1] == seq(count - 1, _ => Item(cur, 0));
      assert lens + Same(cur, count - 1) + [cur] == lens + Same(cur, count);
    } else {
      assert lens + Same(cur, 0) == lens;
    }
  }

  ghost predicate Short(lens: seq<nat>) {
    forall n :: 0 <= n < |lens| ==> lens[n] <= MAX_BITS
  }

  lemma ConsistentShort(lens: seq<nat>)
    requires Consistent(lens)
    ensures Short(lens)
  {
  }

  /** All lengths but those of the current run have been sent. */
  ghost predicate SentUpTo(before: seq<nat>, lens: seq<nat>, n: nat)
    requires n <= |lens|
  {
    var p := After(lens, n);
    && p.count <= n
    && ApplyAll(before, p.items) == Some(before + lens[..n - p.count])
    && (p.count > 0 ==> n < |lens| && lens[n - p.count..n] == Same(lens[n], p.count))
    && (p.prev == -1 || (n - p.count > 0 && p.prev == lens[n - p.count - 1]))
  }

  lemma {:induction false} ItemsUpTo(before: seq<nat>, lens: seq<nat>, n: nat)
    requires n <= |lens| && Short(lens)
    ensures SentUpTo(before, lens, n)
  {
    hide RunItems, ApplyAll, MaxCount;
    if n == 0 {
      NoItems(before);
      assert before + lens[..0] == before;
    } else {
      ItemsUpTo(before, lens, n - 1);
      var p, q, cur := After(lens, n - 1), After(lens, n), lens[n - 1];
      var done := n - 1 - p.count;
      assert lens[done..n] == Same(cur, p.count + 1) by {
        assert lens[done..n] == lens[done..n - 1] + [cur];
      }
      if q.count == 0 {
        ApplyConcat(before, p.items, RunItems(p.count + 1, cur, p.prev));
        AppliesRun(before + lens[..done], p.count + 1, cur, p.prev);
        assert before + lens[..done] + lens[done..n] == before + lens[..n];
      }
    }
  }

  lemma NoItems(before: seq<nat>)
    ensures ApplyAll(before, []) == Some(before)
  {
  }

  /** What send_tree() sends stands for the lengths. */
  lemma ItemsStandForLengths(before: seq<nat>, lens: seq<nat>)
    requires Short(lens)
    ensures ApplyAll(before, TreeItems(lens)) == Some(before + lens)
  {
    ItemsUpTo(before, lens, |lens|);
    assert lens[..|lens|] == lens;
  }

  // The items are those of a plain greedy encoder.

  /** How often the length at i comes in a row. */
  function Run(lens: seq<nat>, i: nat): (r: nat)
    requires i < |lens|
    ensures r >= 1 && i + r <= |lens|
    decreases |lens| - i
  {
    1 + if i + 1 < |lens| && lens[i + 1] == lens[i] then Run(lens, i + 1) else 0
  }

  /** From i on, after the length `prev`: up to 138 zeros at once if there are three; up to six times the length
      before if it comes three times; else one length by itself. */
  function Greedily(lens: seq<nat>, i: nat, prev: int): seq<Item>
    requires i <= |lens|
    decreases |lens| - i
  {
    if i == |lens| then []
    else
      var cur, r := lens[i], Run(lens, i);
      if cur == 0 && r >= 3 then
        var n := if r > 138 then 138 else r;
        [if n <= 10 then Item(17, n - 3) else Item(18, n - 11)] + Greedily(lens, i + n, 0)
      else if cur == prev && r >= 3 then
        var n := if r > 6 then 6 else r;
        [Item(16, n - 3)] + Greedily(lens, i + n, cur)
      else [Item(cur, 0)] + Greedily(lens, i + 1, cur)
  }

  /** Whether the run of `cur` that begins at i ends c places later. */
  ghost predicate EndsAfter(lens: seq<nat>, i: nat, c: nat, cur: nat) {
    i + c == |lens| || (i + c < |lens| && lens[i + c] != cur)
  }

  lemma {:induction false} RunIs(lens: seq<nat>, i: nat, c: nat, cur: nat)
    requires c >= 1 && i + c <= |lens| && lens[i..i + c] == Same(cur, c)
    ensures lens[i] == cur && Run(lens, i) >= c && (EndsAfter(lens, i, c, cur) ==> Run(lens, i) == c)
    decreases c
  {
    assert lens[i] == lens[i..i + c][0];
    if c > 1 {
      assert lens[i + 1..i + c] == lens[i..i + c][1..] == Same(cur, c - 1);
      RunIs(lens, i + 1, c - 1, cur);
    }
  }

  lemma {:induction false} SinglesTaken(lens: seq<nat>, i: nat, c: nat, cur: nat, prev: int)
    requires c < 3 && i + c <= |lens| && lens[i..i + c] == Same(cur, c) && EndsAfter(lens, i, c, cur)
    requires c == 0 ==> prev == cur
    ensures Greedily(lens, i, prev) == seq(c, _ => Item(cur, 0)) + Greedily(lens, i + c, cur)
    decreases c
  {
    if c > 0 {
      RunIs(lens, i, c, cur);
      assert lens[i + 1..i + c] == lens[i..i + c][1..] == Same(cur, c - 1);
      SinglesTaken(lens, i + 1, c - 1, cur, cur);
      assert seq(c, _ => Item(cur, 0)) == [Item(cur, 0)] + seq(c - 1, _ => Item(cur, 0));
    }
  }

  /** A run as send_tree() cuts it is encoded as the greedy encoder does. */
  lemma RunTaken(lens: seq<nat>, i: nat, c: nat, cur: nat, prev: int)
    requires 1 <= c <= MaxCount(prev, cur) && i + c <= |lens| && lens[i..i + c] == Same(cur, c)
    requires c == MaxCount(prev, cur) || EndsAfter(lens, i, c, cur)
    ensures Greedily(lens, i, prev) == RunItems(c, cur, prev) + Greedily(lens, i + c, cur)
  {
    hide Run;
    RunIs(lens, i, c, cur);
    if c < MinCount(prev, cur) && (cur == 0 || cur == prev) {
      SinglesTaken(lens, i, c, cur, prev);
    } else if cur != 0 && cur != prev {
      NewLength(lens, i, c, cur, prev);
    }
  }

  lemma LiteralTaken(lens: seq<nat>, i: nat, cur: nat, prev: int)
    requires i < |lens| && lens[i] == cur && cur != 0 && cur != prev
    ensures Greedily(lens, i, prev) == [Item(cur, 0)] + Greedily(lens, i + 1, cur)
  {
  }

  lemma RepeatTaken(lens: seq<nat>, i: nat, c: nat, cur: nat)
    requires 3 <= c <= 6 && cur != 0 && i + c <= |lens| && lens[i..i + c] == Same(cur, c)
    requires c == 6 || EndsAfter(lens, i, c, cur)
    ensures Greedily(lens, i, cur) == [Item(16, c - 3)] + Greedily(lens, i + c, cur)
  {
    hide Run;
    RunIs(lens, i, c, cur);
  }

  lemma NewLength(lens: seq<nat>, i: nat, c: nat, cur: nat, prev: int)
    requires 1 <= c <= 7 && cur != 0 && cur != prev && i + c <= |lens| && lens[i..i + c] == Same(cur, c)
    requires c == 7 || EndsAfter(lens, i, c, cur)
    ensures Greedily(lens, i, prev) == RunItems(c, cur, prev) + Greedily(lens, i + c, cur)
  {
    hide Run, Greedily;
    RunIs(lens, i, c, cur);
    assert lens[i + 1..i + c] == lens[i..i + c][1..] == Same(cur, c - 1);
    LiteralTaken(lens, i, cur, prev);
    var rest := Greedily(lens, i + c, cur);
    if c >= 4 {
      RepeatTaken(lens, i + 1, c - 1, cur);
      assert [Item(cur, 0)] + ([Item(16, c - 4)] + rest) == [Item(cur, 0), Item(16, c - 4)] + rest;
    } else {
      SinglesTaken(lens, i + 1, c - 1, cur, cur);
      assert seq(c, _ => Item(cur, 0)) == [Item(cur, 0)] + seq(c - 1, _ => Item(cur, 0));
      assert [Item(cur, 0)] + (seq(c - 1, _ => Item(cur, 0)) + rest) == seq(c, _ => Item(cur, 0)) + rest;
    }
  }

  lemma {:induction false} GreedySoFar(lens: seq<nat>, n: nat)
    requires n <= |lens| && Short(lens)
    ensures var p := After(lens, n);
      p.count <= n && p.items + Greedily(lens, n - p.count, p.prev) == Greedily(lens, 0, -1)
  {
    hide RunItems, MaxCount, Greedily, ApplyAll;
    if n == 0 {
      assert [] + Greedily(lens, 0, -1) == Greedily(lens, 0, -1);
    } else {
      GreedySoFar(lens, n - 1);
      ItemsUpTo([], lens, n - 1);
      var p, q, cur := After(lens, n - 1), After(lens, n), lens[n - 1];
      if q.count == 0 {
        var from := n - 1 - p.count;
        assert lens[from..n] == Same(cur, p.count + 1) by {
          assert lens[from..n] == lens[from..n - 1] + [cur];
        }
        RunTaken(lens, from, p.count + 1, cur, p.prev);
        Regrouped(p.items, RunItems(p.count + 1, cur, p.prev), Greedily(lens, n, cur));
      }
    }
  }

  lemma Regrouped(a: seq<Item>, b: seq<Item>, c: seq<Item>)
    ensures a + (b + c) == a + b + c
  {
  }

  /** send_tree() encodes the lengths greedily. */
  lemma ItemsAreGreedy(lens: seq<nat>)
    requires Short(lens)
    ensures TreeItems(lens) == Greedily(lens, 0, -1)
  {
    GreedySoFar(lens, |lens|);
    ItemsUpTo([], lens, |lens|);
    assert TreeItems(lens) + [] == TreeItems(lens);
  }

  lemma RunItemsGood(count: nat, cur: nat, prev: int)
    requires cur <= MAX_BITS && 1 <= count <= MaxCount(prev, cur)
    ensures forall i :: 0 <= i < |RunItems(count, cur, prev)| ==> GoodItem(RunItems(count, cur, prev)[i])
  {
    hide Pow2;
    SmallPowers();
  }

  /** Every item has room for its extra bits. */
  lemma {:induction false} ItemsGood(lens: seq<nat>, n: nat)
    requires n <= |lens| && Short(lens)
    ensures forall i :: 0 <= i < |After(lens, n).items| ==> GoodItem(After(lens, n).items[i])
  {
    hide RunItems, MaxCount, GoodItem;
    if n > 0 {
      ItemsGood(lens, n - 1);
      var p := After(lens, n - 1);
      RunItemsGood(p.count + 1, lens[n - 1], p.prev);
    }
  }

  // The items as bits.

  /** The code has a word for every item. */
  ghost predicate Sendable(bl: seq<nat>, items: seq<Item>) {
    forall i :: 0 <= i < |items| ==> Uses(bl, items[i].code)
  }

  function ItemParts(i: Item): Parts {
    Parts(i.code, ExtraBlBits(i.code), i.rest)
  }

  function ItemsBits(bl: seq<nat>, items: seq<Item>): seq<bool>
    requires Sendable(bl, items)
  {
    if |items| == 0 then []
    else
      var i := items[|items| - 1];
      ItemsBits(bl, items[..|items| - 1]) + PartsBits(bl, i.code, ItemParts(i))
  }

  datatype Lengths = Lengths(lens: seq<nat>, end: nat)

  /** The extra bits of the three repeat codes. */
  function RepeatBits(code: nat): nat {
    match code
    case 16 => 2
    case 17 => 3
    case 18 => 7
    case _ => 0
  }

  /** Reading items until they stand for `total` lengths. */
  function ReadLengths(bl: seq<nat>, bits: seq<bool>, at: nat, total: nat, lens: seq<nat>): (r: Option<Lengths>)
    ensures r.Some? ==> |r.value.lens| == total
    decreases total - |lens|
  {
    if |lens| == total then Some(Lengths(lens, at))
    else
      match ReadCode(bl, bits, at)
      case None => None
      case Some(code) =>
        if code > 18 then None
        else
          match Field(bits, at + bl[code], RepeatBits(code))
          case None => None
          case Some(rest) =>
            match Apply(lens, Item(code, rest))
            case None => None
            case Some(more) =>
              if |more| > total then None else ReadLengths(bl, bits, at + bl[code] + RepeatBits(code), total, more)
  }

  lemma ItemRead(bl: seq<nat>, i: Item, bits: seq<bool>, at: nat, total: nat, lens: seq<nat>)
    requires Consistent(bl) && Uses(bl, i.code) && GoodItem(i) && Placed(bits, at, PartsBits(bl, i.code, ItemParts(i)))
    requires Apply(lens, i).Some? && |Apply(lens, i).value| <= total
    ensures ReadLengths(bl, bits, at, total, lens)
         == ReadLengths(bl, bits, at + |PartsBits(bl, i.code, ItemParts(i))|, total, Apply(lens, i).value)
  {
    hide ReadCode, Field, PartsBits, Apply;
    CodeThenRest(bits, at, bl, i.code, ItemParts(i));
  }

  lemma {:induction false} PrefixApplies(lens: seq<nat>, items: seq<Item>, i: nat)
    requires ApplyAll(lens, items).Some? && i <= |items|
    ensures ApplyAll(lens, items[..i]).Some?
    ensures |ApplyAll(lens, items[..i]).value| + (|items| - i) <= |ApplyAll(lens, items).value|
    decreases |items|
  {
    hide Apply;
    if i == |items| {
      assert items[..i] == items;
    } else {
      PrefixApplies(lens, items[..|items| - 1], i);
      assert items[..|items| - 1][..i] == items[..i];
    }
  }

  lemma {:induction false} ItemPlaced(bits: seq<bool>, at: nat, bl: seq<nat>, items: seq<Item>, i: nat)
    requires Sendable(bl, items) && i < |items| && Placed(bits, at, ItemsBits(bl, items))
    ensures Placed(bits, at + |ItemsBits(bl, items[..i])|, PartsBits(bl, items[i].code, ItemParts(items[i])))
    decreases |items|
  {
    hide PartsBits, ItemParts, Placed;
    var n := |items| - 1;
    PlacedPart(bits, at, ItemsBits(bl, items[..n]), PartsBits(bl, items[n].code, ItemParts(items[n])));
    if i < n {
      ItemPlaced(bits, at, bl, items[..n], i);
      assert items[..n][..i] == items[..i];
    }
  }

  lemma ItemsMore(bl: seq<nat>, items: seq<Item>, i: nat)
    requires Sendable(bl, items) && i < |items|
    ensures ItemsBits(bl, items[..i + 1])
        == ItemsBits(bl, items[..i]) + PartsBits(bl, items[i].code, ItemParts(items[i]))
  {
    assert items[..i + 1][..i] == items[..i];
  }

  lemma {:induction false} ItemsConcat(bl: seq<nat>, a: seq<Item>, b: seq<Item>)
    requires Sendable(bl, a) && Sendable(bl, b)
    ensures Sendable(bl, a + b) && ItemsBits(bl, a + b) == ItemsBits(bl, a) + ItemsBits(bl, b)
  {
    hide PartsBits, ItemParts;
    if b == [] {
      assert a + b == a;
    } else {
      ItemsConcat(bl, a, b[..|b| - 1]);
      assert (a + b)[..|a + b| - 1] == a + b[..|b| - 1];
    }
  }

  lemma AllRead(bl: seq<nat>, bits: seq<bool>, at: nat, lens: seq<nat>)
    ensures ReadLengths(bl, bits, at, |lens|, lens) == Some(Lengths(lens, at))
  {
  }

  lemma ApplyNext(lens: seq<nat>, items: seq<Item>, i: nat)
    requires i < |items| && ApplyAll(lens, items[..i]).Some?
    ensures ApplyAll(lens, items[..i + 1]) == Apply(ApplyAll(lens, items[..i]).value, items[i])
  {
    assert items[..i + 1][..i] == items[..i];
  }

  /** From the start of item i on, the lengths read are those the items stand for. */
  lemma {:induction false} LengthsFrom(bl: seq<nat>, items: seq<Item>, bits: seq<bool>, at: nat, lens: seq<nat>, i: nat)
    requires Consistent(bl) && Sendable(bl, items) && i <= |items|
    requires (forall k :: 0 <= k < |items| ==> GoodItem(items[k]))
    requires Placed(bits, at, ItemsBits(bl, items)) && ApplyAll(lens, items).Some?
    ensures ApplyAll(lens, items[..i]).Some?
    ensures var all := ApplyAll(lens, items).value;
      ReadLengths(bl, bits, at + |ItemsBits(bl, items[..i])|, |all|, ApplyAll(lens, items[..i]).value)
      == Some(Lengths(all, at + |ItemsBits(bl, items)|))
    decreases |items| - i
  {
    hide PartsBits, ItemParts, ItemsBits, Apply, ApplyAll, Consistent, GoodItem, Placed, ReadLengths;
    PrefixApplies(lens, items, i);
    if i == |items| {
      assert items[..i] == items;
      AllRead(bl, bits, at + |ItemsBits(bl, items)|, ApplyAll(lens, items).value);
    } else {
      PrefixApplies(lens, items, i + 1);
      ApplyNext(lens, items, i);
      LengthsFrom(bl, items, bits, at, lens, i + 1);
      ItemPlaced(bits, at, bl, items, i);
      ItemsMore(bl, items, i);
      ItemRead(bl, items[i], bits, at + |ItemsBits(bl, items[..i])|, |ApplyAll(lens, items).value|,
        ApplyAll(lens, items[..i]).value);
    }
  }

  /** The lengths of both codes, sent one after the other, are read in one go. */
  lemma TreesRead(bl: seq<nat>, ll: seq<nat>, dl: seq<nat>, bits: seq<bool>, at: nat)
    requires Consistent(bl) && Short(ll) && Short(dl) && Sendable(bl, TreeItems(ll)) && Sendable(bl, TreeItems(dl))
    requires Placed(bits, at, ItemsBits(bl, TreeItems(ll)) + ItemsBits(bl, TreeItems(dl)))
    ensures ReadLengths(bl, bits, at, |ll| + |dl|, [])
         == Some(Lengths(ll + dl, at + |ItemsBits(bl, TreeItems(ll)) + ItemsBits(bl, TreeItems(dl))|))
  {
    hide ItemsBits, TreeItems, Consistent, ApplyAll, GoodItem, Apply, ReadLengths, Placed, Sendable;
    var a, b := TreeItems(ll), TreeItems(dl);
    ItemsConcat(bl, a, b);
    ItemsStandForLengths([], ll);
    ItemsStandForLengths(ll, dl);
    assert [] + ll == ll;
    ApplyConcat([], a, b);
    TreeItemsGood(ll);
    TreeItemsGood(dl);
    LengthsFrom(bl, a + b, bits, at, [], 0);
    assert (a + b)[..0] == [];
    NoItems([]);
    NoItemBits(bl);
  }

  lemma NoItemBits(bl: seq<nat>)
    ensures ItemsBits(bl, []) == []
  {
  }

  lemma TreeItemsGood(lens: seq<nat>)
    requires Short(lens)
    ensures forall i :: 0 <= i < |TreeItems(lens)| ==> GoodItem(TreeItems(lens)[i])
  {
    ItemsGood(lens, |lens|);
  }

  // The lengths of the code for the items.

  /** The item whose length comes at this place, by RFC 1951, section 3.2.7: the three repeat codes, then 0, and
      from 8 on by turns one further up and one further down. */
  function PlaceOf(rank: nat): (s: nat)
    requires rank < 19
    ensures s < 19
  {
    if rank < 3 then 16 + rank
    else if rank == 3 then 0
    else if rank % 2 == 0 then 8 + (rank - 4) / 2
    else 7 - (rank - 5) / 2
  }

  /** trees.c lists the same order. */
  lemma OrderListed(rank: nat)
    requires rank < BL_CODES
    ensures BL_ORDER[rank] == PlaceOf(rank)
  {
  }

  /** The lengths read so far, put in their places. */
  function Arranged(vals: seq<nat>, k: nat): (r: seq<nat>)
    requires k <= |vals| && k <= 19
    ensures |r| == 19
  {
    if k == 0 then Same(0, 19) else Arranged(vals, k - 1)[PlaceOf(k - 1) := vals[k - 1]]
  }

  function ReadFields(bits: seq<bool>, at: nat, k: nat): (r: Option<seq<nat>>)
    ensures r.Some? ==> |r.value| == k
  {
    if k == 0 then Some([])
    else
      match ReadFields(bits, at, k - 1)
      case None => None
      case Some(r) =>
        match Field(bits, at + 3 * (k - 1), 3)
        case None => None
        case Some(v) => Some(r + [v])
  }

  /** The first k lengths, in the order in which they are sent. */
  function BlBits(bl: seq<nat>, k: nat): (r: seq<bool>)
    requires |bl| == BL_CODES && k <= BL_CODES
    ensures |r| == 3 * k
  {
    if k == 0 then [] else BlBits(bl, k - 1) + LowBits(bl[BL_ORDER[k - 1]], 3)
  }

  /** How many lengths are sent: at least four, and all up to the last that is not zero. */
  function BlCodes(bl: seq<nat>, k: nat): (r: nat)
    requires |bl| == BL_CODES && 4 <= k <= BL_CODES
    ensures 4 <= r <= k && forall i :: r <= i < k ==> bl[BL_ORDER[i]] == 0
  {
    if k > 4 && bl[BL_ORDER[k - 1]] == 0 then BlCodes(bl, k - 1) else k
  }

  /** No more are sent than needed. */
  lemma {:induction false} LastSent(bl: seq<nat>, k: nat)
    requires |bl| == BL_CODES && 4 <= k <= BL_CODES
    ensures BlCodes(bl, k) == 4 || bl[PlaceOf(BlCodes(bl, k) - 1)] != 0
  {
    hide PlaceOf, BL_ORDER;
    OrderListed(k - 1);
    OrderInRange(k - 1);
    if k > 4 && bl[BL_ORDER[k - 1]] == 0 {
      LastSent(bl, k - 1);
    }
  }

  function InOrder(bl: seq<nat>, k: nat): (r: seq<nat>)
    requires |bl| == BL_CODES && k <= BL_CODES
    ensures |r| == k && forall i :: 0 <= i < k ==> r[i] == bl[BL_ORDER[i]]
  {
    seq(k, i requires 0 <= i < k => bl[BL_ORDER[i]])
  }

  ghost predicate BlLengths(bl: seq<nat>) {
    |bl| == BL_CODES && forall s :: 0 <= s < BL_CODES ==> bl[s] < 8
  }

  lemma {:induction false} FieldsRead(bits: seq<bool>, at: nat, bl: seq<nat>, k: nat)
    requires BlLengths(bl) && k <= BL_CODES && Placed(bits, at, BlBits(bl, k))
    ensures ReadFields(bits, at, k) == Some(InOrder(bl, k))
  {
    hide Field, LowBits, Placed, BL_ORDER, InOrder, ReadFields;
    if k == 0 {
      NothingRead(bits, at, bl);
    } else {
      OrderInRange(k - 1);
      var v := bl[BL_ORDER[k - 1]];
      PlacedPart(bits, at, BlBits(bl, k - 1), LowBits(v, 3));
      FieldsRead(bits, at, bl, k - 1);
      Pow2OfThree();
      FieldPlaced(bits, at + 3 * (k - 1), v, 3);
      OneMoreRead(bits, at, bl, k);
    }
  }

  lemma OrderInRange(i: nat)
    requires i < BL_CODES
    ensures i < |BL_ORDER| && BL_ORDER[i] < BL_CODES
  {
  }

  lemma NothingRead(bits: seq<bool>, at: nat, bl: seq<nat>)
    requires BlLengths(bl)
    ensures ReadFields(bits, at, 0) == Some(InOrder(bl, 0))
  {
  }

  lemma OneMoreRead(bits: seq<bool>, at: nat, bl: seq<nat>, k: nat)
    requires BlLengths(bl) && 1 <= k <= BL_CODES && ReadFields(bits, at, k - 1) == Some(InOrder(bl, k - 1))
    requires Field(bits, at + 3 * (k - 1), 3) == Some(bl[BL_ORDER[k - 1]])
    ensures ReadFields(bits, at, k) == Some(InOrder(bl, k))
  {
    hide Field;
    assert InOrder(bl, k) == InOrder(bl, k - 1) + [bl[BL_ORDER[k - 1]]];
  }

  lemma PlacesDiffer(i: nat, j: nat)
    requires i < j < BL_CODES
    ensures |BL_ORDER| == BL_CODES && BL_CODES > BL_ORDER[i] != BL_ORDER[j]
  {
    OrderListed(i);
    OrderListed(j);
  }

  lemma {:induction false} ArrangedInPlace(bl: seq<nat>, vals: seq<nat>, k: nat)
    requires |bl| == BL_CODES && k <= BL_CODES && k <= |vals| && forall i :: 0 <= i < k ==> vals[i] == bl[BL_ORDER[i]]
    ensures forall i :: 0 <= i < k ==> Arranged(vals, k)[BL_ORDER[i]] == bl[BL_ORDER[i]]
    ensures forall s :: 0 <= s < BL_CODES && (forall i :: 0 <= i < k ==> BL_ORDER[i] != s) ==> Arranged(vals, k)[s] == 0
  {
    hide PlaceOf, BL_ORDER;
    if k > 0 {
      ArrangedInPlace(bl, vals, k - 1);
      OrderListed(k - 1);
      forall i | 0 <= i < k - 1 ensures i < |BL_ORDER| == BL_CODES && BL_CODES > BL_ORDER[i] != BL_ORDER[k - 1] {
        PlacesDiffer(i, k - 1);
      }
      OrderInRange(k - 1);
    }
  }

  lemma EveryPlace(s: nat)
    requires s < BL_CODES
    ensures exists i :: 0 <= i < BL_CODES && BL_ORDER[i] == s
  {
    var rank := [3, 17, 15, 13, 11, 9, 7, 5, 4, 6, 8, 10, 12, 14, 16, 18, 0, 1, 2];
    assert BL_ORDER[rank[s]] == s;
  }

  /** What was not sent is zero, so the lengths are read completely. */
  lemma ArrangedBack(bl: seq<nat>)
    requires |bl| == BL_CODES
    ensures var k := BlCodes(bl, BL_CODES); Arranged(InOrder(bl, k), k) == bl
  {
    var k := BlCodes(bl, BL_CODES);
    var r := Arranged(InOrder(bl, k), k);
    ArrangedInPlace(bl, InOrder(bl, k), k);
    forall s | 0 <= s < BL_CODES
      ensures r[s] == bl[s]
    {
      EveryPlace(s);
      var i :| 0 <= i < BL_CODES && BL_ORDER[i] == s;
    }
  }

  lemma {:induction false} OnlyZeros(items: seq<Item>)
    requires ApplyAll([], items).Some?
    requires forall i :: 0 <= i < |items| ==> items[i].code == 0 || items[i].code >= REP_3_6
    ensures forall n :: 0 <= n < |ApplyAll([], items).value| ==> ApplyAll([], items).value[n] == 0
  {
    if |items| > 0 {
      OnlyZeros(items[..|items| - 1]);
    }
  }

  /** A code that has lengths to describe sends one of them; so the last length to send is beyond the
      three repeat codes. */
  lemma SomeLengthSent(bl: seq<nat>, lens: seq<nat>, k: nat) returns (rank: nat)
    requires |bl| == BL_CODES && Short(lens) && Sendable(bl, TreeItems(lens)) && k < |lens| && lens[k] != 0
    ensures 3 <= rank < BL_CODES && bl[BL_ORDER[rank]] != 0
  {
    var items := TreeItems(lens);
    ItemsStandForLengths([], lens);
    assert [] + lens == lens;
    if forall i :: 0 <= i < |items| ==> items[i].code == 0 || items[i].code >= REP_3_6 {
      OnlyZeros(items);
    }
    var i :| 0 <= i < |items| && 0 < items[i].code < REP_3_6;
    EveryPlace(items[i].code);
    rank :| 0 <= rank < BL_CODES && BL_ORDER[rank] == items[i].code;
  }
}
