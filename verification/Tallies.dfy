/** What is counted of a block while its symbols are tallied, and the bits this takes to send. */
module Tallies {
  import opened Lz77
  import opened PrefixCodes
  import opened Symbols
  import opened CodeLengths
  import opened BitCost
  import opened TreeTables

  const L_CODES: nat := 286
  const D_CODES: nat := 30
  const EXTRA_BLBITS: seq<nat> := [0, 0, 0, 0, 0, 0, 0, 0, 0, 0, 0, 0, 0, 0, 0, 0, 2, 3, 7]

  function More(freq: seq<nat>, n: nat): (r: seq<nat>)
    requires n < |freq|
    ensures |r| == |freq|
  {
    freq[n := freq[n] + 1]
  }

  /** The code for a literal, or for the length of a match. */
  function LCode(s: Sym): (n: nat)
    ensures n < L_CODES
  {
    if s.dist == 0 then s.lc else END_BLOCK + 1 + LengthParts(s.lc).code
  }

  /** How often each code is used: the end-of-block code once. */
  function LFreqs(syms: seq<Sym>): (r: seq<nat>)
    ensures |r| == L_CODES
  {
    if |syms| == 0 then Same(0, L_CODES)[END_BLOCK := 1] else More(LFreqs(syms[..|syms| - 1]), LCode(syms[|syms| - 1]))
  }

  /** The code for the distance of a match. */
  function DIndex(s: Sym): (n: nat)
    ensures n < D_CODES
  {
    if 0 < s.dist <= 0x8000 then DistParts(s.dist - 1).code else 0
  }

  function DFreqs(syms: seq<Sym>): (r: seq<nat>)
    ensures |r| == D_CODES
  {
    if |syms| == 0 then Same(0, D_CODES)
    else
      var s := syms[|syms| - 1];
      if s.dist == 0 then DFreqs(syms[..|syms| - 1]) else More(DFreqs(syms[..|syms| - 1]), DIndex(s))
  }

  /** init_block(). */
  method InitBlock(lfc: array<nat>, dfc: array<nat>, blfc: array<nat>)
    requires lfc.Length >= L_CODES && dfc.Length >= D_CODES && blfc.Length >= BL_CODES && lfc != dfc && lfc != blfc
    requires dfc != blfc
    modifies lfc, dfc, blfc
    ensures lfc[..L_CODES] == LFreqs([]) && dfc[..D_CODES] == DFreqs([]) && blfc[..BL_CODES] == Same(0, BL_CODES)
  {
    for n := 0 to L_CODES
      invariant forall i :: 0 <= i < n ==> lfc[i] == 0
    {
      lfc[n] := 0;
    }
    for n := 0 to D_CODES
      invariant forall i :: 0 <= i < n ==> dfc[i] == 0
      invariant forall i :: 0 <= i < L_CODES ==> lfc[i] == 0
    {
      dfc[n] := 0;
    }
    for n := 0 to BL_CODES
      invariant forall i :: 0 <= i < n ==> blfc[i] == 0
      invariant forall i :: 0 <= i < L_CODES ==> lfc[i] == 0
      invariant forall i :: 0 <= i < D_CODES ==> dfc[i] == 0
    {
      blfc[n] := 0;
    }
    lfc[END_BLOCK] := 1;
  }

  /** _tr_tally(): the counts after one more symbol. */
  method Tally(lfc: array<nat>, dfc: array<nat>, t: Tables, s: Sym, ghost syms: seq<Sym>)
    requires lfc.Length >= L_CODES && dfc.Length >= D_CODES && lfc != dfc && GoodTables(t) && InReach(syms)
    requires s.dist <= 0x8000
    requires lfc[..L_CODES] == LFreqs(syms) && dfc[..D_CODES] == DFreqs(syms)
    modifies lfc, dfc
    ensures InReach(syms + [s]) && lfc[..L_CODES] == LFreqs(syms + [s]) && dfc[..D_CODES] == DFreqs(syms + [s])
  {
    hide LengthParts, DistParts, LENGTH_BASE, DIST_BASE, EXTRA_LBITS, EXTRA_DBITS;
    assert (syms + [s])[..|syms|] == syms;
    ghost var l, d := lfc[..L_CODES], dfc[..D_CODES];
    if s.dist == 0 {
      lfc[s.lc] := lfc[s.lc] + 1;
      assert lfc[..L_CODES] == More(l, s.lc);
      assert dfc[..D_CODES] == d;
    } else {
      var c, e := t.lengthCode[s.lc] + END_BLOCK + 1, DCode(t.distCode, s.dist - 1);
      lfc[c] := lfc[c] + 1;
      dfc[e] := dfc[e] + 1;
      assert lfc[..L_CODES] == More(l, c);
      assert dfc[..D_CODES] == More(d, e);
    }
  }

  // What the counts say.

  lemma {:induction false} LengthCounted(syms: seq<Sym>, i: nat)
    requires i < |syms|
    ensures LFreqs(syms)[LCode(syms[i])] != 0
  {
    hide LCode;
    if i < |syms| - 1 {
      LengthCounted(syms[..|syms| - 1], i);
    }
  }

  lemma {:induction false} DistCounted(syms: seq<Sym>, i: nat)
    requires i < |syms| && syms[i].dist != 0
    ensures DFreqs(syms)[DIndex(syms[i])] != 0
  {
    hide DIndex;
    if i < |syms| - 1 {
      DistCounted(syms[..|syms| - 1], i);
    }
  }

  lemma {:induction false} EndCounted(syms: seq<Sym>)
    ensures LFreqs(syms)[END_BLOCK] != 0
  {
    hide LCode;
    if |syms| > 0 {
      EndCounted(syms[..|syms| - 1]);
    }
  }

  lemma UsesBoth(ll: seq<nat>, dl: seq<nat>, s: Sym)
    requires s.dist <= 0x8000
    ensures Uses(ll, LCode(s)) && (s.dist != 0 ==> Uses(dl, DIndex(s))) ==> Coded(ll, dl, s)
  {
    hide LengthParts, DistParts;
  }

  /** Lengths for all that occurs are enough to send the block. */
  lemma CountedIsCoded(ll: seq<nat>, dl: seq<nat>, syms: seq<Sym>)
    requires InReach(syms)
    requires forall n :: 0 <= n < L_CODES && LFreqs(syms)[n] != 0 ==> Uses(ll, n)
    requires forall n :: 0 <= n < D_CODES && DFreqs(syms)[n] != 0 ==> Uses(dl, n)
    ensures AllCoded(ll, dl, syms) && Uses(ll, END_BLOCK)
  {
    hide LFreqs, DFreqs, Coded, LCode, DIndex;
    EndCounted(syms);
    forall i | 0 <= i < |syms| ensures Coded(ll, dl, syms[i]) {
      UsesBoth(ll, dl, syms[i]);
      LengthCounted(syms, i);
      if syms[i].dist != 0 {
        DistCounted(syms, i);
      }
    }
  }

  /** The symbols that occur in a block are within the first 286. */
  function Cut(lens: seq<nat>): (r: seq<nat>)
    ensures |r| <= L_CODES && forall n :: 0 <= n < |r| ==> n < |lens| && r[n] == lens[n]
  {
    if |lens| > L_CODES then lens[..L_CODES] else lens
  }

  function DistTerm(dl: seq<nat>, s: Sym): nat
    requires DIndex(s) < |dl|
  {
    Term(1, dl[DIndex(s)], XBits(EXTRA_DBITS, 0, DIndex(s)))
  }

  lemma SymCost(ll: seq<nat>, dl: seq<nat>, s: Sym)
    requires Coded(ll, dl, s) && |dl| <= D_CODES
    ensures LCode(s) < |Cut(ll)| && (s.dist != 0 ==> DIndex(s) < |dl|)
    ensures var length := Term(1, Cut(ll)[LCode(s)], XBits(EXTRA_LBITS, 257, LCode(s)));
      |SymBits(ll, dl, s)| == if s.dist == 0 then length else length + DistTerm(dl, s)
  {
    hide LengthParts, DistParts, CodeBits, EXTRA_LBITS, EXTRA_DBITS, LENGTH_BASE, DIST_BASE;
    TableSizes();
  }

  /** The bits of a block are those of all that was counted. */
  lemma {:induction false} BlockCost(ll: seq<nat>, dl: seq<nat>, syms: seq<Sym>)
    requires AllCoded(ll, dl, syms) && Uses(ll, END_BLOCK) && |dl| <= D_CODES
    ensures |BlockData(ll, dl, syms)| == Cost(LFreqs(syms), Cut(ll), EXTRA_LBITS, 257) + Cost(DFreqs(syms), dl,
        EXTRA_DBITS, 0)
  {
    hide LengthParts, DistParts, CodeBits, EXTRA_LBITS, EXTRA_DBITS, LENGTH_BASE, DIST_BASE, LCode, DIndex, Coded;
    hide SymBits, Cost, XBits, Cut, DistTerm;
    if |syms| == 0 {
      EndCost(ll, dl);
    } else {
      var rest, s := syms[..|syms| - 1], syms[|syms| - 1];
      BlockCost(ll, dl, rest);
      SymCost(ll, dl, s);
      CostMore(LFreqs(rest), Cut(ll), EXTRA_LBITS, 257, LCode(s));
      if s.dist != 0 {
        TermIs(dl, s);
        CostMore(DFreqs(rest), dl, EXTRA_DBITS, 0, DIndex(s));
      }
    }
  }

  lemma TermIs(dl: seq<nat>, s: Sym)
    requires DIndex(s) < |dl|
    ensures DistTerm(dl, s) == Term(1, dl[DIndex(s)], XBits(EXTRA_DBITS, 0, DIndex(s)))
  {
  }

  lemma EndCost(ll: seq<nat>, dl: seq<nat>)
    requires Uses(ll, END_BLOCK) && |dl| <= D_CODES
    ensures Cost(LFreqs([]), Cut(ll), EXTRA_LBITS, 257) == ll[END_BLOCK] && Cost(DFreqs([]), dl, EXTRA_DBITS, 0) == 0
  {
    hide Cost;
    CostNone(Same(0, L_CODES), Cut(ll), EXTRA_LBITS, 257);
    CostMore(Same(0, L_CODES), Cut(ll), EXTRA_LBITS, 257, END_BLOCK);
    CostNone(DFreqs([]), dl, EXTRA_DBITS, 0);
  }

  /** Symbols that do not occur take nothing. */
  lemma {:induction false} CostTail(freq: seq<nat>, lens: seq<nat>, m: nat, extra: seq<nat>, base: nat)
    requires m <= |lens| <= |freq| && forall n :: m <= n < |lens| ==> freq[n] == 0
    ensures Cost(freq, lens[..m], extra, base) == Cost(freq, lens, extra, base)
    decreases |lens|
  {
    if m == |lens| {
      assert lens[..m] == lens;
    } else {
      CostTail(freq, lens[..|lens| - 1], m, extra, base);
      assert lens[..|lens| - 1][..m] == lens[..m];
    }
  }

  // The items that describe the lengths.

  function ItemFreqs(freq: seq<nat>, items: seq<Item>): (r: seq<nat>)
    requires |freq| == BL_CODES && forall i :: 0 <= i < |items| ==> items[i].code < BL_CODES
    ensures |r| == BL_CODES
  {
    if |items| == 0 then freq else More(ItemFreqs(freq, items[..|items| - 1]), items[|items| - 1].code)
  }

  lemma {:induction false} ItemCounted(freq: seq<nat>, items: seq<Item>, i: nat)
    requires |freq| == BL_CODES && (forall i :: 0 <= i < |items| ==> items[i].code < BL_CODES) && i < |items|
    ensures ItemFreqs(freq, items)[items[i].code] != 0
  {
    if i < |items| - 1 {
      ItemCounted(freq, items[..|items| - 1], i);
    }
  }

  lemma {:induction false} ItemFreqsConcat(freq: seq<nat>, a: seq<Item>, b: seq<Item>)
    requires |freq| == BL_CODES && (forall i :: 0 <= i < |a| ==> a[i].code < BL_CODES)
    requires forall i :: 0 <= i < |b| ==> b[i].code < BL_CODES
    ensures ItemFreqs(freq, a + b) == ItemFreqs(ItemFreqs(freq, a), b)
  {
    if b == [] {
      assert a + b == a;
    } else {
      ItemFreqsConcat(freq, a, b[..|b| - 1]);
      assert (a + b)[..|a + b| - 1] == a + b[..|b| - 1];
    }
  }

  lemma {:induction false} ItemsCost(bl: seq<nat>, freq: seq<nat>, items: seq<Item>)
    requires Sendable(bl, items) && |bl| == BL_CODES == |freq|
    ensures Cost(ItemFreqs(freq, items), bl, EXTRA_BLBITS, 0)
        == Cost(freq, bl, EXTRA_BLBITS, 0) + |ItemsBits(bl, items)|
  {
    hide Cost, XBits, CodeBits;
    if |items| > 0 {
      var rest, i := items[..|items| - 1], items[|items| - 1];
      ItemsCost(bl, freq, rest);
      CostMore(ItemFreqs(freq, rest), bl, EXTRA_BLBITS, 0, i.code);
      ExtraBl(i.code);
    }
  }

  lemma ExtraBl(n: nat)
    requires n < BL_CODES
    ensures XBits(EXTRA_BLBITS, 0, n) == ExtraBlBits(n)
  {
  }
}
