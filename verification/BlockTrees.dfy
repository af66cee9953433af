/** The forms in which _tr_flush_block() may send a block: stored, with the fixed codes, or with codes of
    its own, whichever is shortest (RFC 1951, sections 3.2.4 to 3.2.7). */
module BlockTrees {
  import opened Bits
  import opened Lz77
  import opened Pending
  import opened PrefixCodes
  import opened Symbols
  import opened CodeLengths

  // The fixed codes.

  function FixedLengths(): (r: seq<nat>)
    ensures |r| == 288
    ensures forall n :: 0 <= n < 288 ==> r[n] == if n < 144 then 8 else if n < 256 then 9 else if n < 280 then 7 else 8
  {
    Same(8, 144) + Same(9, 112) + Same(7, 24) + Same(8, 8)
  }

  function FixedDistances(): (r: seq<nat>) {
    Same(5, 30)
  }

  lemma {:induction false} CountSame(v: nat, n: nat, len: nat)
    ensures Count(Same(v, n), len) == if v == len then n else 0
  {
    if n > 0 {
      CountSame(v, n - 1, len);
      assert Same(v, n)[..n - 1] == Same(v, n - 1);
    }
  }

  lemma {:induction false} CountConcat(a: seq<nat>, b: seq<nat>, len: nat)
    ensures Count(a + b, len) == Count(a, len) + Count(b, len)
  {
    if b == [] {
      assert a + b == a;
    } else {
      CountConcat(a, b[..|b| - 1], len);
      assert (a + b)[..|a + b| - 1] == a + b[..|b| - 1];
    }
  }

  lemma FixedCount(len: nat)
    ensures Count(FixedLengths(), len) == if len == 7 then 24 else if len == 8 then 152 else if len == 9 then 112 else 0
  {
    hide Count;
    var a, b, c, d := Same(8, 144), Same(9, 112), Same(7, 24), Same(8, 8);
    CountSame(8, 144, len);
    CountSame(9, 112, len);
    CountSame(7, 24, len);
    CountSame(8, 8, len);
    CountConcat(a, b, len);
    CountConcat(a + b, c, len);
    CountConcat(a + b + c, d, len);
  }

  /** The least codes of each length, as the format lists them: 0000000, 00110000 and 110010000. */
  lemma FixedFirst()
    ensures First(FixedLengths(), 7) == 0 && First(FixedLengths(), 8) == 48 && First(FixedLengths(), 9) == 400
    ensures forall len :: 1 <= len < 7 ==> First(FixedLengths(), len) == 0
    ensures forall len :: 9 < len <= 15 ==> First(FixedLengths(), len) <= Pow2(len)
  {
    hide Count, FixedLengths;
    var l := FixedLengths();
    forall len: nat ensures Count(l, len) == if len == 7 then 24
        else if len == 8 then 152 else if len == 9 then 112 else 0 {
      FixedCount(len);
    }
    FirstOfNone(l, 7);
    assert First(l, 8) == 48;
    assert First(l, 9) == 400;
    assert First(l, 10) == 1024 == Pow2(10) by {
      SmallPowers();
    }
    StaysBelow(l, 10, 15);
  }

  lemma {:induction false} FirstOfNone(lens: seq<nat>, n: nat)
    requires forall len :: 1 <= len < n ==> Count(lens, len) == 0
    ensures forall len :: 1 <= len <= n ==> First(lens, len) == 0
  {
    if n > 0 {
      FirstOfNone(lens, n - 1);
      if n > 1 {
        assert First(lens, n) == 2 * (First(lens, n - 1) + Count(lens, n - 1));
      } else {
        assert First(lens, 0) == 0;
      }
    }
  }

  /** Beyond the longest code there is room. */
  lemma {:induction false} StaysBelow(lens: seq<nat>, m: nat, n: nat)
    requires 1 <= m <= n && First(lens, m) <= Pow2(m) && forall len :: m <= len < n ==> Count(lens, len) == 0
    ensures forall len :: m <= len <= n ==> First(lens, len) <= Pow2(len)
  {
    if n > m {
      StaysBelow(lens, m, n - 1);
      assert First(lens, n) == 2 * (First(lens, n - 1) + Count(lens, n - 1));
    }
  }

  lemma FixedConsistent()
    ensures Consistent(FixedLengths()) && Consistent(FixedDistances())
  {
    hide Count, First, FixedDistances;
    var l := FixedLengths();
    FixedFirst();
    forall len | 1 <= len <= MAX_BITS ensures RoomFor(l, len) {
      FixedCount(len);
      SmallPowers();
    }
    DistancesConsistent();
  }

  lemma DistancesConsistent()
    ensures Consistent(FixedDistances())
  {
    hide Count;
    var l := FixedDistances();
    forall len: nat ensures Count(l, len) == if len == 5 then 30 else 0 {
      CountSame(5, 30, len);
    }
    FirstOfNone(l, 5);
    assert First(l, 6) == 60;
    SmallPowers();
    StaysBelow(l, 6, 15);
  }

  // The codes of a block's own.

  /** Are these codes, within the limits of the format, for all that the block needs? */
  ghost predicate Usable(t: Trees, syms: seq<Sym>) {
    && 257 <= |t.ll| <= 286 && 1 <= |t.dl| <= 30 && BlLengths(t.bl)
    && Consistent(t.ll) && Consistent(t.dl) && Consistent(t.bl)
    && Sendable(t.bl, TreeItems(t.ll)) && Sendable(t.bl, TreeItems(t.dl))
    && AllCoded(t.ll, t.dl, syms) && Uses(t.ll, END_BLOCK)
  }

  /** send_all_trees(). */
  ghost function HeaderBits(t: Trees): seq<bool>
    requires 257 <= |t.ll| && 1 <= |t.dl| && |t.bl| == BL_CODES && Sendable(t.bl, TreeItems(t.ll))
    requires Sendable(t.bl, TreeItems(t.dl))
  {
    var k := BlCodes(t.bl, BL_CODES);
    LowBits(|t.ll| - 257, 5) + LowBits(|t.dl| - 1, 5) + LowBits(k - 4, 4) + BlBits(t.bl, k)
    + (ItemsBits(t.bl, TreeItems(t.ll)) + ItemsBits(t.bl, TreeItems(t.dl)))
  }

  ghost function FixedBits(syms: seq<Sym>, last: bool): seq<bool>
    requires InReach(syms)
  {
    FixedSuffices(syms);
    [last, true, false] + BlockData(FixedLengths(), FixedDistances(), syms)
  }

  ghost function DynamicBits(t: Trees, syms: seq<Sym>, last: bool): seq<bool>
    requires Usable(t, syms)
  {
    [last, false, true] + (HeaderBits(t) + BlockData(t.ll, t.dl, syms))
  }

  lemma FixedSuffices(syms: seq<Sym>)
    requires InReach(syms)
    ensures AllCoded(FixedLengths(), FixedDistances(), syms) && Uses(FixedLengths(), END_BLOCK)
  {
    hide LengthParts, DistParts;
    forall i | 0 <= i < |syms| ensures Coded(FixedLengths(), FixedDistances(), syms[i]) {
    }
  }

  // The choice.

  /** A stored block: its header, and the bytes. */
  function StoredBits(at: nat, data: seq<byte>, last: bool): seq<bool> {
    StoredHead(at, |data| % 0x1_0000, last) + ByteBits(data)
  }

  /** Bits of block data, as a number of bytes, with the three bits of the block type. */
  function InBytes(len: nat): nat {
    (len + 3 + 7) / 8
  }

  datatype Choice = Store | Fixed | Dynamic

  /** The smallest form wins; stored blocks need their bytes at hand, and take four more for the lengths. */
  function Chosen(b: Block, staticLen: nat, optLen: nat, forceFixed: bool): Choice {
    var staticLenb := InBytes(staticLen);
    var optLenb := if staticLenb <= InBytes(optLen) || forceFixed then staticLenb else InBytes(optLen);
    if b.storedLen + 4 <= optLenb && b.verbatim.Some? then Store
    else if staticLenb == optLenb then Fixed
    else Dynamic
  }

  ghost function FormOf(t: Trees, forceFixed: bool, b: Block): (c: Choice)
    requires InReach(b.syms) && Usable(t, b.syms)
    ensures c == Store ==> b.verbatim.Some?
  {
    FixedSuffices(b.syms);
    var dynamicLen := |HeaderBits(t) + BlockData(t.ll, t.dl, b.syms)|;
    Chosen(b, |BlockData(FixedLengths(), FixedDistances(), b.syms)|, dynamicLen, forceFixed)
  }

  /** What _tr_flush_block() sends for a block, given the codes that build_tree() made for it. */
  ghost function TreeBits(t: Trees, forceFixed: bool, b: Block, at: nat): seq<bool>
    requires InReach(b.syms) && Usable(t, b.syms)
  {
    match FormOf(t, forceFixed, b)
    case Store => StoredBits(at, b.verbatim.value, b.last)
    case Fixed => FixedBits(b.syms, b.last)
    case Dynamic => DynamicBits(t, b.syms, b.last)
  }

  /** No form that may be used takes fewer bytes: of the two codes one counts whole bytes of their bits, of a
      stored block its data and the four bytes of its length. Of equals the stored block comes first, then the fixed
      codes; under Z_FIXED a block has no codes of its own. */
  lemma ChosenIsShortest(t: Trees, forceFixed: bool, b: Block)
    requires InReach(b.syms) && Usable(t, b.syms)
    ensures var fixed := (|FixedBits(b.syms, b.last)| + 7) / 8; var own := (|DynamicBits(t, b.syms, b.last)| + 7) / 8;
      match FormOf(t, forceFixed, b)
      case Store => b.verbatim.Some? && b.storedLen + 4 <= fixed && (!forceFixed ==> b.storedLen + 4 <= own)
      case Fixed => (!forceFixed ==> fixed <= own) && (b.verbatim.Some? ==> fixed < b.storedLen + 4)
      case Dynamic => !forceFixed && own < fixed && (b.verbatim.Some? ==> own < b.storedLen + 4)
  {
    hide HeaderBits, BlockData, Usable, FixedLengths, FixedDistances;
    FixedSuffices(b.syms);
    BitsOfForms(t, b);
  }

  lemma BitsOfForms(t: Trees, b: Block)
    requires InReach(b.syms) && Usable(t, b.syms)
    ensures AllCoded(FixedLengths(), FixedDistances(), b.syms) && Uses(FixedLengths(), END_BLOCK)
    ensures |FixedBits(b.syms, b.last)| == 3 + |BlockData(FixedLengths(), FixedDistances(), b.syms)|
    ensures |DynamicBits(t, b.syms, b.last)| == 3 + |HeaderBits(t) + BlockData(t.ll, t.dl, b.syms)|
  {
    hide HeaderBits, BlockData, FixedLengths, FixedDistances;
    FixedSuffices(b.syms);
  }

  // The size of what is sent.

  /** A match takes at most 31 bits with the fixed codes. */
  lemma SymbolSize(s: Sym)
    requires s.dist <= 0x8000
    ensures Coded(FixedLengths(), FixedDistances(), s) && |SymBits(FixedLengths(), FixedDistances(), s)| <= 31
  {
    hide CodeBits;
    FixedSuffices([s]);
    assert [s][0] == s;
  }

  lemma {:induction false} SymbolsSize(syms: seq<Sym>)
    requires InReach(syms)
    ensures AllCoded(FixedLengths(), FixedDistances(), syms)
    ensures |SymsBits(FixedLengths(), FixedDistances(), syms)| <= 31 * |syms|
  {
    hide SymBits, Coded;
    FixedSuffices(syms);
    if |syms| > 0 {
      SymbolsSize(syms[..|syms| - 1]);
      SymbolSize(syms[|syms| - 1]);
    }
  }

  /** Whatever the choice, the block takes hardly more than with the fixed codes. */
  lemma ChosenSize(t: Trees, forceFixed: bool, b: Block, at: nat)
    requires InReach(b.syms) && Usable(t, b.syms) && (b.verbatim.Some? ==> b.storedLen == |b.verbatim.value|)
    ensures |TreeBits(t, forceFixed, b, at)| <= 31 * |b.syms| + 30
  {
    hide SymsBits, CodeBits, Usable, Coded, HeaderBits, LowBits, ByteBits, PadTo8;
    SymbolsSize(b.syms);
    FixedSuffices(b.syms);
    assert |FixedBits(b.syms, b.last)| <= 31 * |b.syms| + 10;
  }

  /** The symbol buffer begins one fourth into the pending buffer and has three bytes for each symbol. With
      the fixed codes, what m symbols become never reaches the symbols not yet read. */
  lemma FixedStaysBehind(syms: seq<Sym>, m: nat, litBufsize: nat, waiting: nat)
    requires InReach(syms) && m <= |syms| < litBufsize && litBufsize >= 128 && waiting < 8
    ensures AllCoded(FixedLengths(), FixedDistances(), syms[..m])
    ensures (waiting + 3 + |SymsBits(FixedLengths(), FixedDistances(), syms[..m])|) / 8 < litBufsize + 3 * m
  {
    hide SymsBits, FixedLengths, FixedDistances;
    SymbolsSize(syms[..m]);
  }
}
