/** Literals and matches as codes and extra bits (RFC 1951, section 3.2.5), and how they are read. */
module Symbols {
  import opened Bits
  import opened Lz77
  import opened Pending
  import opened BitReading
  import opened PrefixCodes

  const END_BLOCK: nat := 256
  const EXTRA_LBITS: seq<nat> := [0, 0, 0, 0, 0, 0, 0, 0, 1, 1, 1, 1, 2, 2, 2, 2, 3, 3, 3, 3, 4, 4, 4, 4, 5, 5, 5, 5, 0]
  const EXTRA_DBITS: seq<nat> := [0, 0, 0, 0, 1, 1, 2, 2, 3, 3, 4, 4, 5, 5, 6, 6, 7, 7, 8, 8, 9, 9, 10, 10, 11, 11,
      12, 12, 13, 13]

  // The least length and the least distance of each code, as the format lists them.
  const LENGTH_BASE: seq<nat> :=
    [3, 4, 5, 6, 7, 8, 9, 10, 11, 13, 15, 17, 19, 23, 27, 31, 35, 43, 51, 59, 67, 83, 99, 115, 131, 163, 195, 227, 258]
  const DIST_BASE: seq<nat> :=
    [1, 2, 3, 4, 5, 7, 9, 13, 17, 25, 33, 49, 65, 97, 129, 193, 257, 385, 513, 769, 1025, 1537, 2049, 3073, 4097,
        6145, 8193,
     12289, 16385, 24577]

  // What the compressor sends.

  /** The least value of code c, when the codes divide the values between them in order. */
  function Base(extra: seq<nat>, c: nat): nat
    requires c <= |extra|
  {
    if c == 0 then 0 else Base(extra, c - 1) + Pow2(extra[c - 1])
  }

  /** The last code up to c that begins at or below the value. */
  function CodeFor(extra: seq<nat>, v: nat, c: nat): (r: nat)
    requires c < |extra|
    ensures r <= c && Base(extra, r) <= v && (v < Base(extra, c + 1) ==> v < Base(extra, r + 1))
  {
    if c == 0 || Base(extra, c) <= v then c else CodeFor(extra, v, c - 1)
  }

  /** A value as a code, the number of extra bits that follow the code, and what they hold. */
  datatype Parts = Parts(code: nat, extra: nat, rest: nat)

  function Split(extra: seq<nat>, v: nat, c: nat): (p: Parts)
    requires c < |extra| && v < Base(extra, c + 1)
    ensures p.code <= c && p.extra == extra[p.code] && p.rest < Pow2(p.extra) && v == Base(extra, p.code) + p.rest
  {
    var code := CodeFor(extra, v, c);
    Parts(code, extra[code], v - Base(extra, code))
  }

  // The bases the format lists follow from the numbers of extra bits.

  lemma SmallPowers()
    ensures Pow2(0) == 1 && Pow2(1) == 2 && Pow2(2) == 4 && Pow2(3) == 8 && Pow2(4) == 16 && Pow2(5) == 32
    ensures Pow2(6) == 64
    ensures Pow2(7) == 128 && Pow2(8) == 256 && Pow2(9) == 512 && Pow2(10) == 1024 && Pow2(11) == 2048
    ensures Pow2(12) == 4096 && Pow2(13) == 8192
  {
    assert Pow2(4) == 16;
    assert Pow2(8) == 256;
  }

  lemma LengthStep(c: nat)
    requires 0 < c < 28
    ensures LENGTH_BASE[c] == LENGTH_BASE[c - 1] + Pow2(EXTRA_LBITS[c - 1])
  {
    hide Pow2;
    SmallPowers();
  }

  lemma DistStep(c: nat)
    requires 0 < c < 30
    ensures DIST_BASE[c] == DIST_BASE[c - 1] + Pow2(EXTRA_DBITS[c - 1])
  {
    hide Pow2;
    SmallPowers();
  }

  lemma {:induction false} LengthBases(c: nat)
    requires c < 28
    ensures LENGTH_BASE[c] == 3 + Base(EXTRA_LBITS, c)
  {
    hide Pow2;
    if c > 0 {
      LengthBases(c - 1);
      LengthStep(c);
    }
  }

  lemma {:induction false} DistBases(c: nat)
    requires c < 30
    ensures DIST_BASE[c] == 1 + Base(EXTRA_DBITS, c)
  {
    hide Pow2;
    if c > 0 {
      DistBases(c - 1);
      DistStep(c);
    }
  }

  /** All lengths up to 257, and all distances, have codes. */
  lemma CodesSuffice()
    ensures Base(EXTRA_LBITS, 28) == 256 && Base(EXTRA_DBITS, 30) == 0x8000
  {
    hide Pow2;
    SmallPowers();
    LengthBases(27);
    DistBases(29);
    assert Base(EXTRA_LBITS, 28) == Base(EXTRA_LBITS, 27) + Pow2(EXTRA_LBITS[27]);
    assert Base(EXTRA_DBITS, 30) == Base(EXTRA_DBITS, 29) + Pow2(EXTRA_DBITS[29]);
  }

  lemma ExtraBounds()
    ensures forall c :: 0 <= c < 29 ==> EXTRA_LBITS[c] <= 5
    ensures forall c :: 0 <= c < 30 ==> EXTRA_DBITS[c] <= 13
  {
  }

  lemma LengthSplit(lc: byte)
    requires lc < 255
    ensures lc < Base(EXTRA_LBITS, 28)
    ensures var p := Split(EXTRA_LBITS, lc, 27); lc + 3 == LENGTH_BASE[p.code] + p.rest && p.extra <= 5
  {
    hide Pow2;
    CodesSuffice();
    ExtraBounds();
    LengthBases(Split(EXTRA_LBITS, lc, 27).code);
  }

  lemma DistSplit(d: nat)
    requires d < 0x8000
    ensures d < Base(EXTRA_DBITS, 30)
    ensures var p := Split(EXTRA_DBITS, d, 29); d + 1 == DIST_BASE[p.code] + p.rest && p.extra <= 13
  {
    hide Pow2;
    CodesSuffice();
    ExtraBounds();
    DistBases(Split(EXTRA_DBITS, d, 29).code);
  }

  /** A match length less 3: the longest has a code of its own. */
  function LengthParts(lc: byte): (p: Parts)
    ensures p.code < 29 && p.extra == EXTRA_LBITS[p.code] <= 5 && p.rest < Pow2(p.extra)
    ensures lc + MIN_MATCH == LENGTH_BASE[p.code] + p.rest
  {
    if lc == 255 then Parts(28, 0, 0) else LengthSplit(lc); Split(EXTRA_LBITS, lc, 27)
  }

  /** A distance less 1. */
  function DistParts(d: nat): (p: Parts)
    requires d < 0x8000
    ensures p.code < 30 && p.extra == EXTRA_DBITS[p.code] <= 13 && p.rest < Pow2(p.extra)
    ensures d + 1 == DIST_BASE[p.code] + p.rest
  {
    DistSplit(d);
    Split(EXTRA_DBITS, d, 29)
  }

  /** Do both codes provide for the symbol? */
  ghost predicate Coded(ll: seq<nat>, dl: seq<nat>, s: Sym) {
    if s.dist == 0 then Uses(ll, s.lc)
    else s.dist <= 0x8000 && Uses(ll, END_BLOCK + 1 + LengthParts(s.lc).code) && Uses(dl, DistParts(s.dist - 1).code)
  }

  predicate Uses(lens: seq<nat>, n: nat) {
    n < |lens| && lens[n] != 0
  }

  function PartsBits(lens: seq<nat>, n: nat, p: Parts): seq<bool>
    requires n < |lens|
  {
    CodeBits(lens, n) + LowBits(p.rest, p.extra)
  }

  function SymBits(ll: seq<nat>, dl: seq<nat>, s: Sym): seq<bool>
    requires Coded(ll, dl, s)
  {
    if s.dist == 0 then CodeBits(ll, s.lc)
    else
      var l, d := LengthParts(s.lc), DistParts(s.dist - 1);
      PartsBits(ll, END_BLOCK + 1 + l.code, l) + PartsBits(dl, d.code, d)
  }

  ghost predicate AllCoded(ll: seq<nat>, dl: seq<nat>, syms: seq<Sym>) {
    forall i :: 0 <= i < |syms| ==> Coded(ll, dl, syms[i])
  }

  /** What compress_block() sends, up to the end-of-block code. */
  function SymsBits(ll: seq<nat>, dl: seq<nat>, syms: seq<Sym>): seq<bool>
    requires AllCoded(ll, dl, syms)
  {
    if |syms| == 0 then [] else SymsBits(ll, dl, syms[..|syms| - 1]) + SymBits(ll, dl, syms[|syms| - 1])
  }

  // Reading symbols, as the format describes it.

  /** What a block yields together with all before it, and where it ends. */
  datatype Part = Part(out: seq<byte>, end: nat)

  datatype Copy = Copy(len: nat, dist: nat, end: nat)

  // The table of RFC 1951, section 3.2.5, by formula: from the ninth length code and the fifth distance code on,
  // four and two codes in turn have the same number of extra bits, one more than those before.

  function LengthExtra(n: nat): nat
    requires 257 <= n <= 285
  {
    if n < 265 || n == 285 then 0 else (n - 261) / 4
  }

  function LeastLength(n: nat): nat
    requires 257 <= n <= 285
  {
    if n < 265 then n - 254 else if n == 285 then 258 else 3 + (4 + (n - 265) % 4) * Pow2(LengthExtra(n))
  }

  function DistExtra(d: nat): nat {
    if d < 4 then 0 else d / 2 - 1
  }

  function LeastDist(d: nat): (r: nat)
    ensures r > 0
  {
    if d < 4 then d + 1 else 1 + (2 + d % 2) * Pow2(DistExtra(d))
  }

  /** The tables of trees.c are the same. */
  lemma LengthsListed(c: nat)
    requires c < 29
    ensures LengthExtra(257 + c) == EXTRA_LBITS[c] && LeastLength(257 + c) == LENGTH_BASE[c]
  {
    hide Pow2;
    SmallPowers();
  }

  lemma DistsListed(d: nat)
    requires d < 30
    ensures DistExtra(d) == EXTRA_DBITS[d] && LeastDist(d) == DIST_BASE[d]
  {
    hide Pow2, LeastDist, DIST_BASE;
    if d < 16 {
      NearListed(d);
    } else {
      FarListed(d);
    }
  }

  lemma NearListed(d: nat)
    requires d < 16
    ensures LeastDist(d) == DIST_BASE[d]
  {
    hide Pow2;
    SmallPowers();
  }

  lemma FarListed(d: nat)
    requires 16 <= d < 30
    ensures LeastDist(d) == DIST_BASE[d]
  {
    hide Pow2;
    SmallPowers();
  }

  /** The rest of a match whose length code is already read. */
  function ReadMatch(dl: seq<nat>, n: nat, bits: seq<bool>, at: nat): (r: Option<Copy>)
    requires n > 256
    ensures r.Some? ==> r.value.dist > 0 && at < r.value.end <= |bits|
  {
    if n > 285 then None
    else
      var x := LengthExtra(n);
      match Field(bits, at, x)
      case None => None
      case Some(len) =>
        match ReadCode(dl, bits, at + x)
        case None => None
        case Some(d) =>
          if d > 29 then None
          else
            var p := at + x + dl[d];
            match Field(bits, p, DistExtra(d))
            case None => None
            case Some(dist) => Some(Copy(LeastLength(n) + len, LeastDist(d) + dist, p + DistExtra(d)))
  }

  /** Literals and matches up to the end-of-block code. */
  function ReadSymbols(ll: seq<nat>, dl: seq<nat>, bits: seq<bool>, at: nat, out: seq<byte>): (r: Option<Part>)
    ensures r.Some? ==> at < r.value.end <= |bits|
    decreases |bits| - at
  {
    match ReadCode(ll, bits, at)
    case None => None
    case Some(n) =>
      var p := at + ll[n];
      if n < 256 then ReadSymbols(ll, dl, bits, p, out + [n])
      else if n == 256 then Some(Part(out, p))
      else
        match ReadMatch(dl, n, bits, p)
        case None => None
        case Some(m) => if m.dist <= |out| then ReadSymbols(ll, dl, bits, m.end, CopyMatch(out, m.dist, m.len))
            else None
  }

  lemma CodeThenRest(bits: seq<bool>, at: nat, lens: seq<nat>, n: nat, p: Parts)
    requires Consistent(lens) && Uses(lens, n) && p.rest < Pow2(p.extra) && Placed(bits, at, PartsBits(lens, n, p))
    ensures ReadCode(lens, bits, at) == Some(n) && Field(bits, at + lens[n], p.extra) == Some(p.rest)
    ensures |PartsBits(lens, n, p)| == lens[n] + p.extra
  {
    hide CodeBits, Pow2, ReadCode, Field, Consistent;
    PlacedPart(bits, at, CodeBits(lens, n), LowBits(p.rest, p.extra));
    CodeRead(lens, n, bits, at);
    FieldPlaced(bits, at + lens[n], p.rest, p.extra);
  }

  lemma MatchRead(bits: seq<bool>, at: nat, ll: seq<nat>, dl: seq<nat>, s: Sym)
    requires Consistent(ll) && Consistent(dl) && Coded(ll, dl, s) && s.dist > 0 && Placed(bits, at, SymBits(ll, dl, s))
    ensures var n := END_BLOCK + 1 + LengthParts(s.lc).code;
      ReadCode(ll, bits, at) == Some(n)
      && ReadMatch(dl, n, bits, at + ll[n]) == Some(Copy(s.lc + MIN_MATCH, s.dist, at + |SymBits(ll, dl, s)|))
  {
    hide CodeBits, Pow2, ReadCode, Field, Consistent, LengthParts, DistParts, PartsBits, EXTRA_LBITS, EXTRA_DBITS;
    hide LENGTH_BASE, DIST_BASE, LengthExtra, LeastLength, DistExtra, LeastDist;
    var l, d := LengthParts(s.lc), DistParts(s.dist - 1);
    var n := END_BLOCK + 1 + l.code;
    LengthsListed(l.code);
    DistsListed(d.code);
    PlacedPart(bits, at, PartsBits(ll, n, l), PartsBits(dl, d.code, d));
    CodeThenRest(bits, at, ll, n, l);
    CodeThenRest(bits, at + ll[n] + l.extra, dl, d.code, d);
  }

  /** A symbol that was sent is read as what it stands for. */
  lemma SymbolRead(bits: seq<bool>, at: nat, ll: seq<nat>, dl: seq<nat>, s: Sym, out: seq<byte>)
    requires Consistent(ll) && Consistent(dl) && Coded(ll, dl, s) && Placed(bits, at, SymBits(ll, dl, s))
    requires ExpandSym(out, s).Some?
    ensures ReadSymbols(ll, dl, bits, at, out)
        == ReadSymbols(ll, dl, bits, at + |SymBits(ll, dl, s)|, ExpandSym(out, s).value)
  {
    hide CodeBits, ReadCode, ReadMatch, Consistent, LengthParts, DistParts, PartsBits;
    if s.dist == 0 {
      CodeRead(ll, s.lc, bits, at);
    } else {
      MatchRead(bits, at, ll, dl, s);
    }
  }

  // A whole block.

  function BlockData(ll: seq<nat>, dl: seq<nat>, syms: seq<Sym>): seq<bool>
    requires AllCoded(ll, dl, syms) && Uses(ll, END_BLOCK)
  {
    SymsBits(ll, dl, syms) + CodeBits(ll, END_BLOCK)
  }

  lemma SymsMore(ll: seq<nat>, dl: seq<nat>, syms: seq<Sym>, i: nat)
    requires AllCoded(ll, dl, syms) && i < |syms|
    ensures SymsBits(ll, dl, syms[..i + 1]) == SymsBits(ll, dl, syms[..i]) + SymBits(ll, dl, syms[i])
  {
    assert syms[..i + 1][..i] == syms[..i];
  }

  lemma {:induction false} SymPlaced(bits: seq<bool>, at: nat, ll: seq<nat>, dl: seq<nat>, syms: seq<Sym>, i: nat)
    requires AllCoded(ll, dl, syms) && i < |syms| && Placed(bits, at, SymsBits(ll, dl, syms))
    ensures Placed(bits, at + |SymsBits(ll, dl, syms[..i])|, SymBits(ll, dl, syms[i]))
    decreases |syms|
  {
    hide SymBits, Coded, Placed;
    var n := |syms| - 1;
    PlacedPart(bits, at, SymsBits(ll, dl, syms[..n]), SymBits(ll, dl, syms[n]));
    if i < n {
      SymPlaced(bits, at, ll, dl, syms[..n], i);
      assert syms[..n][..i] == syms[..i];
    }
  }

  lemma {:induction false} PrefixExpands(out: seq<byte>, syms: seq<Sym>, i: nat)
    requires Expand(out, syms).Some? && i <= |syms|
    ensures Expand(out, syms[..i]).Some?
    decreases |syms|
  {
    hide ExpandSym;
    if i == |syms| {
      assert syms[..i] == syms;
    } else {
      PrefixExpands(out, syms[..|syms| - 1], i);
      assert syms[..|syms| - 1][..i] == syms[..i];
    }
  }

  /** From the start of symbol i on, what is read is the whole block. */
  lemma {:induction false} ReadFrom(bits: seq<bool>, at: nat, ll: seq<nat>, dl: seq<nat>, syms: seq<Sym>,
      out: seq<byte>, i: nat)
    requires Consistent(ll) && Consistent(dl) && AllCoded(ll, dl, syms) && Uses(ll, END_BLOCK)
    requires Placed(bits, at, BlockData(ll, dl, syms)) && i <= |syms| && Expand(out, syms).Some?
    ensures Expand(out, syms[..i]).Some?
    ensures ReadSymbols(ll, dl, bits, at + |SymsBits(ll, dl, syms[..i])|, Expand(out, syms[..i]).value)
         == Some(Part(Expand(out, syms).value, at + |BlockData(ll, dl, syms)|))
    decreases |syms| - i
  {
    hide SymsBits, SymBits, CodeBits, ReadCode, ReadMatch, Consistent, Coded, ExpandSym;
    PlacedPart(bits, at, SymsBits(ll, dl, syms), CodeBits(ll, END_BLOCK));
    PrefixExpands(out, syms, i);
    if i == |syms| {
      assert syms[..i] == syms;
      CodeRead(ll, END_BLOCK, bits, at + |SymsBits(ll, dl, syms)|);
    } else {
      ReadFrom(bits, at, ll, dl, syms, out, i + 1);
      SymPlaced(bits, at, ll, dl, syms, i);
      SymsMore(ll, dl, syms, i);
      assert syms[..i + 1][..i] == syms[..i];
      SymbolRead(bits, at + |SymsBits(ll, dl, syms[..i])|, ll, dl, syms[i], Expand(out, syms[..i]).value);
    }
  }

  /** Whatever the two codes, a block is read as what its symbols stand for. */
  lemma BlockRead(bits: seq<bool>, at: nat, ll: seq<nat>, dl: seq<nat>, syms: seq<Sym>, out: seq<byte>)
    requires Consistent(ll) && Consistent(dl) && AllCoded(ll, dl, syms) && Uses(ll, END_BLOCK)
    requires Placed(bits, at, BlockData(ll, dl, syms)) && Expand(out, syms).Some?
    ensures ReadSymbols(ll, dl, bits, at, out) == Some(Part(Expand(out, syms).value, at + |BlockData(ll, dl, syms)|))
  {
    ReadFrom(bits, at, ll, dl, syms, out, 0);
    assert syms[..0] == [] && SymsBits(ll, dl, []) == [];
  }
}
