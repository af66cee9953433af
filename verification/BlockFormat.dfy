/** A decoder for deflated data, written from the format bit by bit (RFC 1951, section 3.2.3), and the
    proof that it reads back what the compressor sends. */
module BlockFormat {
  import opened Bits
  import opened Lz77
  import opened Pending
  import opened BitReading
  import opened PrefixCodes
  import opened Symbols
  import opened CodeLengths
  import opened BlockStream
  import opened BlockTrees

  function ValueOfByte(bits: seq<bool>): byte
    requires |bits| == 8
  {
    Pow2Values();
    Value(bits)
  }

  function Bytes(bits: seq<bool>): seq<byte> {
    if |bits| < 8 then [] else Bytes(bits[..|bits| - 8]) + [ValueOfByte(bits[|bits| - 8..])]
  }

  /** All data up to the end of a block, where it ends, and whether it is the final one. */
  datatype Piece = Piece(out: seq<byte>, end: nat, last: bool)

  /** The codes of a block, from their description. */
  datatype Described = Described(ll: seq<nat>, dl: seq<nat>, end: nat)

  /** LEN, confirmed by its complement. */
  function StoredLength(bits: seq<bool>, at: nat): (r: Option<nat>) {
    match Field(bits, at, 16)
    case None => None
    case Some(len) => if Field(bits, at + 16, 16) == Some(0xffff - len) then Some(len) else None
  }

  /** A stored block from the byte boundary on. */
  function ReadStored(bits: seq<bool>, at: nat, out: seq<byte>): (r: Option<Part>)
    ensures r.Some? ==> at < r.value.end <= |bits|
  {
    match StoredLength(bits, at)
    case None => None
    case Some(len) =>
      var p := at + 32;
      if p + 8 * len <= |bits| then Some(Part(out + Bytes(bits[p..p + 8 * len]), p + 8 * len)) else None
  }

  function ReadTrees(bits: seq<bool>, at: nat): (r: Option<Described>) {
    match (Field(bits, at, 5), Field(bits, at + 5, 5), Field(bits, at + 10, 4))
    case (Some(hlit), Some(hdist), Some(hclen)) =>
      if hclen + 4 > 19 then None
      else
        (match ReadFields(bits, at + 14, hclen + 4)
         case None => None
         case Some(vals) =>
           match ReadLengths(Arranged(vals, hclen + 4), bits, at + 14 + 3 * (hclen + 4), hlit + 257 + hdist + 1, [])
           case None => None
           case Some(r) => Some(Described(r.lens[..hlit + 257], r.lens[hlit + 257..], r.end)))
    case _ => None
  }

  function ReadDynamic(bits: seq<bool>, at: nat, out: seq<byte>): (r: Option<Part>)
    ensures r.Some? ==> r.value.end <= |bits|
  {
    match ReadTrees(bits, at)
    case None => None
    case Some(t) => ReadSymbols(t.ll, t.dl, bits, t.end, out)
  }

  /** One block: its final-block flag, its type, and its data. */
  function DecodeBlock(bits: seq<bool>, at: nat, out: seq<byte>): (r: Option<Piece>)
    ensures r.Some? ==> at < r.value.end <= |bits|
  {
    if at + 3 > |bits| then None
    else
      var body :=
        if !bits[at + 1] && !bits[at + 2] then ReadStored(bits, (at + 3 + 7) / 8 * 8, out)
        else if bits[at + 1] && !bits[at + 2] then ReadSymbols(FixedLengths(), FixedDistances(), bits, at + 3, out)
        else if !bits[at + 1] && bits[at + 2] then ReadDynamic(bits, at + 3, out)
        else None;
      match body
      case None => None
      case Some(p) => if p.end <= at then None else Some(Piece(p.out, p.end, bits[at]))
  }

  /** All blocks up to the final one, and where that ends. */
  function Decode(bits: seq<bool>, at: nat, out: seq<byte>): (r: Option<Part>)
    ensures r.Some? ==> r.value.end <= |bits|
    decreases |bits| - at
  {
    match DecodeBlock(bits, at, out)
    case None => None
    case Some(p) => if p.last then Some(Part(p.out, p.end)) else Decode(bits, p.end, p.out)
  }

  /** All that there is of a stream, if that ends with a block. */
  function DecodeSoFar(bits: seq<bool>, at: nat, out: seq<byte>): Option<seq<byte>>
    decreases |bits| - at
  {
    if at == |bits| then Some(out)
    else
      match DecodeBlock(bits, at, out)
      case None => None
      case Some(p) => if p.last then Some(p.out) else DecodeSoFar(bits, p.end, p.out)
  }

  // Stored blocks.

  lemma {:induction false} BytesOfBits(data: seq<byte>)
    ensures Bytes(ByteBits(data)) == data
  {
    hide Value, LowBits, Pow2;
    if data != [] {
      var n := |data| - 1;
      BytesOfBits(data[..n]);
      ByteBack(data[n]);
      LastEight(ByteBits(data[..n]), LowBits(data[n], 8));
    }
  }

  lemma ByteBack(b: byte)
    ensures ValueOfByte(LowBits(b, 8)) == b
  {
    hide Value, LowBits;
    Pow2Values();
    ValueOfLow(b, 8);
  }

  lemma LastEight(a: seq<bool>, b: seq<bool>)
    requires |b| == 8
    ensures Bytes(a + b) == Bytes(a) + [ValueOfByte(b)]
  {
    hide Value;
    assert (a + b)[..|a + b| - 8] == a && (a + b)[|a + b| - 8..] == b;
  }

  lemma PlacedIs(bits: seq<bool>, at: nat, part: seq<bool>)
    requires Placed(bits, at, part)
    ensures at + |part| <= |bits| && bits[at..at + |part|] == part
  {
  }

  lemma LengthRead(bits: seq<bool>, at: nat, len: nat)
    requires len < 0x1_0000 && Placed(bits, at, LowBits(len, 16)) && Placed(bits, at + 16, LowBits(0xffff - len, 16))
    ensures StoredLength(bits, at) == Some(len)
  {
    hide Field, LowBits;
    Pow2Values();
    FieldPlaced(bits, at, len, 16);
    FieldPlaced(bits, at + 16, 0xffff - len, 16);
  }

  lemma StoredRead(bits: seq<bool>, at: nat, data: seq<byte>, out: seq<byte>)
    requires |data| < 0x1_0000
    requires Placed(bits, at, LowBits(|data|, 16)) && Placed(bits, at + 16, LowBits(0xffff - |data|, 16))
    requires Placed(bits, at + 32, ByteBits(data))
    ensures ReadStored(bits, at, out) == Some(Part(out + data, at + 32 + 8 * |data|))
  {
    hide StoredLength, Bytes, LowBits, ByteBits, Placed;
    PlacedIs(bits, at + 32, ByteBits(data));
    LengthRead(bits, at, |data|);
    BytesOfBits(data);
  }

  lemma StoredPlaced(bits: seq<bool>, at: nat, pad: nat, data: seq<byte>, last: bool)
    requires |data| < 0x1_0000
    requires Placed(bits, at, [last, false, false] + Zeros(pad) + LowBits(|data|, 16) + LowBits(0xffff - |data|,
        16) + ByteBits(data))
    ensures at + 3 <= |bits| && bits[at] == last && !bits[at + 1] && !bits[at + 2]
    ensures var p := at + 3 + pad;
      Placed(bits, p, LowBits(|data|, 16)) && Placed(bits, p + 16, LowBits(0xffff - |data|, 16))
          && Placed(bits, p + 32, ByteBits(data))
  {
    hide LowBits, ByteBits, Zeros, Placed;
    PlacedFive(bits, at, [last, false, false], Zeros(pad), LowBits(|data|, 16), LowBits(0xffff - |data|, 16),
      ByteBits(data));
    PlacedThree(bits, at, last, false, false);
  }

  lemma PlacedFive(bits: seq<bool>, at: nat, t: seq<bool>, z: seq<bool>, l: seq<bool>, n: seq<bool>, d: seq<bool>)
    requires Placed(bits, at, t + z + l + n + d)
    ensures Placed(bits, at, t) && Placed(bits, at + |t| + |z|, l)
    ensures Placed(bits, at + |t| + |z| + |l|, n) && Placed(bits, at + |t| + |z| + |l| + |n|, d)
  {
    hide Placed;
    PlacedPart(bits, at, t + z + l + n, d);
    PlacedPart(bits, at, t + z + l, n);
    PlacedPart(bits, at, t + z, l);
    PlacedPart(bits, at, t, z);
  }

  /** A stored block is read back. */
  lemma StoredDecodes(bits: seq<bool>, at: nat, data: seq<byte>, last: bool, out: seq<byte>)
    requires |data| < 0x1_0000 && Placed(bits, at, StoredBits(at, data, last))
    ensures DecodeBlock(bits, at, out) == Some(Piece(out + data, at + |StoredBits(at, data, last)|, last))
  {
    hide LowBits, ByteBits, PadTo8, Zeros, ReadStored, Placed;
    StoredPlaced(bits, at, PadTo8(at + 3), data, last);
    StoredRead(bits, at + 3 + PadTo8(at + 3), data, out);
    ToBoundary(at + 3);
  }

  lemma ToBoundary(at: nat)
    ensures at + PadTo8(at) == (at + 7) / 8 * 8
  {
  }

  // Blocks with the fixed codes.

  lemma FixedDecodes(bits: seq<bool>, at: nat, syms: seq<Sym>, last: bool, out: seq<byte>)
    requires InReach(syms) && Expand(out, syms).Some? && Placed(bits, at, FixedBits(syms, last))
    ensures DecodeBlock(bits, at, out) == Some(Piece(Expand(out, syms).value, at + |FixedBits(syms, last)|, last))
  {
    hide BlockData, ReadSymbols, Expand, FixedLengths, FixedDistances, Consistent, AllCoded;
    FixedSuffices(syms);
    FixedConsistent();
    var d := BlockData(FixedLengths(), FixedDistances(), syms);
    PlacedPart(bits, at, [last, true, false], d);
    PlacedThree(bits, at, last, true, false);
    BlockRead(bits, at + 3, FixedLengths(), FixedDistances(), syms, out);
  }

  /** The block that only marks a flush is one without symbols. */
  lemma EmptyDecodes(bits: seq<bool>, at: nat, last: bool, out: seq<byte>)
    requires Placed(bits, at, [last, true, false] + Zeros(7))
    ensures DecodeBlock(bits, at, out) == Some(Piece(out, at + 10, last))
  {
    hide BlockData, DecodeBlock, Zeros;
    EmptyIsFixed(last);
    FixedDecodes(bits, at, [], last, out);
  }

  lemma EmptyIsFixed(last: bool)
    ensures FixedBits([], last) == [last, true, false] + Zeros(7)
  {
    hide First, Count;
    FixedFirst();
    NoneCounted7();
    EndIsZero();
  }

  /** The end-of-block code is the first of its length. */
  lemma NoneCounted7()
    ensures Count(FixedLengths()[..256], 7) == 0
  {
    CountSame(8, 144, 7);
    CountSame(9, 112, 7);
    CountConcat(Same(8, 144), Same(9, 112), 7);
    assert FixedLengths()[..256] == Same(8, 144) + Same(9, 112);
  }

  lemma EndIsZero()
    ensures CodeWord(0, 7) == Zeros(7)
  {
    assert CodeWord(0, 3) == [false, false, false];
    assert CodeWord(0, 5) == [false, false, false, false, false];
    assert LowBits(0, 3) == [false, false, false];
    assert LowBits(0, 5) == [false, false, false, false, false];
  }

  /** Is this the number, its most significant bit first? */
  ghost predicate IsWord(bits: seq<bool>, v: nat, len: nat) {
    |bits| == len && forall i :: 0 <= i < len ==> (bits[i] <==> Bit(v, len - 1 - i))
  }

  lemma {:induction false} WordOf(v: nat, len: nat)
    ensures IsWord(CodeWord(v, len), v, len)
  {
    if len > 0 {
      WordOf(v / 2, len - 1);
    }
  }

  /** The fixed codes are those of the table in RFC 1951, section 3.2.6, bit by bit. */
  lemma FixedWords(n: nat)
    requires n < 288
    ensures IsWord(CodeBits(FixedLengths(), n),
      if n < 144 then 48 + n else if n < 256 then 400 + (n - 144) else if n < 280 then n - 256 else 192 + (n - 280),
      if n < 144 then 8 else if n < 256 then 9 else if n < 280 then 7 else 8)
  {
    hide First, Count, FixedLengths, CodeWord, IsWord;
    var l := FixedLengths();
    FixedFirst();
    CountedBefore(n);
    WordOf(Code(l, n), l[n]);
  }

  lemma FixedDistanceWords(d: nat)
    requires d < 30
    ensures d < |FixedDistances()| && IsWord(CodeBits(FixedDistances(), d), d, 5)
  {
    hide First, Count, CodeWord, IsWord;
    var l := FixedDistances();
    forall len: nat | len < 5 ensures Count(l, len) == 0 {
      CountSame(5, 30, len);
    }
    FirstOfNone(l, 5);
    CountSame(5, d, 5);
    assert l[..d] == Same(5, d);
    WordOf(d, 5);
  }

  /** How many codes of the same length come before that of symbol n. */
  lemma CountedBefore(n: nat)
    requires n < 288
    ensures var l := FixedLengths();
      Count(l[..n], l[n]) == if n < 144 then n else if n < 256 then n - 144 else if n < 280 then n - 256 else n - 136
  {
    hide Count;
    var l := FixedLengths();
    var a := Same(8, if n < 144 then n else 144);
    var b := Same(9, if n < 144 then 0 else if n < 256 then n - 144 else 112);
    var c := Same(7, if n < 256 then 0 else if n < 280 then n - 256 else 24);
    var d := Same(8, if n < 280 then 0 else n - 280);
    assert l[..n] == a + b + c + d;
    CountSame(8, |a|, l[n]);
    CountSame(9, |b|, l[n]);
    CountSame(7, |c|, l[n]);
    CountSame(8, |d|, l[n]);
    CountConcat(a, b, l[n]);
    CountConcat(a + b, c, l[n]);
    CountConcat(a + b + c, d, l[n]);
  }

  // Blocks with codes of their own.

  lemma HeaderRead(bits: seq<bool>, at: nat, t: Trees, syms: seq<Sym>)
    requires Usable(t, syms) && Placed(bits, at, HeaderBits(t))
    ensures ReadTrees(bits, at) == Some(Described(t.ll, t.dl, at + |HeaderBits(t)|))
  {
    hide LowBits, BlBits, ItemsBits, Field, ReadFields, ReadLengths, Arranged, Consistent, Placed, TreeItems;
    var k := BlCodes(t.bl, BL_CODES);
    var a, b, c, d := LowBits(|t.ll| - 257, 5), LowBits(|t.dl| - 1, 5), LowBits(k - 4, 4), BlBits(t.bl, k);
    var e := ItemsBits(t.bl, TreeItems(t.ll)) + ItemsBits(t.bl, TreeItems(t.dl));
    PlacedPart(bits, at, a + b + c + d, e);
    PlacedPart(bits, at, a + b + c, d);
    PlacedPart(bits, at, a + b, c);
    PlacedPart(bits, at, a, b);
    SmallPowers();
    FieldPlaced(bits, at, |t.ll| - 257, 5);
    FieldPlaced(bits, at + 5, |t.dl| - 1, 5);
    FieldPlaced(bits, at + 10, k - 4, 4);
    FieldsRead(bits, at + 14, t.bl, k);
    ArrangedBack(t.bl);
    ConsistentShort(t.ll);
    ConsistentShort(t.dl);
    TreesRead(t.bl, t.ll, t.dl, bits, at + 14 + 3 * k);
    assert (t.ll + t.dl)[..|t.ll|] == t.ll && (t.ll + t.dl)[|t.ll|..] == t.dl;
  }

  lemma DynamicDecodes(bits: seq<bool>, at: nat, t: Trees, syms: seq<Sym>, last: bool, out: seq<byte>)
    requires Usable(t, syms) && Expand(out, syms).Some? && Placed(bits, at, DynamicBits(t, syms, last))
    ensures DecodeBlock(bits, at, out) == Some(Piece(Expand(out, syms).value, at + |DynamicBits(t, syms, last)|, last))
  {
    hide BlockData, HeaderBits, ReadSymbols, ReadTrees, Expand, Consistent, AllCoded, Sendable;
    PlacedPart(bits, at, [last, false, true], HeaderBits(t) + BlockData(t.ll, t.dl, syms));
    PlacedThree(bits, at, last, false, true);
    PlacedPart(bits, at + 3, HeaderBits(t), BlockData(t.ll, t.dl, syms));
    HeaderRead(bits, at + 3, t, syms);
    BlockRead(bits, at + 3 + |HeaderBits(t)|, t.ll, t.dl, syms, out);
  }

  // Whole streams.

  /** The decoder, having produced S[..from], reads the block at `at` as leading to S[..to]. */
  ghost predicate ReadAs(fixed: bool, b: Block, bits: seq<bool>, at: nat, S: seq<byte>, from: nat, to: nat)
    requires from <= to <= |S|
  {
    var p := DecodeBlock(bits, at, S[..from]);
    && p.Some? && p.value.out == S[..to] && p.value.last == b.last
    && p.value.end + (if b.last then PadTo8(p.value.end) else 0) == at + |BlockBits(fixed, b, at)|
  }

  lemma PlainReads(fixed: bool, b: Block, bits: seq<bool>, at: nat, S: seq<byte>, from: nat, to: nat)
    requires b.form != Tallied && BlockCovers(b, S, from, to) && Placed(bits, at, BlockBits(fixed, b, at))
    ensures ReadAs(fixed, b, bits, at, S, from, to)
  {
    hide DecodeBlock, Zeros, StoredBits, Expand, Usable;
    if b.form == Stored {
      StoredDecodes(bits, at, b.verbatim.value, b.last, S[..from]);
      assert S[..from] + S[from..to] == S[..to];
      StoredAligned(at, b.verbatim.value, b.last);
    } else {
      EmptyDecodes(bits, at, b.last, S[..from]);
    }
  }

  /** Whichever form is chosen for a block, it is read back. */
  lemma ChosenReads(fixed: bool, b: Block, bits: seq<bool>, at: nat, S: seq<byte>, from: nat, to: nat)
    requires b.form == Tallied && BlockCovers(b, S, from, to) && Placed(bits, at, BlockBits(fixed, b, at))
    ensures ReadAs(fixed, b, bits, at, S, from, to)
  {
    hide DecodeBlock, Zeros, StoredBits, Expand, Usable, FixedBits, DynamicBits, Placed, FormOf, PadTo8;
    PlacedFirst(bits, at, TreeBits(b.trees, fixed, b, at), BlockBits(fixed, b, at));
    match FormOf(b.trees, fixed, b)
    case Store =>
      StoredDecodes(bits, at, b.verbatim.value, b.last, S[..from]);
      assert S[..from] + S[from..to] == S[..to];
    case Fixed => FixedDecodes(bits, at, b.syms, b.last, S[..from]);
    case Dynamic => DynamicDecodes(bits, at, b.trees, b.syms, b.last, S[..from]);
  }

  lemma PlacedFirst(bits: seq<bool>, at: nat, part: seq<bool>, all: seq<bool>)
    requires part <= all && Placed(bits, at, all)
    ensures Placed(bits, at, part)
  {
    assert all == part + all[|part|..];
    PlacedPart(bits, at, part, all[|part|..]);
  }

  /** The bits of the first i blocks come first. */
  lemma {:induction false} StreamPrefix(fixed: bool, blocks: seq<Block>, i: nat)
    requires i < |blocks|
    ensures var at := |StreamBits(fixed, blocks[..i])|;
      Placed(StreamBits(fixed, blocks), at, BlockBits(fixed, blocks[i], at))
          && |StreamBits(fixed, blocks[..i + 1])| == at + |BlockBits(fixed, blocks[i], at)|
  {
    hide BlockBits;
    var n := |blocks| - 1;
    var before := StreamBits(fixed, blocks[..n]);
    StreamMore(fixed, blocks[..i], blocks[i]);
    assert blocks[..i] + [blocks[i]] == blocks[..i + 1];
    if i < n {
      StreamPrefix(fixed, blocks[..n], i);
      assert blocks[..n][..i] == blocks[..i] && blocks[..n][..i + 1] == blocks[..i + 1];
      var at := |StreamBits(fixed, blocks[..i])|;
      PlacedFurther(before, BlockBits(fixed, blocks[n], |before|), at, BlockBits(fixed, blocks[i], at));
    } else {
      assert blocks[..i + 1] == blocks;
    }
  }

  /** The last block, and no other, is marked as final. */
  ghost predicate Ends(blocks: seq<Block>) {
    |blocks| > 0 && blocks[|blocks| - 1].last && forall k :: 0 <= k < |blocks| - 1 ==> !blocks[k].last
  }

  /** Block i of a stream, whatever follows the stream. */
  lemma BlockReads(fixed: bool, blocks: seq<Block>, cuts: Cuts, S: seq<byte>, end: nat, bits: seq<bool>, i: nat)
    requires i < |blocks| && Covers(blocks, cuts, S, end) && StreamBits(fixed, blocks) <= bits
    ensures cuts.ends[i] <= cuts.ends[i + 1] <= |S|
    ensures ReadAs(fixed, blocks[i], bits, |StreamBits(fixed, blocks[..i])|, S, cuts.ends[i], cuts.ends[i + 1])
    ensures |StreamBits(fixed, blocks[..i + 1])|
        == |StreamBits(fixed, blocks[..i])| + |BlockBits(fixed, blocks[i], |StreamBits(fixed, blocks[..i])|)|
    ensures |StreamBits(fixed, blocks[..i])| < |StreamBits(fixed, blocks)|
  {
    hide BlockBits, DecodeBlock, StreamBits, BlockCovers, ReadAs;
    var at := |StreamBits(fixed, blocks[..i])|;
    CoveredAt(blocks, cuts, S, end, i);
    StreamPrefix(fixed, blocks, i);
    StillPlaced(StreamBits(fixed, blocks), bits, at, BlockBits(fixed, blocks[i], at));
    if blocks[i].form == Tallied {
      ChosenReads(fixed, blocks[i], bits, at, S, cuts.ends[i], cuts.ends[i + 1]);
    } else {
      PlainReads(fixed, blocks[i], bits, at, S, cuts.ends[i], cuts.ends[i + 1]);
    }
    ReadsSome(fixed, blocks[i], bits, at, S, cuts.ends[i], cuts.ends[i + 1]);
  }

  lemma ReadsSome(fixed: bool, b: Block, bits: seq<bool>, at: nat, S: seq<byte>, from: nat, to: nat)
    requires from <= to <= |S| && ReadAs(fixed, b, bits, at, S, from, to)
    ensures |BlockBits(fixed, b, at)| > 0
  {
  }

  lemma StillPlaced(all: seq<bool>, bits: seq<bool>, at: nat, part: seq<bool>)
    requires all <= bits && Placed(all, at, part)
    ensures Placed(bits, at, part) && at + |part| <= |all|
  {
    PlacedIs(all, at, part);
    assert bits[at..at + |part|] == all[at..at + |part|];
  }

  /** From the start of block i on, the decoder yields all that is covered. */
  lemma {:induction false} DecodesFrom(fixed: bool, blocks: seq<Block>, cuts: Cuts, S: seq<byte>, end: nat,
      bits: seq<bool>, i: nat)
    requires i < |blocks| && Covers(blocks, cuts, S, end) && Ends(blocks) && StreamBits(fixed, blocks) <= bits
    ensures cuts.ends[i] <= |S|
    ensures var p := Decode(bits, |StreamBits(fixed, blocks[..i])|, S[..cuts.ends[i]]);
      p.Some? && p.value.out == S[..end] && p.value.end + PadTo8(p.value.end) == |StreamBits(fixed, blocks)|
    decreases |blocks| - i
  {
    hide BlockBits, DecodeBlock, StreamBits, BlockCovers, SinceMark, PadTo8;
    BlockReads(fixed, blocks, cuts, S, end, bits, i);
    if i < |blocks| - 1 {
      DecodesFrom(fixed, blocks, cuts, S, end, bits, i + 1);
    } else {
      assert blocks[..i + 1] == blocks;
    }
  }

  /** The same before the last block has been sent. */
  lemma {:induction false} SoFarFrom(fixed: bool, blocks: seq<Block>, cuts: Cuts, S: seq<byte>, end: nat, i: nat)
    requires i <= |blocks| && Covers(blocks, cuts, S, end) && forall k :: 0 <= k < |blocks| ==> !blocks[k].last
    ensures cuts.ends[i] <= |S|
    ensures var at := |StreamBits(fixed, blocks[..i])|;
      DecodeSoFar(StreamBits(fixed, blocks), at, S[..cuts.ends[i]]) == Some(S[..end])
    decreases |blocks| - i
  {
    hide BlockBits, DecodeBlock, StreamBits, BlockCovers, SinceMark, PadTo8;
    if i < |blocks| {
      BlockReads(fixed, blocks, cuts, S, end, StreamBits(fixed, blocks), i);
      SoFarFrom(fixed, blocks, cuts, S, end, i + 1);
    } else {
      assert blocks[..i] == blocks;
    }
  }

  lemma CoveredAt(blocks: seq<Block>, cuts: Cuts, S: seq<byte>, end: nat, k: nat)
    requires Covers(blocks, cuts, S, end) && k < |blocks|
    ensures BlockCovers(blocks[k], S, cuts.ends[k], cuts.ends[k + 1]) && cuts.ends[k] <= cuts.ends[k + 1] <= |S|
  {
    hide Usable, Expand, SinceMark;
  }

  /** A complete stream is decoded to the input it covers, each block by its own trees, and its end is found,
      whatever comes after it. */
  lemma StreamDecodes(fixed: bool, blocks: seq<Block>, cuts: Cuts, S: seq<byte>, end: nat, bits: seq<bool>)
    requires Covers(blocks, cuts, S, end) && Ends(blocks) && StreamBits(fixed, blocks) <= bits
    ensures end <= |S|
    ensures var p := Decode(bits, 0, []);
      p.Some? && p.value.out == S[..end] && p.value.end + PadTo8(p.value.end) == |StreamBits(fixed, blocks)|
  {
    hide BlockCovers, Decode, SinceMark;
    DecodesFrom(fixed, blocks, cuts, S, end, bits, 0);
    assert blocks[..0] == [] && StreamBits(fixed, []) == [];
    assert S[..0] == [];
  }

  /** What has been sent of a stream not yet complete is decoded to the input it covers. */
  lemma SoFarDecodes(fixed: bool, blocks: seq<Block>, cuts: Cuts, S: seq<byte>, end: nat)
    requires Covers(blocks, cuts, S, end) && forall k :: 0 <= k < |blocks| ==> !blocks[k].last
    ensures end <= |S| && DecodeSoFar(StreamBits(fixed, blocks), 0, []) == Some(S[..end])
  {
    hide BlockCovers, DecodeSoFar, SinceMark;
    SoFarFrom(fixed, blocks, cuts, S, end, 0);
    assert blocks[..0] == [] && StreamBits(fixed, []) == [];
    assert S[..0] == [];
  }

  /** What follows a mark is decoded by itself, without anything of what came before. */
  lemma MarkDecodes(fixed: bool, blocks: seq<Block>, cuts: Cuts, S: seq<byte>, end: nat, m: FlushPoint, bits: seq<bool>)
    requires Covers(blocks, cuts, S, end) && Ends(blocks) && m in cuts.marks && m.index < |blocks|
    requires MarksPlaced(fixed, blocks, cuts.marks) && StreamBits(fixed, blocks) <= bits
    ensures m.at <= end <= |S| && 8 * m.bytes <= |bits|
    ensures var p := Decode(bits[8 * m.bytes..], 0, []);
      && p.Some? && p.value.out == S[m.at..end]
      && 8 * m.bytes + p.value.end + PadTo8(p.value.end) == |StreamBits(fixed, blocks)|
  {
    hide BlockCovers, Decode, SinceMark, StreamBits, Covers, PadTo8;
    CoversWithin(blocks, cuts, S, end);
    var cs := CoversFromMark(blocks, cuts, S, end, m);
    var a, b := blocks[..m.index], blocks[m.index..];
    assert a + b == blocks;
    StreamApart(fixed, a, b);
    PrefixAfter(StreamBits(fixed, a), StreamBits(fixed, b), bits);
    StreamDecodes(fixed, b, cs, S[m.at..], end - m.at, bits[8 * m.bytes..]);
    assert S[m.at..][..end - m.at] == S[m.at..end];
  }

  lemma PrefixAfter(a: seq<bool>, b: seq<bool>, bits: seq<bool>)
    requires a + b <= bits
    ensures |a| <= |bits| && b <= bits[|a|..]
  {
    assert bits[|a|..][..|b|] == (a + b)[|a|..];
  }
}
