/** The compressed data as a stream of bits: the blocks one after the other, each placed at the bit
    position where the previous one ended, and what part of the input they cover. */
module BlockStream {
  import opened Bits
  import opened Lz77
  import opened Pending
  import opened BlockTrees

  /** The bits of a block. After the last one the output is aligned to a byte boundary. */
  ghost function BlockBits(fixed: bool, b: Block, at: nat): seq<bool> {
    match b.form
    case Tallied => SymbolBlockBits(fixed, b, at)
    case Stored => if b.verbatim.Some? then StoredBits(at, b.verbatim.value, b.last) else []
    case Empty => [b.last, true, false] + Zeros(7)
  }

  /** The bits of a block of symbols, in the form chosen for it. */
  ghost function ChosenBits(fixed: bool, b: Block, at: nat): seq<bool> {
    if InReach(b.syms) && Usable(b.trees, b.syms) then TreeBits(b.trees, fixed, b, at) else []
  }

  ghost function SymbolBlockBits(fixed: bool, b: Block, at: nat): seq<bool> {
    var bits := ChosenBits(fixed, b, at);
    bits + Padding(b.last, at + |bits|)
  }

  /** Zeros up to a byte boundary after the last block. */
  function Padding(last: bool, at: nat): seq<bool> {
    if last then Zeros(PadTo8(at)) else []
  }

  ghost function StreamBits(fixed: bool, blocks: seq<Block>): seq<bool> {
    if |blocks| == 0 then []
    else
      var before := StreamBits(fixed, blocks[..|blocks| - 1]);
      before + BlockBits(fixed, blocks[|blocks| - 1], |before|)
  }

  lemma StreamMore(fixed: bool, blocks: seq<Block>, b: Block)
    ensures StreamBits(fixed, blocks + [b])
        == StreamBits(fixed, blocks) + BlockBits(fixed, b, |StreamBits(fixed, blocks)|)
  {
    assert (blocks + [b])[..|blocks|] == blocks;
  }

  /** A stream that ends with its last block ends at a byte boundary. */
  lemma StreamAligned(fixed: bool, blocks: seq<Block>)
    requires |blocks| > 0 && blocks[|blocks| - 1].last && blocks[|blocks| - 1].form != Empty
    requires blocks[|blocks| - 1].form == Stored ==> blocks[|blocks| - 1].verbatim.Some?
    ensures |StreamBits(fixed, blocks)| % 8 == 0
  {
    hide StreamBits, BlockBits;
    var n := |blocks| - 1;
    assert blocks[..n] + [blocks[n]] == blocks;
    StreamMore(fixed, blocks[..n], blocks[n]);
    LastAligned(fixed, blocks[n], |StreamBits(fixed, blocks[..n])|);
  }

  lemma LastAligned(fixed: bool, b: Block, at: nat)
    requires b.last && b.form != Empty && (b.form == Stored ==> b.verbatim.Some?)
    ensures (at + |BlockBits(fixed, b, at)|) % 8 == 0
  {
    hide StoredHead, StoredBits, Zeros, LowBits, ByteBits, TreeBits, Usable, InReach, PadTo8;
    if b.form == Stored {
      StoredAligned(at, b.verbatim.value, true);
    } else {
      PaddingAligns(at);
      PaddingAligns(at + |ChosenBits(fixed, b, at)|);
    }
  }

  lemma PaddingAligns(at: nat)
    ensures (at + |Padding(true, at)|) % 8 == 0
  {
  }

  lemma StoredAligned(at: nat, data: seq<byte>, last: bool)
    ensures (at + |StoredBits(at, data, last)|) % 8 == 0
  {
    hide PadTo8, StoredHead, Zeros, LowBits, ByteBits;
    HeadAligned(at, |data| % 0x1_0000, last);
    EightMore(at + |StoredHead(at, |data| % 0x1_0000, last)|, |data|);
  }

  lemma EightMore(a: nat, n: nat)
    requires a % 8 == 0
    ensures (a + 8 * n) % 8 == 0
  {
  }

  lemma HeadAligned(at: nat, len: nat, last: bool)
    requires len < 0x1_0000
    ensures (at + |StoredHead(at, len, last)|) % 8 == 0
  {
    hide LowBits, Zeros, PadTo8;
    assert |StoredHead(at, len, last)| == 3 + PadTo8(at + 3) + 32;
  }

  // What the blocks cover.

  /** The block takes the decoder from S[..from] to S[..to] in either form. Its symbols have usable trees;
      if it can be stored, its length fits the sixteen bits there are for it. */
  ghost predicate BlockCovers(b: Block, S: seq<byte>, from: nat, to: nat) {
    && from <= to <= |S|
    && (b.form == Tallied ==> Expand(S[..from], b.syms) == Some(S[..to]) && InReach(b.syms) && Usable(b.trees, b.syms))
    && (b.form == Stored ==> b.verbatim.Some?)
    && (b.form == Empty ==> from == to && !b.last)
    && b.storedLen == to - from
    && (b.verbatim.Some? ==> b.verbatim.value == S[from..to] && to - from < 0x1_0000)
  }

  /** A place where the compressor forgot what came before: the number of blocks there were, of bytes of
      input in them, and of bytes they were sent in. */
  datatype FlushPoint = FlushPoint(index: nat, at: nat, bytes: nat)

  /** Where the blocks end in the input, and the marks; the first is the start of the stream. */
  datatype Cuts = Cuts(ends: seq<nat>, marks: seq<FlushPoint>)

  const NO_CUTS := Cuts([0], [FlushPoint(0, 0, 0)])

  function CutAt(cuts: Cuts, end: nat): Cuts {
    cuts.(ends := cuts.ends + [end])
  }

  /** Data before this place is not referred to any more. */
  function Fresh(cuts: Cuts): nat {
    if |cuts.marks| > 0 then cuts.marks[|cuts.marks| - 1].at else 0
  }

  /** The symbols take a decoder that knows only the input from `since` on from `from` to `to`. */
  ghost predicate SymsCover(syms: seq<Sym>, S: seq<byte>, since: nat, from: nat, to: nat) {
    since <= from <= to <= |S| && Expand(S[since..from], syms) == Some(S[since..to])
  }

  /** The blocks since a mark do not refer to anything before it. */
  ghost predicate SinceMark(blocks: seq<Block>, ends: seq<nat>, S: seq<byte>, m: FlushPoint)
    requires |ends| == |blocks| + 1
  {
    forall i :: m.index <= i < |blocks| ==>
      blocks[i].form == Tallied ==> SymsCover(blocks[i].syms, S, m.at, ends[i], ends[i + 1])
  }

  ghost predicate GoodMark(blocks: seq<Block>, cuts: Cuts, S: seq<byte>, end: nat, m: FlushPoint)
    requires |cuts.ends| == |blocks| + 1
  {
    && m.index <= |blocks| && m.at == cuts.ends[m.index] <= Fresh(cuts) <= end
    && SinceMark(blocks, cuts.ends, S, m) && forall i :: 0 <= i < m.index ==> !blocks[i].last
  }

  /** The blocks cover S[..end], cut at the given places. */
  ghost predicate Covers(blocks: seq<Block>, cuts: Cuts, S: seq<byte>, end: nat) {
    && |cuts.ends| == |blocks| + 1 && cuts.ends[0] == 0 && cuts.ends[|blocks|] == end <= |S| && |cuts.marks| > 0
    && (forall i :: 0 <= i < |blocks| ==> BlockCovers(blocks[i], S, cuts.ends[i], cuts.ends[i + 1]))
    && forall m :: m in cuts.marks ==> GoodMark(blocks, cuts, S, end, m)
  }

  lemma CoversWithin(blocks: seq<Block>, cuts: Cuts, S: seq<byte>, end: nat)
    requires Covers(blocks, cuts, S, end)
    ensures end <= |S| && Fresh(cuts) <= end && |cuts.ends| == |blocks| + 1 && cuts.ends[|blocks|] == end
  {
    assert cuts.marks[|cuts.marks| - 1] in cuts.marks;
  }

  lemma NothingCovered(S: seq<byte>)
    ensures Covers([], NO_CUTS, S, 0) && Fresh(NO_CUTS) == 0
  {
  }

  /** Reading more input does not disturb what is already covered. */
  lemma CoversMore(blocks: seq<Block>, cuts: Cuts, S: seq<byte>, T: seq<byte>, end: nat)
    requires Covers(blocks, cuts, S, end)
    ensures Covers(blocks, cuts, S + T, end)
  {
    hide BlockCovers, SymsCover;
    forall i | 0 <= i < |blocks|
      ensures BlockCovers(blocks[i], S + T, cuts.ends[i], cuts.ends[i + 1])
    {
      BlockCoversMore(blocks[i], S, T, cuts.ends[i], cuts.ends[i + 1]);
    }
    forall m, i | m in cuts.marks && m.index <= i < |blocks| && blocks[i].form == Tallied
      ensures SymsCover(blocks[i].syms, S + T, m.at, cuts.ends[i], cuts.ends[i + 1])
    {
      SymsCoverMore(blocks[i].syms, S, T, m.at, cuts.ends[i], cuts.ends[i + 1]);
    }
  }

  lemma BlockCoversMore(b: Block, S: seq<byte>, T: seq<byte>, from: nat, to: nat)
    requires BlockCovers(b, S, from, to)
    ensures BlockCovers(b, S + T, from, to)
  {
    hide Expand, Usable;
    assert (S + T)[..from] == S[..from] && (S + T)[..to] == S[..to] && (S + T)[from..to] == S[from..to];
  }

  lemma SymsCoverMore(syms: seq<Sym>, S: seq<byte>, T: seq<byte>, since: nat, from: nat, to: nat)
    requires SymsCover(syms, S, since, from, to)
    ensures SymsCover(syms, S + T, since, from, to)
  {
    hide Expand;
    assert (S + T)[since..from] == S[since..from] && (S + T)[since..to] == S[since..to];
  }

  /** Knowing more of the input does no harm. */
  lemma SymsCoverSince(syms: seq<Sym>, S: seq<byte>, since: nat, from: nat, to: nat, earlier: nat)
    requires SymsCover(syms, S, since, from, to) && earlier <= since
    ensures SymsCover(syms, S, earlier, from, to)
  {
    hide Expand;
    ExpandMore(S[earlier..since], S[since..from], syms);
    assert S[earlier..since] + S[since..from] == S[earlier..from] && S[earlier..since] + S[since..to] == S[earlier..to];
  }

  lemma SymsLiteral(syms: seq<Sym>, S: seq<byte>, since: nat, from: nat, p: nat)
    requires SymsCover(syms, S, since, from, p) && p < |S|
    ensures SymsCover(syms + [Sym(0, S[p])], S, since, from, p + 1)
  {
    hide Expand;
    var T := S[since..];
    assert T[..p - since] == S[since..p] && T[..p + 1 - since] == S[since..p + 1];
    ExpandLiteral(S[since..from], syms, T, p - since);
  }

  lemma SymsMatch(syms: seq<Sym>, S: seq<byte>, since: nat, from: nat, p: nat, dist: nat, len: nat)
    requires SymsCover(syms, S, since, from, p) && MIN_MATCH <= len <= MAX_MATCH && Repeats(S, p, dist, len)
    requires since + dist <= p
    ensures SymsCover(syms + [Sym(dist, len - MIN_MATCH)], S, since, from, p + len)
  {
    hide Expand;
    var T := S[since..];
    assert T[..p - since] == S[since..p] && T[..p + len - since] == S[since..p + len];
    forall i {:trigger T[i]} | p - since <= i < p - since + len ensures T[i] == T[i - dist] {
      assert S[since + i] == S[since + i - dist];
    }
    ExpandMatch(S[since..from], syms, T, p - since, dist, len);
  }

  lemma NoSyms(S: seq<byte>, since: nat, from: nat, to: nat)
    requires since <= from <= |S|
    ensures SymsCover([], S, since, from, to) <==> from == to
  {
    if since <= to <= |S| {
      assert |S[since..from]| == from - since && |S[since..to]| == to - since;
    }
  }

  lemma FromStart(syms: seq<Sym>, S: seq<byte>, from: nat, to: nat)
    requires SymsCover(syms, S, 0, from, to)
    ensures Expand(S[..from], syms) == Some(S[..to])
  {
    assert S[0..from] == S[..from] && S[0..to] == S[..to];
  }

  lemma SinceStart(syms: seq<Sym>, S: seq<byte>, from: nat, to: nat)
    requires from <= to <= |S| && Expand(S[..from], syms) == Some(S[..to])
    ensures SymsCover(syms, S, 0, from, to)
  {
    assert S[0..from] == S[..from] && S[0..to] == S[..to];
  }

  lemma CoversAppend(blocks: seq<Block>, cuts: Cuts, S: seq<byte>, from: nat, b: Block, to: nat)
    requires Covers(blocks, cuts, S, from) && BlockCovers(b, S, from, to)
    requires b.form == Tallied ==> SymsCover(b.syms, S, Fresh(cuts), from, to)
    ensures Covers(blocks + [b], CutAt(cuts, to), S, to) && Fresh(CutAt(cuts, to)) == Fresh(cuts)
  {
    hide Expand, Usable, SymsCover;
    var bs, cs := blocks + [b], CutAt(cuts, to);
    forall i | 0 <= i < |bs|
      ensures BlockCovers(bs[i], S, cs.ends[i], cs.ends[i + 1])
    {
      if i < |blocks| {
        assert BlockCovers(blocks[i], S, cuts.ends[i], cuts.ends[i + 1]);
      }
    }
    forall m | m in cs.marks ensures GoodMark(bs, cs, S, to, m) {
      MarkStays(blocks, cuts, S, from, b, to, m);
    }
  }

  lemma MarkStays(blocks: seq<Block>, cuts: Cuts, S: seq<byte>, from: nat, b: Block, to: nat, m: FlushPoint)
    requires |cuts.ends| == |blocks| + 1 && cuts.ends[|blocks|] == from <= to && GoodMark(blocks, cuts, S, from, m)
    requires b.form == Tallied ==> SymsCover(b.syms, S, Fresh(cuts), from, to)
    ensures GoodMark(blocks + [b], CutAt(cuts, to), S, to, m)
  {
    hide SymsCover;
    var bs, ends := blocks + [b], CutAt(cuts, to).ends;
    forall i | m.index <= i < |bs| && bs[i].form == Tallied
      ensures SymsCover(bs[i].syms, S, m.at, ends[i], ends[i + 1])
    {
      if i == |blocks| {
        SymsCoverSince(b.syms, S, Fresh(cuts), from, to, m.at);
      }
    }
  }

  /** A mark where everything covered so far is to be forgotten. */
  lemma CoversMark(blocks: seq<Block>, cuts: Cuts, S: seq<byte>, end: nat, bytes: nat)
    requires Covers(blocks, cuts, S, end) && forall i :: 0 <= i < |blocks| ==> !blocks[i].last
    ensures var m := FlushPoint(|blocks|, end, bytes); var cs := cuts.(marks := cuts.marks + [m]);
      Covers(blocks, cs, S, end) && Fresh(cs) == end
  {
    hide BlockCovers;
    CoversWithin(blocks, cuts, S, end);
  }

  /** The empty block of a flush adds nothing to what is covered. */
  lemma WithoutMarker(blocks: seq<Block>, cuts: Cuts, S: seq<byte>) returns (cs: Cuts)
    requires Covers(blocks, cuts, S, |S|) && |blocks| > 0 && blocks[|blocks| - 1].form == Empty
    ensures Covers(blocks[..|blocks| - 1], cs, S, |S|)
  {
    hide SymsCover;
    var n := |blocks| - 1;
    assert BlockCovers(blocks[n], S, cuts.ends[n], cuts.ends[n + 1]);
    var bs := blocks[..n];
    cs := Cuts(cuts.ends[..n + 1], NO_CUTS.marks);
    forall i | 0 <= i < n
      ensures BlockCovers(bs[i], S, cs.ends[i], cs.ends[i + 1])
      ensures bs[i].form == Tallied ==> SymsCover(bs[i].syms, S, 0, cs.ends[i], cs.ends[i + 1])
    {
      assert BlockCovers(blocks[i], S, cuts.ends[i], cuts.ends[i + 1]);
      if bs[i].form == Tallied {
        SinceStart(bs[i].syms, S, cs.ends[i], cs.ends[i + 1]);
      }
    }
  }

  /** The blocks before each mark were sent in so many bytes. */
  ghost predicate MarksPlaced(fixed: bool, blocks: seq<Block>, marks: seq<FlushPoint>) {
    forall m :: m in marks ==> m.index <= |blocks| && |StreamBits(fixed, blocks[..m.index])| == 8 * m.bytes
  }

  lemma NothingPlaced(fixed: bool)
    ensures MarksPlaced(fixed, [], NO_CUTS.marks) && StreamBits(fixed, []) == []
  {
  }

  lemma MarksStayPlaced(fixed: bool, blocks: seq<Block>, marks: seq<FlushPoint>, b: Block)
    requires MarksPlaced(fixed, blocks, marks)
    ensures MarksPlaced(fixed, blocks + [b], marks)
  {
    hide StreamBits;
    forall m | m in marks ensures (blocks + [b])[..m.index] == blocks[..m.index] {
    }
  }

  lemma MarkPlaced(fixed: bool, blocks: seq<Block>, marks: seq<FlushPoint>, at: nat, bytes: nat)
    requires MarksPlaced(fixed, blocks, marks) && |StreamBits(fixed, blocks)| == 8 * bytes
    ensures MarksPlaced(fixed, blocks, marks + [FlushPoint(|blocks|, at, bytes)])
  {
    hide StreamBits;
    assert blocks[..|blocks|] == blocks;
  }

  // What follows a mark is a stream of its own.

  lemma {:induction false} EndsAscend(blocks: seq<Block>, cuts: Cuts, S: seq<byte>, end: nat, i: nat, j: nat)
    requires Covers(blocks, cuts, S, end) && i <= j <= |blocks|
    ensures cuts.ends[i] <= cuts.ends[j] <= end
    decreases |blocks| - i
  {
    hide SinceMark;
    if i < |blocks| {
      assert BlockCovers(blocks[i], S, cuts.ends[i], cuts.ends[i + 1]);
      EndsAscend(blocks, cuts, S, end, i + 1, if j > i then j else i + 1);
    }
  }

  /** The blocks from a mark on cover the rest of the input, by themselves. */
  lemma CoversFromMark(blocks: seq<Block>, cuts: Cuts, S: seq<byte>, end: nat, m: FlushPoint) returns (cs: Cuts)
    requires Covers(blocks, cuts, S, end) && m in cuts.marks
    ensures m.at <= end && m.index <= |blocks| && Covers(blocks[m.index..], cs, S[m.at..], end - m.at)
  {
    hide SymsCover, BlockCovers;
    EndsAscend(blocks, cuts, S, end, m.index, m.index);
    var bs := blocks[m.index..];
    var ends := seq(|bs| + 1, i requires 0 <= i <= |bs| =>
      if cuts.ends[m.index + i] >= m.at then cuts.ends[m.index + i] - m.at else 0);
    cs := Cuts(ends, [FlushPoint(0, 0, 0)]);
    forall i | 0 <= i < |bs|
      ensures BlockCovers(bs[i], S[m.at..], ends[i], ends[i + 1])
      ensures bs[i].form == Tallied ==> SymsCover(bs[i].syms, S[m.at..], 0, ends[i], ends[i + 1])
    {
      var k := m.index + i;
      EndsAscend(blocks, cuts, S, end, m.index, k);
      EndsAscend(blocks, cuts, S, end, k, k + 1);
      assert BlockCovers(blocks[k], S, cuts.ends[k], cuts.ends[k + 1]);
      CoversLater(blocks[k], S, cuts.ends[k], cuts.ends[k + 1], m.at);
    }
    EndsAscend(blocks, cuts, S, end, m.index, |blocks|);
    assert Covers(bs, cs, S[m.at..], end - m.at);
  }

  lemma CoversLater(b: Block, S: seq<byte>, from: nat, to: nat, since: nat)
    requires BlockCovers(b, S, from, to) && since <= from
    requires b.form == Tallied ==> SymsCover(b.syms, S, since, from, to)
    ensures BlockCovers(b, S[since..], from - since, to - since)
    ensures b.form == Tallied ==> SymsCover(b.syms, S[since..], 0, from - since, to - since)
  {
    hide Expand, Usable;
    var T := S[since..];
    assert T[..from - since] == S[since..from] && T[..to - since] == S[since..to];
    assert T[0..from - since] == S[since..from] && T[0..to - since] == S[since..to];
    assert T[from - since..to - since] == S[from..to];
  }

  /** Whatever form is chosen for each block, the decoder reproduces the input covered. */
  lemma CoveredInflates(blocks: seq<Block>, stored: seq<bool>, cuts: Cuts, S: seq<byte>, end: nat)
    requires |blocks| == |stored| && Covers(blocks, cuts, S, end)
    ensures Inflate(blocks, stored) == Some(S[..end])
  {
    hide SinceMark, BlockCovers;
    InflatesTo(blocks, stored, cuts, S, end, |blocks|);
    assert blocks[..|blocks|] == blocks && stored[..|blocks|] == stored;
  }

  lemma {:induction false} InflatesTo(blocks: seq<Block>, stored: seq<bool>, cuts: Cuts, S: seq<byte>, end: nat, n: nat)
    requires |blocks| == |stored| && Covers(blocks, cuts, S, end) && n <= |blocks|
    ensures cuts.ends[n] <= |S| && Inflate(blocks[..n], stored[..n]) == Some(S[..cuts.ends[n]])
    decreases n
  {
    hide SinceMark, Expand, Usable;
    if n > 0 {
      InflatesTo(blocks, stored, cuts, S, end, n - 1);
      assert blocks[..n][..n - 1] == blocks[..n - 1] && stored[..n][..n - 1] == stored[..n - 1];
      var from, to := cuts.ends[n - 1], cuts.ends[n];
      assert BlockCovers(blocks[n - 1], S, from, to);
      assert S[..from] + S[from..to] == S[..to];
    }
  }

  // Bits that start at a byte boundary.

  lemma BlockBitsAt(fixed: bool, b: Block, at: nat, at': nat)
    requires at % 8 == at' % 8
    ensures BlockBits(fixed, b, at) == BlockBits(fixed, b, at')
  {
    hide ChosenBits, StoredBits, Zeros, PadTo8;
    if b.verbatim.Some? {
      StoredBitsAt(at, at', b.verbatim.value, b.last);
    }
    ChosenBitsAt(fixed, b, at, at');
    var n := |ChosenBits(fixed, b, at)|;
    SamePad(at + n, at' + n);
  }

  lemma StoredBitsAt(at: nat, at': nat, data: seq<byte>, last: bool)
    requires at % 8 == at' % 8
    ensures StoredBits(at, data, last) == StoredBits(at', data, last)
  {
    hide LowBits, ByteBits, Zeros, PadTo8;
    SamePad(at + 3, at' + 3);
  }

  lemma ChosenBitsAt(fixed: bool, b: Block, at: nat, at': nat)
    requires at % 8 == at' % 8
    ensures ChosenBits(fixed, b, at) == ChosenBits(fixed, b, at')
  {
    hide Usable, InReach, FormOf, FixedBits, DynamicBits, StoredBits;
    if b.verbatim.Some? {
      StoredBitsAt(at, at', b.verbatim.value, b.last);
    }
  }

  lemma SamePad(a: nat, b: nat)
    requires a % 8 == b % 8
    ensures PadTo8(a) == PadTo8(b)
  {
  }

  lemma {:induction false} StreamApart(fixed: bool, a: seq<Block>, b: seq<Block>)
    requires |StreamBits(fixed, a)| % 8 == 0
    ensures StreamBits(fixed, a + b) == StreamBits(fixed, a) + StreamBits(fixed, b)
    decreases |b|
  {
    hide BlockBits;
    if b == [] {
      assert a + b == a;
    } else {
      var n := |b| - 1;
      StreamApart(fixed, a, b[..n]);
      assert (a + b)[..|a + b| - 1] == a + b[..n];
      BlockBitsAt(fixed, b[n], |StreamBits(fixed, a + b[..n])|, |StreamBits(fixed, b[..n])|);
    }
  }
}
