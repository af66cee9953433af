/** The five compressors behind one interface: what holds between their calls, whichever is used, and
    what deflate() does around them. */
module Compressors {
  import opened Bits
  import opened Lz77
  import opened Window
  import opened Pending
  import opened BlockStream
  import opened CheckValue
  import opened DeflateState
  import DeflateSlow
  import DeflateFast
  import DeflateRle
  import DeflateHuff
  import DeflateStored
  import BlockFlush

  datatype Method = Slow | Fast | Rle | Huff | Store

  /** A row of configuration_table: good_length, max_lazy, nice_length, max_chain and the compressor. */
  datatype Tuning = Tuning(good: nat, lazy: nat, nice: nat, chain: nat, func: Method)

  function TuningOf(level: nat): Tuning {
    match level
    case 0 => Tuning(0, 0, 0, 0, Store)
    case 1 => Tuning(4, 4, 8, 4, Fast)
    case 2 => Tuning(4, 5, 16, 8, Fast)
    case 3 => Tuning(4, 6, 32, 32, Fast)
    case 4 => Tuning(4, 4, 16, 16, Slow)
    case 5 => Tuning(8, 16, 32, 32, Slow)
    case 6 => Tuning(8, 16, 128, 128, Slow)
    case 7 => Tuning(8, 32, 128, 256, Slow)
    case 8 => Tuning(32, 128, 258, 1024, Slow)
    case _ => Tuning(32, 258, 258, 4096, Slow)
  }

  /** What the compressors require of a row; that only the first three levels take a match without looking at the
      next string; and that with the same compressor a higher level never looks for less. */
  lemma TuningGrows(a: nat, b: nat)
    requires 1 <= a <= b <= 9
    ensures var t := TuningOf(a); t.good >= 3 && t.lazy >= 3 && 3 <= t.nice <= 258 && 4 <= t.chain <= 4096
    ensures TuningOf(a).func == if a <= 3 then Fast else Slow
    ensures (a <= 3) == (b <= 3) ==> var t, u := TuningOf(a), TuningOf(b);
      t.good <= u.good && t.lazy <= u.lazy && t.nice <= u.nice && t.chain <= u.chain
    ensures TuningOf(9).nice == TuningOf(9).lazy == MAX_MATCH
  {
  }

  /** The compressor for a level and strategy. */
  function MethodOf(level: nat, strategy: nat): Method {
    if level == 0 then Store else if strategy == 2 then Huff else if strategy == 3 then Rle else TuningOf(level).func
  }

  /** Which compressor is used: level 0 stores, whatever the strategy; Z_HUFFMAN_ONLY and Z_RLE have one of their own;
      all others search, from level 4 on lazily. */
  lemma MethodsApart(level: nat, strategy: nat)
    ensures var m := MethodOf(level, strategy);
      && (m == Store <==> level == 0) && (m == Huff <==> level > 0 && strategy == 2)
      && (m == Rle <==> level > 0 && strategy == 3)
      && (m == Slow <==> level > 3 && strategy != 2 && strategy != 3)
  {
  }

  predicate Searches(m: Method) {
    m == Slow || m == Fast
  }

  ghost predicate ReadyFor(m: Method, s: State)
    reads s, s.window, s.head, s.prev, s.out, s.out.buf
  {
    match m
    case Slow => DeflateSlow.Ready(s)
    case Fast => DeflateFast.Ready(s)
    case Rle => DeflateRle.Ready(s) && s.reach >= 1
    case Huff => DeflateHuff.Ready(s)
    case Store => DeflateStored.Ready(s)
  }

  /** A stream just reset is ready for any of them. */
  lemma InitialReady(m: Method, s: State)
    requires s.Initial() && s.Sent() && s.Checked() && (Searches(m) ==> Tuned(s)) && (m == Rle ==> s.reach >= 1)
    requires s.stores <==> m == Store
    ensures ReadyFor(m, s)
  {
    hide Chains, Pow2, StreamBits, CheckFrom, BlockFlush.Fits, Covers, SymsCover;
    NothingCovered(s.S);
    NoSyms(s.S, 0, 0, 0);
  }

  /** What they have in common. */
  ghost predicate Common(m: Method, s: State)
    reads s, s.out, s.out.buf
  {
    && s.Shape() && s.Sent() && s.Checked() && s.NotLast() && s.base + s.blockStart >= 0
    && Covers(s.blocks, s.cuts, s.S, s.base + s.blockStart)
    && (s.stores <==> m == Store) && s.AllGood(s.blocks) && (m == Rle ==> s.reach >= 1)
  }

  lemma ReadyParts(m: Method, s: State)
    requires ReadyFor(m, s)
    ensures Common(m, s)
  {
    hide Chains, Pow2, StreamBits, CheckFrom, BlockFlush.Fits, Covers, WindowHolds, Output.Rest;
  }

  /** The rest of it: the window, the tables and the symbols not yet in a block, which refer to nothing
      before `since`. */
  ghost predicate Side(m: Method, s: State, since: nat)
    reads s`strstart, s`lookahead, s`S, s`base, s`matchStart, s`absMatch, s`written, s`highWater, s`ins, s`top
    reads s`insert, s`insH
    reads s`blockStart, s`syms, s`matchAvailable, s`matchLength, s`prevLength, s.window, s.head, s.prev
  {
    match m
    case Slow =>
      && Tuned(s) && s.Filled() && s.Chained() && s.Rolling() && (s.matchAvailable ==> s.strstart >= 1)
      && Tallying(s, since, s.base + s.strstart - DeflateSlow.Held(s)) && 2 <= s.matchLength <= MAX_MATCH
      && (s.matchLength >= MIN_MATCH ==> DeflateSlow.HeldMatch(s) && since <= s.absMatch)
    case Fast =>
      && Tuned(s) && s.Filled() && s.Chained() && s.Rolling() && Tallying(s, since, s.base + s.strstart)
      && s.matchLength < MIN_MATCH && s.prevLength == MIN_MATCH - 1
    case Rle => s.Filled() && s.Chained() && s.insert == 0 && Tallying(s, since, s.base + s.strstart)
    case Huff =>
      && s.Filled() && s.Chained() && s.insert == 0 && Tallying(s, since, s.base + s.strstart)
      && s.strstart - s.blockStart == |s.syms|
    case Store =>
      && s.syms == [] && s.lookahead == 0 && 0 <= s.blockStart <= s.strstart
      && |s.S| == s.base + s.strstart && DeflateStored.WindowHas(s.window, s.S, s.base, s.strstart)
      && s.insert <= s.strstart && s.insert <= s.wSize && s.highWater <= s.written
      && s.strstart <= s.written <= 2 * s.wSize
  }

  /** The symbols since the last block stand for the stream up to `done`. */
  ghost predicate Tallying(s: State, since: nat, done: int)
    reads s`base, s`blockStart, s`S, s`syms
  {
    && 0 <= s.base + s.blockStart <= done <= |s.S| && |s.syms| < s.symEnd && since <= s.base
    && SymsCover(s.syms, s.S, since, s.base + s.blockStart, done)
    && forall i :: 0 <= i < |s.syms| ==> s.GoodSym(s.syms[i])
  }

  lemma ReadySide(m: Method, s: State)
    requires ReadyFor(m, s)
    ensures Side(m, s, Fresh(s.cuts)) && Common(m, s)
  {
    hide State.Filled, State.Chained, State.Rolling, State.Checked, State.Sent, Covers, SymsCover;
    hide DeflateSlow.HeldMatch;
    hide DeflateStored.WindowHas;
    ReadyParts(m, s);
  }

  lemma SideReady(m: Method, s: State)
    requires Side(m, s, Fresh(s.cuts)) && Common(m, s)
    ensures ReadyFor(m, s)
  {
    hide State.Filled, State.Chained, State.Rolling, State.Checked, State.Sent, Covers, SymsCover;
    hide DeflateSlow.HeldMatch;
    hide DeflateStored.WindowHas;
  }

  /** Input handed over and output space offered for a call. */
  method Provide(m: Method, s: State, more: seq<byte>, avail: nat)
    requires ReadyFor(m, s)
    modifies s`input, s`given, s`room, s.out
    ensures ReadyFor(m, s) && s.input == old(s.input) + more && s.out.availOut == avail
    ensures s.given == s.out.delivered == old(s.out.delivered)
    ensures s.room == |s.given| + avail && s.out.pending == old(s.out.pending)
  {
    hide ReadyFor, Common, Side;
    ReadySide(m, s);
    Offer(m, s, more, avail);
    SideReady(m, s);
  }

  method Offer(m: Method, s: State, more: seq<byte>, avail: nat)
    requires Common(m, s)
    modifies s`input, s`given, s`room, s.out
    ensures unchanged(s.window, s.head, s.prev) && Common(m, s) && s.input == old(s.input) + more
    ensures s.out.availOut == avail && s.given == s.out.delivered == old(s.out.delivered)
    ensures s.room == |s.given| + avail && s.out.pending == old(s.out.pending)
  {
    hide Pow2, BlockFlush.Fits, Covers, StreamBits, Output.Rest, Output.BitStream, State.Checked, State.Shape;
    s.input := s.input + more;
    s.out.availOut := avail;
    s.given := s.out.delivered;
    s.room := |s.given| + avail;
  }

  /** flush_pending() between blocks. */
  method FlushOutput(m: Method, s: State)
    requires ReadyFor(m, s)
    modifies s.out, s.out.buf
    ensures s.out.availOut == old(if s.out.pending <= s.out.availOut then s.out.availOut - s.out.pending else 0)
    ensures s.out.pending == old(if s.out.pending <= s.out.availOut then 0 else s.out.pending - s.out.availOut)
    ensures ReadyFor(m, s) && s.out.Flushed()
    ensures (old(s.out.pendingOut == 0 && s.out.availOut == 0) ==> s.out.pendingOut == 0)
  {
    hide ReadyFor, Common, Side, Output.Flushed;
    ReadySide(m, s);
    FlushCommon(m, s);
    SideReady(m, s);
  }

  method FlushCommon(m: Method, s: State)
    requires Common(m, s)
    modifies s.out, s.out.buf
    ensures s.out.availOut == old(if s.out.pending <= s.out.availOut then s.out.availOut - s.out.pending else 0)
    ensures s.out.pending == old(if s.out.pending <= s.out.availOut then 0 else s.out.pending - s.out.availOut)
    ensures unchanged(s.window, s.head, s.prev) && Common(m, s) && s.out.Flushed()
    ensures (old(s.out.pendingOut == 0 && s.out.availOut == 0) ==> s.out.pendingOut == 0)
  {
    hide Pow2, BlockFlush.Fits, Covers, StreamBits;
    s.out.FlushPending();
  }

  /** How much there is left to do: to store, or to turn into symbols. */
  ghost function Work(m: Method, s: State): int
    reads s`S, s`input, s`base, s`blockStart, s`lookahead
  {
    if m == Store then DeflateStored.Unstored(s) else |s.input| + s.lookahead
  }

  lemma WorkLeft(m: Method, s: State)
    requires ReadyFor(m, s)
    ensures Work(m, s) >= 0
  {
    hide State.Chained, State.Sent, State.Checked, DeflateStored.WindowHas;
    if m == Store {
      ReadyParts(m, s);
      CoversWithin(s.blocks, s.cuts, s.S, s.base + s.blockStart);
    }
  }

  /** One call of the compressor. */
  method Compress(m: Method, s: State, flush: Flush) returns (r: BlockState)
    requires ReadyFor(m, s) && s.out.Clear()
    modifies s, s.window, s.head, s.prev, s.out, s.out.buf
    ensures s.lead == old(s.lead) && s.given == old(s.given) && s.room == old(s.room)
    ensures s.cuts.marks == old(s.cuts.marks)
    ensures s.S + s.input == old(s.S + s.input) && old(s.S) <= s.S
    ensures r == NeedMore ==> ReadyFor(m, s)
    ensures r == BlockDone ==>
      ReadyFor(m, s) && s.input == [] && AllInBlocks(m, s) && s.out.Clear() && flush != NoFlush && flush != Finish
    ensures r == FinishStarted || r == FinishDone ==>
      s.Finished() && s.input == [] && s.lookahead == 0 && s.Sent() && s.Checked() && flush == Finish
    ensures r == FinishDone ==> s.out.Clear()
    ensures r == NeedMore ==> s.out.availOut == 0 || (s.input == [] && flush == NoFlush)
    ensures r == NeedMore && flush == Finish ==> Work(m, s) < old(Work(m, s))
    ensures r == FinishStarted ==> s.out.availOut == 0
  {
    hide State.AllGood, DeflateSlow.Ready, DeflateFast.Ready, DeflateRle.Ready, DeflateStored.Ready;
    hide AllInBlocks;
    hide State.Finished, State.Sent, State.Checked, Output.Clear;
    match m {
      case Slow => r := DeflateSlow.Compress(s, flush);
      case Fast => r := DeflateFast.Compress(s, flush);
      case Rle => r := DeflateRle.Compress(s, flush);
      case Huff => r := DeflateHuff.Compress(s, flush);
      case Store => r := DeflateStored.Compress(s, flush);
    }
    if r == BlockDone {
      NothingHeld(m, s);
    }
  }

  lemma NothingHeld(m: Method, s: State)
    requires ReadyFor(m, s)
    requires if m == Store then s.blockStart == s.strstart
        else s.syms == [] && s.lookahead == 0 && (m == Slow ==> !s.matchAvailable)
    ensures AllInBlocks(m, s)
  {
    hide State.Chained, State.Rolling, State.Checked, State.Sent, Covers, DeflateStored.WindowHas, WindowHolds;
    hide SymsCover;
    if m != Store {
      assert s.Emitted(s.base + s.strstart);
      CoversWithin(s.blocks, s.cuts, s.S, s.base + s.blockStart);
      NoSyms(s.S, Fresh(s.cuts), s.base + s.blockStart, s.base + s.strstart);
      assert s.Filled();
    } else {
      assert DeflateStored.Direct(s, 0);
    }
  }

  /** All input read is in blocks, and nothing is held back. */
  ghost predicate AllInBlocks(m: Method, s: State)
    reads s`base, s`blockStart, s`S, s`syms, s`lookahead, s`matchAvailable
  {
    s.base + s.blockStart == |s.S| && s.syms == [] && s.lookahead == 0 && (m == Slow ==> !s.matchAvailable)
  }

  function Marker(align: bool): Block {
    if align then Block(Empty, [], None, 0, false, NO_TREES) else Block(Stored, [], Some([]), 0, false, NO_TREES)
  }

  /** The empty block that a flush ends with: _tr_align() for a partial flush, else an empty stored block. */
  method Mark(m: Method, s: State, flush: Flush)
    requires ReadyFor(m, s) && s.out.Clear() && AllInBlocks(m, s)
    modifies s`blocks, s`cuts, s.out, s.out.buf
    ensures ReadyFor(m, s) && AllInBlocks(m, s) && s.out.pendingOut == 0
    ensures s.blocks == old(s.blocks) + [Marker(flush == PartialFlush)] && s.cuts.marks == old(s.cuts.marks)
  {
    hide ReadyFor, Common, Side, Output.Clear, AllInBlocks;
    ReadySide(m, s);
    MarkCommon(m, s, flush == PartialFlush);
    SideReady(m, s);
  }

  method MarkCommon(m: Method, s: State, align: bool)
    requires Common(m, s) && s.out.Clear()
    modifies s`blocks, s`cuts, s.out, s.out.buf
    ensures Common(m, s) && unchanged(s.window, s.head, s.prev) && s.out.pendingOut == 0
    ensures s.blocks == old(s.blocks) + [Marker(align)] && s.cuts.marks == old(s.cuts.marks)
  {
    hide Pow2, BlockFlush.Fits, Covers, StreamBits, BlockBits, LowBits, ByteBits, CheckFrom, MarksPlaced;
    var b := Marker(align);
    ghost var at := s.base + s.blockStart;
    CoversWithin(s.blocks, s.cuts, s.S, at);
    EmptyCovers(b, s.S, at);
    CoversAppend(s.blocks, s.cuts, s.S, at, b, at);
    StreamMore(s.kit.fixed, s.blocks, b);
    MarksStayPlaced(s.kit.fixed, s.blocks, s.cuts.marks, b);
    SendMarker(s, b);
    s.cuts := CutAt(s.cuts, at);
    s.MoreGood(s.blocks, b);
    s.blocks := s.blocks + [b];
    NotLastMore(old(s.blocks), s.blocks);
  }

  lemma EmptyCovers(b: Block, S: seq<byte>, at: nat)
    requires at <= |S| && !b.last && b.storedLen == 0
    requires (b.form == Empty && b.verbatim == None) || (b.form == Stored && b.verbatim == Some([]))
    ensures BlockCovers(b, S, at, at)
  {
    assert S[at..at] == [];
  }

  method SendMarker(s: State, b: Block)
    requires s.Shape() && s.out.Clear() && !b.last
    requires b.form == Empty || (b.form == Stored && b.verbatim == Some([]))
    modifies s.out, s.out.buf
    ensures s.out.Rest() && s.out.pendingOut == 0 && s.out.Lead() == old(s.out.Lead())
    ensures s.out.delivered == old(s.out.delivered) && s.out.availOut == old(s.out.availOut)
    ensures s.out.BitStream() == old(s.out.BitStream()) + BlockBits(s.kit.fixed, b, |old(s.out.BitStream())|)
  {
    hide Pow2, BlockFlush.Fits, LowBits, Zeros, StoredHead, Output.BitStream;
    ghost var before := s.out.BitStream();
    if b.form == Empty {
      s.out.Align();
    } else {
      s.out.StoredBlock([], false);
      assert ByteBits([]) == [];
    }
    assert s.out.BitStream() == before + BlockBits(s.kit.fixed, b, |before|);
  }

  /** What a full flush does besides: no string is known any more, and the window starts afresh. What
      follows is marked as not referring to anything before. */
  method Forget(m: Method, s: State)
    requires ReadyFor(m, s) && AllInBlocks(m, s) && |StreamBits(s.kit.fixed, s.blocks)| % 8 == 0
    modifies s`strstart, s`blockStart, s`insert, s`base, s`absMatch, s`ins, s`top, s`cuts, s.head
    ensures ReadyFor(m, s) && AllInBlocks(m, s) && s.ins == {} && s.strstart == 0
    ensures s.cuts == old(s.cuts).(marks := old(s.cuts.marks) + [MarkNow(s)])
  {
    hide ReadyFor, Common, Side, AllInBlocks, MarkNow;
    ReadySide(m, s);
    ForgetSide(m, s);
    SideReady(m, s);
  }

  /** All that was read so far is in the blocks sent. */
  ghost function MarkNow(s: State): FlushPoint
    reads s`blocks, s`S
  {
    FlushPoint(|s.blocks|, |s.S|, |StreamBits(s.kit.fixed, s.blocks)| / 8)
  }

  method ForgetSide(m: Method, s: State)
    requires Side(m, s, Fresh(s.cuts)) && Common(m, s) && AllInBlocks(m, s)
    requires |StreamBits(s.kit.fixed, s.blocks)| % 8 == 0
    modifies s`strstart, s`blockStart, s`insert, s`base, s`absMatch, s`ins, s`top, s`cuts, s.head
    ensures Side(m, s, Fresh(s.cuts)) && Common(m, s) && AllInBlocks(m, s) && s.ins == {} && s.strstart == 0
    ensures s.cuts == old(s.cuts).(marks := old(s.cuts.marks) + [MarkNow(s)])
  {
    hide Pow2, BlockFlush.Fits, Covers, StreamBits, CheckFrom, Chains, Side, MarksPlaced, MarkNow;
    hide Output.Rest, Output.BitStream, State.Checked, State.AllGood;
    SideBounds(m, s);
    CoversMark(s.blocks, s.cuts, s.S, |s.S|, |StreamBits(s.kit.fixed, s.blocks)| / 8);
    MarkPlaced(s.kit.fixed, s.blocks, s.cuts.marks, |s.S|, |StreamBits(s.kit.fixed, s.blocks)| / 8);
    ClearHash(s.head, s.prev, s.c, s.S, |s.S|);
    Restart(s);
    FreshSide(m, s);
  }

  method Restart(s: State)
    requires s.lookahead == 0
    modifies s`strstart, s`blockStart, s`insert, s`base, s`absMatch, s`ins, s`top, s`cuts
    ensures s.base == |s.S| && s.strstart == 0 && s.blockStart == 0 && s.insert == 0
    ensures s.absMatch == s.base + s.matchStart && s.ins == {} && s.top == -1
    ensures s.cuts == old(s.cuts).(marks := old(s.cuts.marks) + [MarkNow(s)])
    ensures MarkNow(s) == FlushPoint(|s.blocks|, |s.S|, |StreamBits(s.kit.fixed, s.blocks)| / 8)
  {
    s.ins, s.top := {}, -1;
    s.cuts := s.cuts.(marks := s.cuts.marks + [MarkNow(s)]);
    if s.lookahead == 0 {
      s.strstart := 0;
      s.blockStart := 0;
      s.insert := 0;
      s.base, s.absMatch := |s.S|, |s.S| + s.matchStart;
    }
  }

  lemma SideBounds(m: Method, s: State)
    requires Side(m, s, Fresh(s.cuts))
    ensures s.highWater <= s.written <= 2 * s.wSize && (Searches(m) ==> Tuned(s))
    ensures m == Slow ==> 2 <= s.matchLength <= MAX_MATCH && (s.matchLength >= MIN_MATCH ==> s.matchAvailable)
    ensures m == Fast ==> s.matchLength < MIN_MATCH && s.prevLength == MIN_MATCH - 1
  {
  }

  lemma FreshSide(m: Method, s: State)
    requires s.Shape() && AllInBlocks(m, s) && s.base == |s.S| && s.strstart == 0 && s.blockStart == 0 && s.insert == 0
    requires s.absMatch == s.base + s.matchStart && s.highWater <= s.written <= 2 * s.wSize
    requires Chains(s.head[..], s.prev[..], s.c, s.S, s.base, {}, -1) && s.ins == {} && s.top == -1
    requires m == Slow ==> 2 <= s.matchLength <= MAX_MATCH && (s.matchLength >= MIN_MATCH ==> s.matchAvailable)
    requires m == Fast ==> s.matchLength < MIN_MATCH && s.prevLength == MIN_MATCH - 1
    requires Searches(m) ==> Tuned(s)
    ensures Side(m, s, s.base)
  {
    hide Pow2, BlockFlush.Fits, Chains, SymsCover, Wrap32;
    NoSyms(s.S, s.base, s.base, s.base);
    WrapSame(s.matchStart);
  }
}
