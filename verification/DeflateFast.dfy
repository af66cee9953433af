/** deflate_fast(): matches are taken as soon as they are found, and the strings inside a long match
    are not inserted in the dictionary. */
module DeflateFast {
  import opened Bits
  import opened Lz77
  import opened HashFn
  import opened Window
  import opened BlockStream
  import opened Pending
  import opened DeflateState
  import LM = LongestMatch
  import BlockFlush

  /** The state between steps: everything before the current string is emitted. */
  ghost predicate Ready(s: State)
    reads s, s.window, s.head, s.prev, s.out, s.out.buf
  {
    && s.Filled() && s.Chained() && s.Rolling() && Tuned(s)
    && s.Emitted(s.base + s.strstart) && |s.syms| < s.symEnd && s.NotLast() && s.Sent() && s.Checked()
    && s.matchLength < MIN_MATCH && s.prevLength == MIN_MATCH - 1
  }

  /** The search of a step. */
  method FindMatch(s: State, hashHead: Pos)
    requires s.Filled() && Inserted(s) && s.strstart + MIN_LOOKAHEAD <= 2 * s.wSize
    requires hashHead != NIL ==> ChainHead(s, hashHead)
    requires s.lookahead >= MIN_MATCH ==> s.base + s.strstart + 2 < |s.S| && LatestHere(s, hashHead)
    requires s.matchLength < MIN_MATCH && s.prevLength == MIN_MATCH - 1 && Tuned(s)
    modifies s`matchLength, s`matchStart, s`absMatch
    ensures s.Filled()
    ensures s.matchLength >= MIN_MATCH ==> MatchFound(s)
    ensures if hashHead != NIL && s.strstart - hashHead <= s.wSize - (MAX_MATCH + MIN_MATCH + 1) then
        LM.Found(s.matchLength, s.matchStart) == LM.Result(s.window[..], s.prev[..], s.strstart, s.lookahead, hashHead,
            old(s.matchStart), s.prevLength, s.maxChainLength, s.goodMatch, s.niceMatch)
      else s.matchLength == old(s.matchLength)
    ensures LookedFor(s, s.S, s.base, s.ins, s.base + s.strstart, s.matchLength)
  {
    hide Chains, Rolls, Pow2, HashAt, WindowHolds, Repeats, GoodConfig, BlockFlush.Fits, LM.Result, Latest;
    hide LM.NoneLonger, LM.NoneNearer;
    if hashHead != NIL && s.strstart - hashHead <= s.wSize - MIN_LOOKAHEAD {
      s.matchLength, s.matchStart := LM.LongestMatch(s.window, s.head, s.prev, s.strstart, s.lookahead, hashHead,
          s.matchStart, s.prevLength,
        s.maxChainLength, s.goodMatch, s.niceMatch, s.c, s.S, s.base, s.ins);
      s.absMatch := s.base + s.matchStart;
      if s.matchLength < Min(s.niceMatch, s.lookahead) || s.matchLength <= s.prevLength {
        LM.NoneLongerFrom(s.c, s.S, s.base, s.ins, s.base + s.strstart, s.base + hashHead,
          s.wSize - (MAX_MATCH + MIN_MATCH + 1), Budget(s, s.prevLength), s.matchLength, s.matchLength);
      }
    } else if s.lookahead >= MIN_MATCH {
      OutOfReach(s, hashHead, s.matchLength);
    }
  }

  /** What is found at p. */
  ghost predicate LookedFor(s: State, S: seq<byte>, base: nat, ins: set<nat>, p: nat, found: nat) {
    if |S| < p + MIN_MATCH then found < MIN_MATCH
    else Looked(s, S, base, ins, p, Budget(s, MIN_MATCH - 1), MIN_MATCH - 1, found)
  }

  lemma OutOfReach(s: State, hashHead: Pos, found: nat)
    requires s.Filled() && s.lookahead >= MIN_MATCH && s.base + s.strstart + 2 < |s.S| && LatestHere(s, hashHead)
    requires hashHead == NIL || s.strstart - hashHead > s.wSize - MIN_LOOKAHEAD
    ensures LookedFor(s, s.S, s.base, s.ins, s.base + s.strstart, found)
  {
    hide HashAt, LM.NoneLonger, WindowHolds, Latest, Pow2, GoodConfig, BlockFlush.Fits, Wrap32;
    LM.NoneInReach(hashHead, s.c, s.S, s.base, s.ins, s.base + s.strstart, s.wSize - (MAX_MATCH + MIN_MATCH + 1),
      Budget(s, MIN_MATCH - 1), if found < 2 then 2 else found);
  }

  ghost predicate MatchFound(s: State)
    reads s
  {
    && s.matchLength <= s.lookahead && s.matchStart < s.strstart && s.absMatch == s.base + s.matchStart
    && Match(s, s.base + s.strstart, s.absMatch, s.matchLength)
  }

  method InsertNext(s: State)
    requires s.Shape() && WindowHolds(s.window, s.S, s.base) && s.matchLength >= 1
    requires Chains(s.head[..], s.prev[..], s.c, s.S, s.base, s.ins, s.top) && JustInserted(s)
    requires s.base + s.strstart + 3 < |s.S| && s.strstart + 3 < 2 * s.wSize
    modifies s`strstart, s`matchLength, s`insH, s`ins, s`top, s.head, s.prev
    ensures Chains(s.head[..], s.prev[..], s.c, s.S, s.base, s.ins, s.top) && JustInserted(s)
    ensures s.strstart == old(s.strstart) + 1 && s.matchLength == old(s.matchLength) - 1
    ensures s.ins == old(s.ins) + {s.base + s.strstart}
  {
    hide Chains, Rolls, Pow2, HashAt, GoodConfig, WindowHolds, BlockFlush.Fits, Latest;
    s.strstart := s.strstart + 1;
    var _ := s.InsertString(s.strstart);
    s.matchLength := s.matchLength - 1;
  }

  /** Moving to the end of a short match by inserting all its strings. */
  method InsertMatch(s: State)
    requires s.Filled() && Inserted(s) && s.strstart + MIN_LOOKAHEAD <= 2 * s.wSize
    requires MIN_MATCH <= s.matchLength <= MAX_MATCH && s.matchLength + MIN_MATCH <= s.lookahead
    modifies s`lookahead, s`strstart, s`matchLength, s`insH, s`ins, s`top, s.head, s.prev
    ensures s.Filled() && s.Chained() && s.Rolling()
    ensures s.strstart == old(s.strstart + s.matchLength) && s.lookahead == old(s.lookahead - s.matchLength)
    ensures s.matchLength == 0 && GrownBy(old(s.ins), s.ins, s.base + old(s.strstart) + 1, s.base + s.strstart)
  {
    hide Chains, Rolls, Pow2, HashAt, GoodConfig, WindowHolds, Wrap32, BlockFlush.Fits, State.Sent, State.Checked;
    hide Output.Clear, Latest, GrownBy;
    ghost var from := s.base + s.strstart + 1;
    NotGrown(s.ins, from);
    s.lookahead := s.lookahead - s.matchLength;
    s.matchLength := s.matchLength - 1;
    while true
      invariant s.matchLength >= 1 && s.strstart + s.matchLength == old(s.strstart + s.matchLength) - 1
      invariant s.lookahead == old(s.lookahead - s.matchLength)
      invariant WindowHolds(s.window, s.S, s.base)
      invariant Chains(s.head[..], s.prev[..], s.c, s.S, s.base, s.ins, s.top) && JustInserted(s)
      invariant from <= s.base + s.strstart + 1 && GrownBy(old(s.ins), s.ins, from, s.base + s.strstart + 1)
      decreases s.matchLength
    {
      GrownByOne(old(s.ins), s.ins, from, s.base + s.strstart + 1);
      InsertNext(s);
      if s.matchLength == 0 {
        break;
      }
    }
    s.strstart := s.strstart + 1;
  }

  /** Moving to the end of a long match: the running hash starts afresh there. */
  method SkipMatch(s: State)
    requires s.Filled() && Inserted(s) && s.strstart + MIN_LOOKAHEAD <= 2 * s.wSize
    requires MIN_MATCH <= s.matchLength <= MAX_MATCH && s.matchLength <= s.lookahead
    modifies s`lookahead, s`strstart, s`matchLength, s`insH
    ensures s.Filled() && s.Chained() && s.Rolling()
    ensures s.strstart == old(s.strstart + s.matchLength) && s.lookahead == old(s.lookahead - s.matchLength)
    ensures s.matchLength == 0
  {
    hide Chains, Pow2, HashAt, GoodConfig, Wrap32, Rolls, BlockFlush.Fits;
    s.lookahead := s.lookahead - s.matchLength;
    s.strstart := s.strstart + s.matchLength;
    s.matchLength := 0;
    s.insH := UpdateHash(s.c, s.window[s.strstart], s.window[s.strstart + 1]);
    RollsFresh(s.c, s.window[s.strstart], s.window[s.strstart + 1]);
  }

  method EmitMatch(s: State) returns (bflush: bool)
    requires s.Filled() && Inserted(s) && s.strstart + MIN_LOOKAHEAD <= 2 * s.wSize
    requires s.Emitted(s.base + s.strstart) && |s.syms| < s.symEnd && s.matchLength >= MIN_MATCH && MatchFound(s)
    requires Tuned(s)
    modifies s`syms, s`lookahead, s`strstart, s`matchLength, s`insH, s`ins, s`top, s.head, s.prev
    ensures s.Filled() && s.Chained() && s.Rolling() && s.Emitted(s.base + s.strstart) && s.matchLength == 0
    ensures s.lookahead < old(s.lookahead) && s.strstart < 2 * s.wSize
    ensures |s.syms| <= s.symEnd && (bflush <==> |s.syms| == s.symEnd)
    ensures s.strstart == old(s.strstart + s.matchLength) && s.matchLength == 0
    ensures old(s.matchStart) < old(s.strstart)
    ensures s.syms == old(s.syms) + [Sym(old(s.strstart) - old(s.matchStart), old(s.matchLength) - 3)]
    ensures if old(s.matchLength) <= s.maxLazyMatch && s.lookahead >= MIN_MATCH
        then GrownBy(old(s.ins), s.ins, s.base + old(s.strstart) + 1, s.base + s.strstart)
        else s.ins == old(s.ins)
  {
    hide Chains, Rolls, Pow2, HashAt, GoodConfig, Covers, SymsCover, Repeats, WindowHolds, Wrap32, BlockFlush.Fits;
    hide State.Sent, State.Checked, Output.Clear, GrownBy, State.AllGood;
    bflush := s.TallyDist(s.strstart - s.matchStart, s.matchLength, s.base + s.strstart);
    if s.matchLength <= s.maxLazyMatch && s.lookahead - s.matchLength >= MIN_MATCH {
      InsertMatch(s);
    } else {
      SkipMatch(s);
    }
  }

  method EmitLiteral(s: State) returns (bflush: bool)
    requires s.Filled() && Inserted(s) && s.lookahead >= 1 && s.strstart + MIN_LOOKAHEAD <= 2 * s.wSize
    requires s.Emitted(s.base + s.strstart) && |s.syms| < s.symEnd
    modifies s`syms, s`lookahead, s`strstart
    ensures s.Filled() && s.Chained() && s.Rolling() && s.Emitted(s.base + s.strstart)
    ensures s.lookahead < old(s.lookahead) && s.strstart < 2 * s.wSize
    ensures |s.syms| <= s.symEnd && (bflush <==> |s.syms| == s.symEnd)
    ensures s.strstart == old(s.strstart) + 1 && s.base + old(s.strstart) < |s.S|
    ensures s.syms == old(s.syms) + [Sym(0, s.S[s.base + old(s.strstart)])]
  {
    hide Chains, Rolls, Pow2, HashAt, GoodConfig, Covers, SymsCover, Wrap32, BlockFlush.Fits, State.Sent, State.Checked;
    hide Output.Clear, State.AllGood;
    assert s.window[s.strstart] == s.S[s.base + s.strstart];
    bflush := s.TallyLit(s.window[s.strstart], s.base + s.strstart);
    s.lookahead := s.lookahead - 1;
    s.strstart := s.strstart + 1;
  }

  /** Within a step, after the search. */
  ghost predicate Searched(s: State)
    reads s, s.window, s.head, s.prev, s.out, s.out.buf
  {
    && Tuned(s) && s.Filled() && Inserted(s) && s.lookahead >= 1 && s.strstart + MIN_LOOKAHEAD <= 2 * s.wSize
    && s.Emitted(s.base + s.strstart) && |s.syms| < s.symEnd && s.NotLast() && s.Sent() && s.Checked()
    && s.prevLength == MIN_MATCH - 1
    && (s.matchLength >= MIN_MATCH ==> MatchFound(s))
  }

  /** What the search leaves alone. */
  ghost predicate Holding(s: State)
    reads s`strstart, s`base, s`blockStart, s`S, s`blocks, s`cuts, s`syms, s`adler, s`totalIn, s`prevLength
    reads s`lead, s`given, s`room, s.out, s.out.buf
  {
    && Tuned(s) && s.Emitted(s.base + s.strstart) && |s.syms| < s.symEnd && s.NotLast() && s.Sent() && s.Checked()
    && s.prevLength == MIN_MATCH - 1
  }

  lemma ReadyHolds(s: State)
    requires Ready(s)
    ensures Holding(s) && s.Shape() && s.Filled() && s.Chained() && s.Rolling() && s.matchLength < MIN_MATCH
    ensures s.prevLength == MIN_MATCH - 1 && Tuned(s)
  {
    hide State.Chained, State.Rolling, State.Emitted, State.Sent, State.Checked, State.NotLast, WindowHolds;
  }

  lemma NowSearched(s: State)
    requires Holding(s) && s.Filled() && Inserted(s) && s.lookahead >= 1 && s.strstart + MIN_LOOKAHEAD <= 2 * s.wSize
    requires s.matchLength >= MIN_MATCH ==> MatchFound(s)
    ensures Searched(s)
  {
    hide State.Filled, State.Emitted, State.Sent, State.Checked, State.NotLast, Inserted, MatchFound;
  }

  method InsertAndSearch(s: State)
    requires Ready(s) && s.out.Clear() && s.lookahead >= 1 && s.strstart + MIN_LOOKAHEAD <= 2 * s.wSize
    modifies s`matchLength, s`matchStart, s`absMatch, s`insH, s`ins, s`top, s.head, s.prev
    ensures Searched(s) && s.out.Clear()
    ensures s.ins == old(s.ins) + if s.lookahead < MIN_MATCH then {} else {s.base + s.strstart}
    ensures LookedFor(s, s.S, s.base, s.ins, s.base + s.strstart, s.matchLength)
  {
    hide Ready, Searched, Holding, Inserted, ChainHead, MatchFound, State.Filled, State.Chained, State.Rolling;
    hide Output.Clear, Pow2, BlockFlush.Fits, LookedFor, LatestHere;
    ReadyHolds(s);
    var hashHead := InsertCurrent(s);
    FindMatch(s, hashHead);
    NowSearched(s);
  }

  method TakeMatch(s: State) returns (full: bool)
    requires Searched(s) && s.out.Clear() && s.matchLength >= MIN_MATCH
    modifies s`matchLength, s`strstart, s`lookahead
    modifies s`insH, s`ins, s`top, s`syms, s`blocks, s`cuts, s`blockStart, s.out, s.out.buf, s.head, s.prev
    ensures s.cuts.marks == old(s.cuts.marks)
    ensures Ready(s) && s.lookahead < old(s.lookahead) && (if full then s.out.availOut == 0 else s.out.Clear())
    ensures s.strstart == old(s.strstart + s.matchLength) && old(s.matchStart) < old(s.strstart)
    ensures s.AllSyms() == old(s.AllSyms()) + [Sym(old(s.strstart) - old(s.matchStart), old(s.matchLength) - 3)]
  {
    hide Chains, Rolls, Pow2, HashAt, GoodConfig, Covers, SymsCover, Repeats, WindowHolds, Wrap32, BlockFlush.Fits;
    hide State.Sent, State.Checked, Output.Clear, State.AllGood, State.AllSyms, GrownBy;
    var bflush := EmitMatch(s);
    s.OneSymMore(Sym(old(s.strstart) - old(s.matchStart), old(s.matchLength) - 3));
    s.FlushIfFull(bflush);
    full := bflush && s.out.availOut == 0;
  }

  method TakeLiteral(s: State) returns (full: bool)
    requires Searched(s) && s.out.Clear() && s.matchLength < MIN_MATCH
    modifies s`strstart, s`lookahead, s`syms, s`blocks, s`cuts, s`blockStart, s.out, s.out.buf
    ensures s.cuts.marks == old(s.cuts.marks)
    ensures Ready(s) && s.lookahead < old(s.lookahead) && (if full then s.out.availOut == 0 else s.out.Clear())
    ensures s.strstart == old(s.strstart) + 1 && s.base + old(s.strstart) < |s.S|
    ensures s.AllSyms() == old(s.AllSyms()) + [Sym(0, s.S[s.base + old(s.strstart)])]
  {
    hide Chains, Rolls, Pow2, HashAt, GoodConfig, Covers, SymsCover, Repeats, WindowHolds, Wrap32, BlockFlush.Fits;
    hide State.Sent, State.Checked, Output.Clear, State.AllGood, State.AllSyms;
    var bflush := EmitLiteral(s);
    s.OneSymMore(Sym(0, s.S[s.base + old(s.strstart)]));
    s.FlushIfFull(bflush);
    full := bflush && s.out.availOut == 0;
  }

  /** One step: a match that is found is taken at once. The other results say what was found at the current
      string, and where. */
  method Step(s: State) returns (full: bool, ghost found: nat, ghost dist: nat)
    requires Ready(s) && s.out.Clear() && s.lookahead >= 1 && s.strstart + MIN_LOOKAHEAD <= 2 * s.wSize
    modifies s`matchLength, s`matchStart, s`absMatch, s`strstart, s`lookahead
    modifies s`insH, s`ins, s`top, s`syms, s`blocks, s`cuts, s`blockStart, s.out, s.out.buf, s.head, s.prev
    ensures s.cuts.marks == old(s.cuts.marks)
    ensures Ready(s) && s.lookahead < old(s.lookahead) && (if full then s.out.availOut == 0 else s.out.Clear())
    ensures s.base + old(s.strstart) < |s.S| && LookedFor(s, s.S, s.base,
        old(s.ins) + if old(s.lookahead) < MIN_MATCH then {} else {s.base + old(s.strstart)},
        s.base + old(s.strstart), found)
    ensures found >= 3 ==> found <= 258 && Repeats(s.S, s.base + old(s.strstart), dist, found)
    ensures s.AllSyms() == old(s.AllSyms())
        + [if found >= 3 then Sym(dist, found - 3) else Sym(0, s.S[s.base + old(s.strstart)])]
    ensures s.strstart == old(s.strstart) + if found >= 3 then found else 1
  {
    hide Ready, Searched, Chains, LookedFor, State.AllSyms, Output.Clear, Repeats;
    InsertAndSearch(s);
    found, dist := s.matchLength, 0;
    AtLeastOne(s);
    if s.matchLength >= MIN_MATCH {
      FoundThere(s);
      dist := s.strstart - s.matchStart;
      full := TakeMatch(s);
    } else {
      full := TakeLiteral(s);
    }
  }

  lemma AtLeastOne(s: State)
    requires Searched(s)
    ensures s.base + s.strstart < |s.S|
  {
  }

  lemma FoundThere(s: State)
    requires Searched(s) && s.matchLength >= MIN_MATCH
    ensures s.matchStart < s.strstart && s.matchLength <= 258
    ensures Repeats(s.S, s.base + s.strstart, s.strstart - s.matchStart, s.matchLength)
  {
    hide Repeats;
  }

  method Turn(s: State) returns (full: bool)
    requires Ready(s) && s.out.Clear() && s.lookahead >= 1 && s.strstart + MIN_LOOKAHEAD <= 2 * s.wSize
    modifies s`matchLength, s`matchStart, s`absMatch, s`strstart, s`lookahead
    modifies s`insH, s`ins, s`top, s`syms, s`blocks, s`cuts, s`blockStart, s.out, s.out.buf, s.head, s.prev
    ensures s.cuts.marks == old(s.cuts.marks)
    ensures Ready(s) && s.lookahead < old(s.lookahead) && (if full then s.out.availOut == 0 else s.out.Clear())
  {
    hide *;
    ghost var found, dist;
    full, found, dist := Step(s);
  }

  method Refill(s: State)
    requires Ready(s) && s.out.Clear() && s.lookahead < MIN_LOOKAHEAD
    modifies s`input, s`lookahead, s`S, s`written, s`adler, s`totalIn, s`insH, s`ins, s`top, s`insert, s`matchStart
    modifies s`strstart, s`blockStart, s`base, s`highWater
    modifies s.window, s.head, s.prev
    ensures Ready(s) && s.out.Clear() && s.strstart + MIN_LOOKAHEAD <= 2 * s.wSize
    ensures s.S + s.input == old(s.S + s.input) && old(s.S) <= s.S
    ensures |s.input| + s.lookahead == old(|s.input| + s.lookahead)
    ensures s.lookahead >= MIN_LOOKAHEAD || s.input == []
  {
    hide Chains, Rolls, Pow2, HashAt, GoodConfig, Covers, SymsCover, Repeats, WindowHolds, Wrap32, BlockFlush.Fits;
    hide State.Sent, State.Checked, Output.Clear;
    label before:
    s.FillWindow();
    assert |s.S + s.input| == |old(s.S + s.input)|;
    s.EmittedMore@before(s.base + s.strstart);
  }

  /** The strings at the end of the input wait for their third byte. */
  method FinishInput(s: State)
    requires Ready(s) && s.out.Clear() && s.lookahead == 0
    modifies s`insert
    ensures Ready(s) && s.insert == Min(s.strstart, 2)
  {
    hide Chains, Rolls, Pow2, HashAt, GoodConfig, Covers, SymsCover, Repeats, WindowHolds, Wrap32, BlockFlush.Fits;
    hide State.Sent, State.Checked, Output.Clear;
    TopBelow(s);
    s.insert := if s.strstart < MIN_MATCH - 1 then s.strstart else MIN_MATCH - 1;
  }

  lemma RoomAhead(s: State)
    requires Ready(s) && s.out.Clear() && s.lookahead >= MIN_LOOKAHEAD
    ensures s.strstart + MIN_LOOKAHEAD <= 2 * s.wSize && s.lookahead >= 1
  {
  }

  method FlushAtEnd(s: State, flush: Flush) returns (r: BlockState)
    requires Ready(s) && s.out.Clear() && s.lookahead == 0 && s.input == [] && flush != NoFlush
    requires s.strstart + MIN_LOOKAHEAD <= 2 * s.wSize
    modifies s`blocks, s`syms, s`cuts, s`blockStart, s.out, s.out.buf
    ensures s.cuts.marks == old(s.cuts.marks)
    ensures flush != Finish ==> (r == NeedMore || r == BlockDone) && s.syms == [] && Ready(s)
    ensures flush == Finish ==>
      (r == FinishStarted || r == FinishDone) && s.Finished() && s.input == [] && s.Sent() && s.Checked()
    ensures if r == BlockDone || r == FinishDone then s.out.Clear() else s.out.availOut == 0
    ensures s.lookahead == 0
  {
    hide Chains, Rolls, Pow2, HashAt, GoodConfig, Covers, SymsCover, Repeats, WindowHolds, Wrap32, BlockFlush.Fits;
    hide State.Sent, State.Checked, Output.Clear;
    r := s.FlushAtEnd(flush);
  }

  /** deflate_fast(), for one call. */
  method Compress(s: State, flush: Flush) returns (r: BlockState)
    requires Ready(s) && s.out.Clear()
    modifies s, s.window, s.head, s.prev, s.out, s.out.buf
    ensures s.cuts.marks == old(s.cuts.marks)
    ensures s.lead == old(s.lead) && s.given == old(s.given) && s.room == old(s.room)
    ensures s.S + s.input == old(s.S + s.input) && old(s.S) <= s.S
    ensures r == NeedMore ==> Ready(s) && (s.out.availOut == 0 || (s.input == [] && flush == NoFlush))
    ensures r == NeedMore && flush == Finish ==> |s.input| + s.lookahead < old(|s.input| + s.lookahead)
    ensures r == BlockDone ==> Ready(s) && s.input == [] && s.syms == [] && s.lookahead == 0 && flush != NoFlush
    ensures r == BlockDone ==> flush != Finish && s.out.Clear() && s.insert == Min(s.strstart, 2)
    ensures r == FinishStarted || r == FinishDone ==>
      s.Finished() && s.input == [] && s.lookahead == 0 && s.Sent() && s.Checked() && flush == Finish
    ensures if r == FinishDone then s.out.Clear() else r == FinishStarted ==> s.out.availOut == 0
  {
    hide *;
    while true
      invariant Ready(s) && s.out.Clear()
      invariant s.lead == old(s.lead) && s.given == old(s.given) && s.room == old(s.room)
      invariant s.cuts.marks == old(s.cuts.marks)
      invariant s.S + s.input == old(s.S + s.input) && old(s.S) <= s.S
      invariant |s.input| + s.lookahead <= old(|s.input| + s.lookahead)
      decreases |s.input| + s.lookahead
    {
      if s.lookahead < MIN_LOOKAHEAD {
        Refill(s);
        if s.lookahead < MIN_LOOKAHEAD && flush == NoFlush {
          return NeedMore;
        }
        if s.lookahead == 0 {
          break;
        }
      }
      if s.lookahead >= MIN_LOOKAHEAD {
        RoomAhead(s);
      }
      var full := Turn(s);
      if full {
        return NeedMore;
      }
    }
    FinishInput(s);
    r := FlushAtEnd(s, flush);
  }
}
