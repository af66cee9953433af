/** deflate_slow(): lazy evaluation of matches. A match is held for one step and emitted only if the
    next position has no longer one. */
module DeflateSlow {
  import opened Bits
  import opened Lz77
  import opened HashFn
  import opened Window
  import opened BlockStream
  import opened Pending
  import opened DeflateState
  import LM = LongestMatch
  import BlockFlush

  /** The state between steps: everything before the current string is emitted, except a byte held back;
      a match found for the held byte is remembered with it. */
  ghost predicate Ready(s: State)
    reads s, s.window, s.head, s.prev, s.out, s.out.buf
  {
    && s.Filled() && s.Chained() && s.Rolling() && Tuned(s)
    && (s.matchAvailable ==> s.strstart >= 1)
    && s.Emitted(s.base + s.strstart - Held(s)) && |s.syms| < s.symEnd && s.NotLast() && s.Sent() && s.Checked()
    && 2 <= s.matchLength <= MAX_MATCH
    && (s.matchLength >= MIN_MATCH ==> HeldMatch(s) && Fresh(s.cuts) <= s.absMatch)
  }

  ghost predicate HeldMatch(s: State)
    reads s`matchAvailable, s`matchLength, s`lookahead, s`base, s`strstart, s`absMatch, s`S
  {
    && s.matchAvailable && s.matchLength <= s.lookahead + 1
    && Match(s, s.base + s.strstart - 1, s.absMatch, s.matchLength)
  }

  ghost function Held(s: State): nat
    reads s`matchAvailable
  {
    if s.matchAvailable then 1 else 0
  }

  /** The call of longest_match(), for matches longer than the previous one. */
  method SearchLonger(s: State, hashHead: Pos)
    requires s.Filled() && Inserted(s) && s.strstart + MIN_LOOKAHEAD <= 2 * s.wSize
    requires ChainHead(s, hashHead) && s.strstart - hashHead <= s.wSize - MIN_LOOKAHEAD
    requires 2 <= s.prevLength <= MAX_MATCH && Tuned(s)
    modifies s`matchLength, s`matchStart, s`absMatch
    ensures s.Filled() && 2 <= s.matchLength <= MAX_MATCH
    ensures s.matchLength > s.prevLength ==> s.absMatch >= s.base
    ensures s.matchLength > s.prevLength ==>
      s.matchLength <= s.lookahead && Match(s, s.base + s.strstart, s.absMatch, s.matchLength)
    ensures LM.Found(s.matchLength, s.matchStart) == LM.Result(s.window[..], s.prev[..], s.strstart, s.lookahead,
        hashHead, old(s.matchStart), s.prevLength, s.maxChainLength, s.goodMatch, s.niceMatch)
    ensures Looked(s, s.S, s.base, s.ins, s.base + s.strstart, Budget(s, s.prevLength), 0, s.matchLength)
  {
    hide Chains, Rolls, Pow2, HashAt, WindowHolds, Repeats, LM.Result, LM.NoneLonger, LM.NoneNearer, Latest, GoodConfig;
    hide BlockFlush.Fits;
    s.matchLength, s.matchStart := LM.LongestMatch(s.window, s.head, s.prev, s.strstart, s.lookahead, hashHead,
        s.matchStart, s.prevLength,
      s.maxChainLength, s.goodMatch, s.niceMatch, s.c, s.S, s.base, s.ins);
    s.absMatch := s.base + s.matchStart;
    if s.matchLength < Min(s.niceMatch, s.lookahead) || s.matchLength <= s.prevLength {
      LM.NoneLongerFrom(s.c, s.S, s.base, s.ins, s.base + s.strstart, s.base + hashHead,
        s.wSize - (MAX_MATCH + MIN_MATCH + 1), Budget(s, s.prevLength), s.matchLength, s.matchLength);
    }
  }

  /** Is a match looked for? Only one better than a match that is not long enough already, and only if the last
      string with the same hash is close enough. */
  predicate Searching(s: State, hashHead: Pos, held: nat)
    reads s`strstart
  {
    hashHead != NIL && held < s.maxLazyMatch && s.strstart - hashHead <= s.wSize - MIN_LOOKAHEAD
  }

  /** Short matches that are far away, or not wanted, are discarded. */
  function Kept(s: State, f: LM.Found): nat
    reads s`strstart
  {
    if f.len <= 5 && (s.filtered || (f.len == 3 && Wrap32(s.strstart - f.start) > 4096)) then 2 else f.len
  }

  /** The search of a step: the match found at the previous position is put aside, and a longer one
      looked for at this one. */
  method FindMatch(s: State, hashHead: Pos, ghost absPrev: int)
    requires s.Filled() && Inserted(s) && s.strstart + MIN_LOOKAHEAD <= 2 * s.wSize
    requires hashHead != NIL ==> ChainHead(s, hashHead)
    requires s.lookahead >= MIN_MATCH ==> s.base + s.strstart + 2 < |s.S| && LatestHere(s, hashHead)
    requires 2 <= s.matchLength <= MAX_MATCH && absPrev == s.absMatch && Tuned(s)
    modifies s`prevLength, s`prevMatch, s`matchLength, s`matchStart, s`absMatch
    ensures s.Filled()
    ensures s.prevLength == old(s.matchLength) && s.prevMatch == Wrap32(absPrev - s.base)
    ensures 2 <= s.matchLength <= MAX_MATCH && (s.matchLength > s.prevLength ==> s.absMatch >= s.base)
    ensures s.matchLength > s.prevLength ==>
      s.matchLength <= s.lookahead && Match(s, s.base + s.strstart, s.absMatch, s.matchLength)
    ensures if Searching(s, hashHead, old(s.matchLength)) then
        s.matchLength == Kept(s, LM.Result(s.window[..], s.prev[..], s.strstart, s.lookahead, hashHead,
            old(s.matchStart), old(s.matchLength), s.maxChainLength, s.goodMatch, s.niceMatch))
      else s.matchLength == 2
    ensures LookedFor(s, s.S, s.base, s.ins, s.base + s.strstart, old(s.matchLength), s.matchLength)
  {
    hide Chains, Rolls, Pow2, HashAt, WindowHolds, Repeats, GoodConfig, BlockFlush.Fits, LM.Result, Looked, Latest;
    s.prevLength, s.prevMatch := s.matchLength, s.matchStart;
    s.matchLength := MIN_MATCH - 1;
    if hashHead != NIL && s.prevLength < s.maxLazyMatch && s.strstart - hashHead <= s.wSize - MIN_LOOKAHEAD {
      SearchLonger(s, hashHead);
      var longest := s.matchLength;
      if s.matchLength <= 5 && (s.filtered || (s.matchLength == MIN_MATCH
          && Wrap32(s.strstart - s.matchStart) > TOO_FAR)) {
        s.matchLength := MIN_MATCH - 1;
      }
      GivenUp(s, s.S, s.base, s.ins, s.base + s.strstart, Budget(s, s.prevLength), longest, s.matchLength);
    } else if s.lookahead >= MIN_MATCH {
      OutOfReach(s, hashHead, s.prevLength);
    }
  }

  /** What is found at p, unless the match held is long enough already. */
  ghost predicate LookedFor(s: State, S: seq<byte>, base: nat, ins: set<nat>, p: nat, held: nat, found: nat) {
    if |S| < p + MIN_MATCH || held >= s.maxLazyMatch then found == 2
    else Looked(s, S, base, ins, p, Budget(s, held), if s.filtered then 5 else 3, found)
  }

  lemma GivenUp(s: State, S: seq<byte>, base: nat, ins: set<nat>, p: nat, chain: nat, longest: nat, found: nat)
    requires Looked(s, S, base, ins, p, chain, 0, longest)
    requires found == longest || longest <= if s.filtered then 5 else 3
    ensures Looked(s, S, base, ins, p, chain, if s.filtered then 5 else 3, found)
  {
    hide HashAt, LM.NoneLonger;
    var least := if s.filtered then 5 else 3;
    var best := if found < least then least else found;
    if longest < Min(s.niceMatch, |S| - p) {
      LM.NoneLongerFrom(s.c, S, base, ins, p, p, s.wSize - (MAX_MATCH + MIN_MATCH + 1), chain, longest, best);
    }
  }

  lemma OutOfReach(s: State, hashHead: Pos, held: nat)
    requires s.Filled() && s.lookahead >= MIN_MATCH && s.base + s.strstart + 2 < |s.S| && LatestHere(s, hashHead)
    requires hashHead == NIL || s.strstart - hashHead > s.wSize - MIN_LOOKAHEAD || held >= s.maxLazyMatch
    ensures LookedFor(s, s.S, s.base, s.ins, s.base + s.strstart, held, 2)
  {
    hide HashAt, LM.NoneLonger, WindowHolds, Latest, Pow2, GoodConfig, BlockFlush.Fits, Wrap32;
    if held < s.maxLazyMatch {
      LM.NoneInReach(hashHead, s.c, s.S, s.base, s.ins, s.base + s.strstart, s.wSize - (MAX_MATCH + MIN_MATCH + 1),
        Budget(s, held), if s.filtered then 5 else 3);
    }
  }

  /** Moving on by strings that are inserted while they have three bytes. */
  method InsertRun(s: State, maxInsert: nat)
    requires s.Shape() && WindowHolds(s.window, s.S, s.base) && s.prevLength >= 1
    requires Chains(s.head[..], s.prev[..], s.c, s.S, s.base, s.ins, s.top)
    requires s.base + maxInsert + MIN_MATCH == |s.S| && s.strstart + s.prevLength < maxInsert + MIN_MATCH
    requires if s.strstart <= maxInsert then JustInserted(s) else s.top <= s.base + maxInsert
    modifies s`strstart, s`prevLength, s`insH, s`ins, s`top, s.head, s.prev
    ensures s.strstart == old(s.strstart + s.prevLength)
    ensures GrownBy(old(s.ins), s.ins, s.base + old(s.strstart) + 1, s.base + Min(s.strstart, maxInsert) + 1)
    ensures Chains(s.head[..], s.prev[..], s.c, s.S, s.base, s.ins, s.top)
    ensures if s.strstart <= maxInsert then JustInserted(s) else s.top <= s.base + maxInsert
  {
    hide Chains, Rolls, Pow2, HashAt, GoodConfig, BlockFlush.Fits, GrownBy, Latest;
    ghost var from := s.base + s.strstart + 1;
    NoneBetween(s.ins, from, s.base + Min(s.strstart, maxInsert) + 1);
    while true
      invariant s.prevLength >= 1 && s.strstart + s.prevLength == old(s.strstart + s.prevLength)
      invariant WindowHolds(s.window, s.S, s.base)
      invariant Chains(s.head[..], s.prev[..], s.c, s.S, s.base, s.ins, s.top)
      invariant if s.strstart <= maxInsert then JustInserted(s) else s.top <= s.base + maxInsert
      invariant from <= s.base + s.strstart + 1
      invariant GrownBy(old(s.ins), s.ins, from, s.base + Min(s.strstart, maxInsert) + 1)
      decreases s.prevLength
    {
      s.strstart := s.strstart + 1;
      if s.strstart <= maxInsert {
        GrownByOne(old(s.ins), s.ins, from, s.base + s.strstart);
        var _ := s.InsertString(s.strstart);
      }
      s.prevLength := s.prevLength - 1;
      if s.prevLength == 0 {
        break;
      }
    }
  }

  lemma Unwrap(strstart: nat, base: nat, absPrev: int)
    requires 1 <= base + strstart - 1 - absPrev < 0x1_0000_0000
    ensures Wrap32(strstart - 1 - Wrap32(absPrev - base)) == base + strstart - 1 - absPrev
  {
  }

  /** The previous match is tallied. It may start one byte before the window. */
  method TallyHeld(s: State, ghost absPrev: int) returns (bflush: bool)
    requires s.Filled() && s.strstart >= 1 && s.Emitted(s.base + s.strstart - 1) && |s.syms| < s.symEnd
    requires s.prevMatch == Wrap32(absPrev - s.base) && Match(s, s.base + s.strstart - 1, absPrev, s.prevLength)
    requires Fresh(s.cuts) <= absPrev && Tuned(s)
    modifies s`syms
    ensures s.syms == old(s.syms) + [Sym(s.base + s.strstart - 1 - absPrev, s.prevLength - 3)]
    ensures s.Emitted(s.base + s.strstart - 1 + s.prevLength)
    ensures |s.syms| <= s.symEnd && (bflush <==> |s.syms| == s.symEnd)
  {
    hide Pow2, GoodConfig, Covers, SymsCover, Repeats, WindowHolds, BlockFlush.Fits;
    Unwrap(s.strstart, s.base, absPrev);
    bflush := s.TallyDist(Wrap32(s.strstart - 1 - s.prevMatch), s.prevLength, s.base + s.strstart - 1);
  }

  /** The strings of the match are inserted, as far as they have three bytes, and the current string
      moves to its end. */
  method MovePastMatch(s: State)
    requires s.Filled() && Inserted(s) && s.strstart >= 1 && s.strstart + MIN_LOOKAHEAD <= 2 * s.wSize
    requires MIN_MATCH <= s.prevLength <= s.lookahead + 1
    modifies s`lookahead, s`prevLength, s`strstart, s`matchAvailable, s`matchLength, s`insH, s`ins, s`top, s.head
    modifies s.prev
    ensures s.Filled() && s.Chained() && s.Rolling()
    ensures s.strstart == old(s.strstart) - 1 + old(s.prevLength) && !s.matchAvailable && s.matchLength == 2
    ensures s.lookahead == old(s.lookahead) - (old(s.prevLength) - 1)
    ensures GrownBy(old(s.ins), s.ins, s.base + old(s.strstart) + 1, Min(s.base + s.strstart, |s.S| - 2))
  {
    hide Chains, Rolls, Pow2, HashAt, GoodConfig, WindowHolds, BlockFlush.Fits;
    var maxInsert := s.strstart + s.lookahead - MIN_MATCH;
    s.lookahead := s.lookahead - (s.prevLength - 1);
    s.prevLength := s.prevLength - 2;
    InsertRun(s, maxInsert);
    StepOver(s, maxInsert);
  }

  /** From the last string of a match to the one after it. */
  method StepOver(s: State, ghost maxInsert: nat)
    requires s.Shape() && WindowHolds(s.window, s.S, s.base)
    requires Chains(s.head[..], s.prev[..], s.c, s.S, s.base, s.ins, s.top)
    requires s.base + maxInsert + MIN_MATCH == |s.S| && |s.S| == s.base + s.strstart + 1 + s.lookahead
    requires s.insert <= s.strstart
    requires s.strstart + 1 + s.lookahead <= s.written && s.highWater <= s.written <= 2 * s.wSize
    requires s.matchStart == Wrap32(s.absMatch - s.base)
    requires if s.strstart <= maxInsert then JustInserted(s) else s.top <= s.base + maxInsert
    requires s.insert > 0 ==>
      s.lookahead + s.insert < MIN_MATCH && s.strstart > maxInsert && s.top < s.base + s.strstart + 1 - s.insert
    modifies s`strstart, s`matchAvailable, s`matchLength
    ensures s.Filled() && s.Chained() && s.Rolling()
    ensures s.strstart == old(s.strstart) + 1 && !s.matchAvailable && s.matchLength == 2
  {
    hide Chains, Rolls, Pow2, HashAt, GoodConfig, WindowHolds, BlockFlush.Fits, Wrap32;
    s.matchAvailable := false;
    s.matchLength := MIN_MATCH - 1;
    s.strstart := s.strstart + 1;
  }

  /** The previous match is adopted. */
  method EmitMatch(s: State, ghost absPrev: int) returns (bflush: bool)
    requires s.Filled() && Inserted(s) && s.strstart >= 1 && s.strstart + MIN_LOOKAHEAD <= 2 * s.wSize
    requires s.Emitted(s.base + s.strstart - 1) && |s.syms| < s.symEnd && Tuned(s)
    requires s.prevLength <= s.lookahead + 1 && s.prevMatch == Wrap32(absPrev - s.base)
    requires Match(s, s.base + s.strstart - 1, absPrev, s.prevLength) && Fresh(s.cuts) <= absPrev
    modifies s`lookahead, s`prevLength, s`strstart, s`matchAvailable, s`matchLength, s`syms, s`insH, s`ins, s`top
    modifies s.head, s.prev
    ensures s.Filled() && s.Chained() && s.Rolling()
    ensures s.Emitted(s.base + s.strstart) && !s.matchAvailable && s.matchLength == 2 && 1 <= s.strstart < 2 * s.wSize
    ensures s.lookahead < old(s.lookahead) && s.strstart == old(s.strstart) - 1 + old(s.prevLength)
    ensures |s.syms| <= s.symEnd && (bflush <==> |s.syms| == s.symEnd)
    ensures s.syms == old(s.syms) + [Sym(s.base + old(s.strstart) - 1 - absPrev, old(s.prevLength) - 3)]
    ensures GrownBy(old(s.ins), s.ins, s.base + old(s.strstart) + 1, Min(s.base + s.strstart, |s.S| - 2))
  {
    hide Chains, Rolls, Pow2, HashAt, GoodConfig, Covers, SymsCover, Repeats, WindowHolds, Wrap32, BlockFlush.Fits;
    hide State.Sent, State.Checked, Output.Clear, GrownBy;
    bflush := TallyHeld(s, absPrev);
    MovePastMatch(s);
  }

  /** No match, or a longer one now: the byte held back goes out as a literal and the current one is held. */
  method EmitLiteral(s: State) returns (bflush: bool)
    requires s.Filled() && s.strstart >= 1 && s.Emitted(s.base + s.strstart - 1) && |s.syms| < s.symEnd
    modifies s`syms
    ensures s.Filled() && s.Emitted(s.base + s.strstart) && |s.syms| <= s.symEnd && (bflush <==> |s.syms| == s.symEnd)
    ensures s.syms == old(s.syms) + [Sym(0, s.S[s.base + s.strstart - 1])]
  {
    hide Pow2, GoodConfig, Covers, SymsCover, BlockFlush.Fits;
    assert s.window[s.strstart - 1] == s.S[s.base + (s.strstart - 1)];
    bflush := s.TallyLit(s.window[s.strstart - 1], s.base + s.strstart - 1);
  }

  /** The current byte becomes the one held back, with the match found for it, if any. */
  method HoldCurrent(s: State)
    requires Tuned(s) && s.Filled() && Inserted(s) && s.lookahead >= 1 && s.matchAvailable
    requires s.Emitted(s.base + s.strstart) && |s.syms| < s.symEnd && s.NotLast() && s.Sent() && s.Checked()
    requires 2 <= s.matchLength <= MAX_MATCH
    requires s.matchLength >= MIN_MATCH ==> Fresh(s.cuts) <= s.absMatch
    requires s.matchLength >= MIN_MATCH ==>
      s.matchLength <= s.lookahead && Match(s, s.base + s.strstart, s.absMatch, s.matchLength)
    modifies s`strstart, s`lookahead
    ensures Ready(s) && s.lookahead == old(s.lookahead) - 1 && s.matchAvailable
  {
    hide Chains, Rolls, Pow2, HashAt, GoodConfig, Covers, SymsCover, Repeats, WindowHolds, Wrap32, BlockFlush.Fits;
    hide State.Sent, State.Checked, Output.Clear;
    s.strstart := s.strstart + 1;
    s.lookahead := s.lookahead - 1;
  }

  /** Within a step, after the search: the match of the previous position and that of this one. */
  ghost predicate Searched(s: State, absPrev: int)
    reads s, s.window, s.head, s.prev, s.out, s.out.buf
  {
    && Tuned(s) && s.Filled() && Inserted(s) && s.lookahead >= 1 && s.strstart + MIN_LOOKAHEAD <= 2 * s.wSize
    && (s.matchAvailable ==> s.strstart >= 1)
    && s.Emitted(s.base + s.strstart - Held(s)) && |s.syms| < s.symEnd && s.NotLast() && s.Sent() && s.Checked()
    && 2 <= s.matchLength <= MAX_MATCH && 2 <= s.prevLength
    && (s.prevLength >= MIN_MATCH ==> PreviousMatch(s, absPrev) && Fresh(s.cuts) <= absPrev)
    && (s.matchLength > s.prevLength ==> Fresh(s.cuts) <= s.absMatch)
    && (s.matchLength > s.prevLength ==>
          s.matchLength <= s.lookahead && Match(s, s.base + s.strstart, s.absMatch, s.matchLength))
  }

  ghost predicate PreviousMatch(s: State, absPrev: int)
    reads s
  {
    && s.matchAvailable && s.prevLength <= s.lookahead + 1 && s.prevMatch == Wrap32(absPrev - s.base)
    && Match(s, s.base + s.strstart - 1, absPrev, s.prevLength)
  }

  /** What the search leaves alone: how far the stream is emitted, and the match of the held byte, of the
      given length and at the given stream position. */
  ghost predicate Holding(s: State, len: nat, abs: int)
    reads s`strstart, s`base, s`blockStart, s`S, s`blocks, s`cuts, s`syms, s`matchAvailable, s`lookahead, s`adler
    reads s`totalIn
    reads s`lead, s`given, s`room, s.out, s.out.buf
  {
    && (s.matchAvailable ==> s.strstart >= 1)
    && s.Emitted(s.base + s.strstart - Held(s)) && |s.syms| < s.symEnd && s.NotLast() && s.Sent() && s.Checked()
    && 2 <= len <= MAX_MATCH && (len >= MIN_MATCH ==> Fresh(s.cuts) <= abs)
    && (len >= MIN_MATCH ==> s.matchAvailable && len <= s.lookahead + 1 && Match(s, s.base + s.strstart - 1, abs, len))
  }

  lemma ReadyHolds(s: State)
    requires Ready(s)
    ensures Holding(s, s.matchLength, s.absMatch) && s.Shape() && s.Filled() && s.Chained() && s.Rolling()
    ensures 2 <= s.matchLength <= MAX_MATCH && Tuned(s)
  {
    hide State.Chained, State.Rolling, State.Emitted, State.Sent, State.Checked, State.NotLast, Repeats, WindowHolds;
  }

  lemma NowSearched(s: State, absPrev: int)
    requires Tuned(s) && s.Filled() && Inserted(s) && s.lookahead >= 1 && s.strstart + MIN_LOOKAHEAD <= 2 * s.wSize
    requires Holding(s, s.prevLength, absPrev) && s.prevMatch == Wrap32(absPrev - s.base)
    requires 2 <= s.matchLength <= MAX_MATCH
    requires s.matchLength > s.prevLength ==> s.absMatch >= s.base
    requires s.matchLength > s.prevLength ==>
      s.matchLength <= s.lookahead && Match(s, s.base + s.strstart, s.absMatch, s.matchLength)
    ensures Searched(s, absPrev)
  {
    hide State.Filled, State.Sent, State.Checked, State.NotLast, Repeats, Inserted, Wrap32, Covers, SymsCover;
  }

  method InsertAndSearch(s: State)
    requires Ready(s) && s.out.Clear() && s.lookahead >= 1 && s.strstart + MIN_LOOKAHEAD <= 2 * s.wSize
    modifies s`prevLength, s`prevMatch, s`matchLength, s`matchStart, s`absMatch, s`insH, s`ins, s`top, s.head, s.prev
    ensures Searched(s, old(s.absMatch)) && s.out.Clear() && s.prevLength == old(s.matchLength)
    ensures s.ins == old(s.ins) + if s.lookahead < MIN_MATCH then {} else {s.base + s.strstart}
    ensures LookedFor(s, s.S, s.base, s.ins, s.base + s.strstart, s.prevLength, s.matchLength)
  {
    hide Ready, Searched, Holding, Inserted, ChainHead, Match, Wrap32, State.Filled, State.Chained, State.Rolling;
    hide Output.Clear, Pow2, BlockFlush.Fits, LookedFor, LatestHere;
    ReadyHolds(s);
    var hashHead := InsertCurrent(s);
    FindMatch(s, hashHead, s.absMatch);
    NowSearched(s, old(s.absMatch));
  }

  method AdoptPrevious(s: State, ghost absPrev: int) returns (full: bool)
    requires Searched(s, absPrev) && s.out.Clear() && s.prevLength >= MIN_MATCH
    modifies s`prevLength, s`matchLength, s`strstart, s`lookahead, s`matchAvailable
    modifies s`insH, s`ins, s`top, s`syms, s`blocks, s`cuts, s`blockStart, s.out, s.out.buf, s.head, s.prev
    ensures s.cuts.marks == old(s.cuts.marks)
    ensures Ready(s) && s.lookahead < old(s.lookahead) && (if full then s.out.availOut == 0 else s.out.Clear())
    ensures s.strstart == old(s.strstart) - 1 + old(s.prevLength) && !s.matchAvailable && s.matchLength == 2
    ensures 0 <= absPrev < s.base + old(s.strstart) - 1 && old(s.prevLength) <= MAX_MATCH
    ensures s.AllSyms()
         == old(s.AllSyms()) + [Sym(s.base + old(s.strstart) - 1 - absPrev, old(s.prevLength) - 3)]
  {
    hide Chains, Rolls, Pow2, HashAt, GoodConfig, Covers, SymsCover, Repeats, WindowHolds, Wrap32, BlockFlush.Fits;
    hide State.Sent, State.Checked, Output.Clear, GrownBy, State.AllGood, State.AllSyms;
    var bflush := EmitMatch(s, absPrev);
    s.OneSymMore(Sym(s.base + old(s.strstart) - 1 - absPrev, old(s.prevLength) - 3));
    s.FlushIfFull(bflush);
    full := bflush && s.out.availOut == 0;
  }

  method ReplacePrevious(s: State, ghost absPrev: int) returns (full: bool)
    requires Searched(s, absPrev) && s.out.Clear() && (s.prevLength < MIN_MATCH || s.matchLength > s.prevLength)
    requires s.matchAvailable
    modifies s`strstart, s`lookahead, s`syms, s`blocks, s`cuts, s`blockStart, s.out, s.out.buf
    ensures s.cuts.marks == old(s.cuts.marks)
    ensures Ready(s) && s.lookahead < old(s.lookahead) && (if full then s.out.availOut == 0 else s.out.Clear())
    ensures s.strstart == old(s.strstart) + 1 && s.matchAvailable
    ensures s.AllSyms() == old(s.AllSyms()) + [Sym(0, s.S[s.base + old(s.strstart) - 1])]
  {
    hide Chains, Rolls, Pow2, HashAt, GoodConfig, Covers, SymsCover, Repeats, WindowHolds, Wrap32, BlockFlush.Fits;
    hide State.Sent, State.Checked, Output.Clear, State.AllGood, State.AllSyms;
    var bflush := EmitLiteral(s);
    s.OneSymMore(Sym(0, s.S[s.base + old(s.strstart) - 1]));
    s.FlushIfFull(bflush);
    HoldCurrent(s);
    full := s.out.availOut == 0;
  }

  /** Nothing was held back: now the current byte is. */
  method HoldFirst(s: State, ghost absPrev: int)
    requires Searched(s, absPrev) && s.out.Clear() && !s.matchAvailable && s.prevLength < MIN_MATCH
    modifies s`strstart, s`lookahead, s`matchAvailable
    ensures Ready(s) && s.lookahead < old(s.lookahead) && s.strstart == old(s.strstart) + 1 && s.matchAvailable
    ensures s.AllSyms() == old(s.AllSyms())
  {
    hide Chains, Rolls, Pow2, HashAt, GoodConfig, Covers, SymsCover, Repeats, WindowHolds, Wrap32, BlockFlush.Fits;
    hide State.Sent, State.Checked, Output.Clear, State.AllGood;
    s.matchAvailable := true;
    HoldCurrent(s);
  }

  lemma NoneHeld(s: State, absPrev: int)
    requires Searched(s, absPrev) && !s.matchAvailable
    ensures s.prevLength < MIN_MATCH
  {
  }

  /** Lazy evaluation: the match held is taken if none longer is found at the next string; otherwise the byte
      held back goes out by itself. */
  function Lazily(S: seq<byte>, p: nat, available: bool, held: nat, abs: int, found: nat): seq<Sym>
    requires available ==> 1 <= p <= |S|
    requires held >= 3 ==> available && abs < p && held <= 258
  {
    if held >= 3 && found <= held then [Sym(p - 1 - abs, held - 3)] else if available then [Sym(0, S[p - 1])] else []
  }

  /** One step of the loop. The first result says whether the caller is to be asked for more output space, the
      other what was found at the current string. */
  method Step(s: State) returns (full: bool, ghost found: nat)
    requires Ready(s) && s.out.Clear() && s.lookahead >= 1 && s.strstart + MIN_LOOKAHEAD <= 2 * s.wSize
    modifies s`prevLength, s`prevMatch, s`matchLength, s`matchStart, s`absMatch, s`strstart, s`lookahead
    modifies s`matchAvailable
    modifies s`insH, s`ins, s`top, s`syms, s`blocks, s`cuts, s`blockStart, s.out, s.out.buf, s.head, s.prev
    ensures s.cuts.marks == old(s.cuts.marks)
    ensures Ready(s) && s.lookahead < old(s.lookahead) && (if full then s.out.availOut == 0 else s.out.Clear())
    ensures LookedFor(s, s.S, s.base,
        old(s.ins) + if old(s.lookahead) < MIN_MATCH then {} else {s.base + old(s.strstart)},
        s.base + old(s.strstart), old(s.matchLength), found)
    ensures old(s.matchAvailable) ==> 1 <= s.base + old(s.strstart) <= |s.S|
    ensures old(s.matchLength) >= 3 ==>
      old(s.matchAvailable) && old(s.absMatch) < s.base + old(s.strstart) && old(s.matchLength) <= 258
    ensures s.AllSyms() == old(s.AllSyms()) + Lazily(s.S, s.base + old(s.strstart), old(s.matchAvailable),
        old(s.matchLength), old(s.absMatch), found)
    ensures if old(s.matchLength) >= 3 && found <= old(s.matchLength)
        then s.strstart == old(s.strstart) - 1 + old(s.matchLength) && !s.matchAvailable && s.matchLength == 2
        else s.strstart == old(s.strstart) + 1 && s.matchAvailable && s.matchLength == found
  {
    hide Chains, Rolls, Pow2, HashAt, GoodConfig, Covers, SymsCover, Repeats, WindowHolds, Wrap32, BlockFlush.Fits;
    hide State.Sent, State.Checked, Output.Clear, LookedFor, State.AllSyms, State.AllGood, Ready, Searched;
    ghost var absPrev := s.absMatch;
    HeldBounds(s);
    InsertAndSearch(s);
    found := s.matchLength;
    if s.prevLength >= MIN_MATCH && s.matchLength <= s.prevLength {
      full := AdoptPrevious(s, absPrev);
    } else if s.matchAvailable {
      full := ReplacePrevious(s, absPrev);
    } else {
      NoneHeld(s, absPrev);
      HoldFirst(s, absPrev);
      full := false;
    }
  }

  method Turn(s: State) returns (full: bool)
    requires Ready(s) && s.out.Clear() && s.lookahead >= 1 && s.strstart + MIN_LOOKAHEAD <= 2 * s.wSize
    modifies s`prevLength, s`prevMatch, s`matchLength, s`matchStart, s`absMatch, s`strstart, s`lookahead
    modifies s`matchAvailable
    modifies s`insH, s`ins, s`top, s`syms, s`blocks, s`cuts, s`blockStart, s.out, s.out.buf, s.head, s.prev
    ensures s.cuts.marks == old(s.cuts.marks)
    ensures Ready(s) && s.lookahead < old(s.lookahead) && (if full then s.out.availOut == 0 else s.out.Clear())
  {
    hide *;
    ghost var found;
    full, found := Step(s);
  }

  lemma HeldBounds(s: State)
    requires Ready(s) && s.lookahead >= 1
    ensures s.matchAvailable ==> 1 <= s.base + s.strstart <= |s.S|
    ensures s.matchLength >= 3 ==> s.matchAvailable && s.absMatch < s.base + s.strstart && s.matchLength <= 258
  {
    hide Repeats, WindowHolds, Wrap32, State.Sent, State.Checked, State.AllGood, Covers, SymsCover;
  }

  lemma RepeatsMore(S: seq<byte>, T: seq<byte>, p: nat, dist: nat, len: nat)
    requires Repeats(S, p, dist, len) && S <= T
    ensures Repeats(T, p, dist, len)
  {
    forall i {:trigger T[i]} | p <= i < p + len ensures T[i] == T[i - dist] {
      assert S[i] == S[i - dist];
    }
  }

  /** fill_window() between steps. */
  method Refill(s: State)
    requires Ready(s) && s.out.Clear() && s.lookahead < MIN_LOOKAHEAD
    modifies s`input, s`lookahead, s`S, s`written, s`adler, s`totalIn, s`insH, s`ins, s`top, s`insert, s`matchStart
    modifies s`strstart, s`blockStart, s`base, s`highWater
    modifies s.window, s.head, s.prev
    ensures Ready(s) && s.out.Clear() && s.strstart + MIN_LOOKAHEAD <= 2 * s.wSize
    ensures s.S + s.input == old(s.S + s.input) && old(s.S) <= s.S
    ensures |s.input| + s.lookahead == old(|s.input| + s.lookahead)
    ensures s.lookahead >= MIN_LOOKAHEAD || s.input == []
  {
    hide Chains, Rolls, Pow2, HashAt, GoodConfig, Covers, SymsCover, Repeats, WindowHolds, Wrap32, BlockFlush.Fits;
    hide State.Sent, State.Checked, Output.Clear, State.Chained, State.Rolling, State.NotLast;
    label before:
    s.FillWindow();
    assert |s.S + s.input| == |old(s.S + s.input)|;
    s.EmittedMore@before(s.base + s.strstart - Held(s));
    if s.matchLength >= MIN_MATCH {
      var p := s.base + s.strstart - 1;
      RepeatsMore(old(s.S), s.S, p, p - s.absMatch, s.matchLength);
    }
  }

  /** The remaining input is all in the stream, and all of it is emitted except the byte held back. */
  method FinishHeld(s: State)
    requires Ready(s) && s.out.Clear() && s.lookahead == 0
    modifies s`syms, s`matchAvailable, s`insert
    ensures s.Filled() && s.Chained() && s.Rolling() && s.Emitted(|s.S|) && |s.syms| <= s.symEnd && s.NotLast()
    ensures s.Sent() && s.Checked()
    ensures !s.matchAvailable && s.matchLength == 2 && s.insert == Min(s.strstart, 2)
  {
    hide Chains, Rolls, Pow2, HashAt, GoodConfig, Covers, SymsCover, Repeats, Wrap32, WindowHolds, BlockFlush.Fits;
    hide State.Sent, State.Checked, State.NotLast, State.AllGood;
    if s.matchAvailable {
      var _ := EmitLiteral(s);
      s.matchAvailable := false;
    }
    TopBelow(s);
    s.insert := if s.strstart < MIN_MATCH - 1 then s.strstart else MIN_MATCH - 1;
  }

  lemma RoomAhead(s: State)
    requires Ready(s) && s.out.Clear() && s.lookahead >= MIN_LOOKAHEAD
    ensures s.strstart + MIN_LOOKAHEAD <= 2 * s.wSize && s.lookahead >= 1
  {
  }

  method FlushAtEnd(s: State, flush: Flush) returns (r: BlockState)
    requires Ready(s) && s.out.Clear() && s.lookahead == 0 && s.input == [] && flush != NoFlush
    requires s.strstart + MIN_LOOKAHEAD <= 2 * s.wSize
    modifies s`blocks, s`syms, s`cuts, s`blockStart, s.out, s.out.buf, s`matchAvailable, s`insert
    ensures s.cuts.marks == old(s.cuts.marks)
    ensures flush != Finish ==> (r == NeedMore || r == BlockDone) && s.syms == [] && Ready(s)
    ensures flush == Finish ==>
      (r == FinishStarted || r == FinishDone) && s.Finished() && s.input == [] && s.Sent() && s.Checked()
    ensures if r == BlockDone || r == FinishDone then s.out.Clear() else s.out.availOut == 0
    ensures s.lookahead == 0 && !s.matchAvailable && s.matchLength == 2 && s.insert == Min(s.strstart, 2)
  {
    hide Chains, Rolls, Pow2, HashAt, GoodConfig, Covers, SymsCover, Repeats, WindowHolds, Wrap32, BlockFlush.Fits;
    hide State.Sent, State.Checked, Output.Clear;
    FinishHeld(s);
    r := s.FlushAtEnd(flush);
  }

  /** deflate_slow(), for one call: reading as much input as is there, and going on until it is used up
      or the output space is. Whatever the result, nothing read is lost. */
  method Compress(s: State, flush: Flush) returns (r: BlockState)
    requires Ready(s) && s.out.Clear()
    modifies s, s.window, s.head, s.prev, s.out, s.out.buf
    ensures s.cuts.marks == old(s.cuts.marks)
    ensures s.lead == old(s.lead) && s.given == old(s.given) && s.room == old(s.room)
    ensures s.S + s.input == old(s.S + s.input) && old(s.S) <= s.S
    ensures r == NeedMore ==> Ready(s) && (s.out.availOut == 0 || (s.input == [] && flush == NoFlush))
    ensures r == NeedMore && flush == Finish ==> |s.input| + s.lookahead < old(|s.input| + s.lookahead)
    ensures r == BlockDone ==> Ready(s) && s.input == [] && s.syms == [] && s.lookahead == 0 && !s.matchAvailable
    ensures r == BlockDone ==> flush != NoFlush && flush != Finish && s.out.Clear() && s.insert == Min(s.strstart, 2)
    ensures r == FinishStarted || r == FinishDone ==>
      s.Finished() && s.input == [] && s.lookahead == 0 && s.Sent() && s.Checked() && flush == Finish
    ensures if r == FinishDone then s.out.Clear() else r == FinishStarted ==> s.out.availOut == 0
  {
    hide *;
    while true
      invariant Ready(s) && s.out.Clear()
      invariant s.lead == old(s.lead) && s.given == old(s.given) && s.room == old(s.room)
      invariant s.cuts.marks == old(s.cuts.marks)
      invariant s.S + s.input == old(s.S + s.input) && old(s.S) <= s.S
      invariant |s.input| + s.lookahead <= old(|s.input| + s.lookahead)
      decreases |s.input| + s.lookahead
    {
      if s.lookahead < MIN_LOOKAHEAD {
        Refill(s);
        if s.lookahead < MIN_LOOKAHEAD && flush == NoFlush {
          return NeedMore;
        }
        if s.lookahead == 0 {
          break;
        }
      }
      if s.lookahead >= MIN_LOOKAHEAD {
        RoomAhead(s);
      }
      var full := Turn(s);
      if full {
        return NeedMore;
      }
    }
    r := FlushAtEnd(s, flush);
  }
}
