/** deflate_rle() and deflate_huff(): no dictionary is kept; matches are runs of the previous byte, or
    not looked for at all. */
module DeflateRle {
  import opened Bits
  import opened Lz77
  import opened HashFn
  import opened Window
  import opened BlockStream
  import opened Pending
  import opened DeflateState
  import BlockFlush

  /** The state between steps: everything before the current string is emitted, and no string waits to
      be inserted. */
  ghost predicate Ready(s: State)
    reads s, s.window, s.head, s.prev, s.out, s.out.buf
  {
    && s.Filled() && s.Chained() && s.insert == 0
    && s.Emitted(s.base + s.strstart) && |s.syms| < s.symEnd && s.NotLast() && s.Sent() && s.Checked()
  }

  ghost predicate IsRun(S: seq<byte>, p: nat, len: nat) {
    1 <= p && p + len <= |S| && forall i :: p <= i < p + len ==> S[i] == S[p - 1]
  }

  /** The run of the byte before p is this long, as far as matches go; there is none at window index 0. */
  ghost predicate LongestRun(S: seq<byte>, p: nat, strstart: nat, len: nat) {
    if len < MIN_MATCH then strstart == 0 || !IsRun(S, p, MIN_MATCH)
    else IsRun(S, p, len) && (len < MAX_MATCH && p + len < |S| ==> S[p + len] != S[p - 1])
  }

  lemma RunRepeats(S: seq<byte>, p: nat, len: nat)
    requires IsRun(S, p, len)
    ensures Repeats(S, p, 1, len)
  {
    forall i {:trigger S[i]} | p <= i < p + len ensures S[i] == S[i - 1] {
    }
  }

  /** How far the byte before the current string repeats: at most MAX_MATCH, compared in steps of eight. */
  method RunLength(window: array<byte>, strstart: nat) returns (len: nat)
    requires strstart >= 1 && strstart + MAX_MATCH < window.Length
    requires forall i :: strstart <= i < strstart + MIN_MATCH ==> window[i] == window[strstart - 1]
    ensures MIN_MATCH <= len <= MAX_MATCH
    ensures forall i :: strstart <= i < strstart + len ==> window[i] == window[strstart - 1]
    ensures len < MAX_MATCH ==> window[strstart + len] != window[strstart - 1]
  {
    var prev := window[strstart - 1];
    var scan := strstart + 2;
    while true
      invariant strstart + 2 <= scan < strstart + MAX_MATCH
      invariant forall i :: strstart <= i <= scan ==> window[i] == prev
      decreases strstart + MAX_MATCH - scan
    {
      scan := scan + 1;
      if window[scan] != prev {
        break;
      }
      if (scan - strstart - 2) % 8 == 0 && scan >= strstart + MAX_MATCH {
        break;
      }
      EighthStep(scan - strstart);
    }
    len := MAX_MATCH - (strstart + MAX_MATCH - scan);
  }

  method FindRun(s: State)
    requires s.Filled() && s.strstart + MAX_MATCH < 2 * s.wSize
    modifies s`matchLength
    ensures s.Filled()
    ensures s.matchLength >= MIN_MATCH ==> s.strstart >= 1
    ensures s.matchLength >= MIN_MATCH ==>
      s.matchLength <= MAX_MATCH && s.matchLength <= s.lookahead && IsRun(s.S, s.base + s.strstart, s.matchLength)
    ensures LongestRun(s.S, s.base + s.strstart, s.strstart, s.matchLength)
  {
    hide GoodConfig, Pow2, Wrap32, BlockFlush.Fits, State.Sent, State.Checked, Output.Clear;
    s.matchLength := 0;
    if s.lookahead >= MIN_MATCH && s.strstart > 0 {
      var prev := s.window[s.strstart - 1];
      if s.window[s.strstart] == prev && s.window[s.strstart + 1] == prev && s.window[s.strstart + 2] == prev {
        s.matchLength := RunLength(s.window, s.strstart);
        if s.matchLength > s.lookahead {
          s.matchLength := s.lookahead;
        }
        RunInStream(s.window, s.S, s.base, s.strstart, s.matchLength);
      }
      RunEnds(s.window, s.S, s.base, s.strstart, s.matchLength);
    }
  }

  lemma RunEnds(window: array<byte>, S: seq<byte>, base: nat, strstart: nat, len: nat)
    requires WindowHolds(window, S, base) && strstart >= 1 && base + strstart + MIN_MATCH <= |S|
    requires base + strstart + len <= |S|
    ensures len >= MIN_MATCH && base + strstart + len < |S| && window[strstart + len] != window[strstart - 1] ==>
      S[base + strstart + len] != S[base + strstart - 1]
    ensures !(window[strstart] == window[strstart + 1] == window[strstart + 2] == window[strstart - 1]) ==>
      !IsRun(S, base + strstart, MIN_MATCH)
  {
    assert window[strstart - 1] == S[base + (strstart - 1)];
    assert window[strstart] == S[base + strstart] && window[strstart + 1] == S[base + (strstart + 1)];
    assert window[strstart + 2] == S[base + (strstart + 2)];
    var q := base + strstart;
    assert IsRun(S, q, MIN_MATCH) ==> S[q] == S[q - 1] && S[q + 1] == S[q - 1] && S[q + 2] == S[q - 1];
  }

  lemma RunInStream(window: array<byte>, S: seq<byte>, base: nat, strstart: nat, len: nat)
    requires WindowHolds(window, S, base) && strstart >= 1 && base + strstart + len <= |S|
    requires forall i :: strstart <= i < strstart + len ==> window[i] == window[strstart - 1]
    ensures IsRun(S, base + strstart, len)
  {
    assert window[strstart - 1] == S[base + (strstart - 1)];
    forall i | base + strstart <= i < base + strstart + len ensures S[i] == S[base + strstart - 1] {
      assert window[i - base] == S[base + (i - base)];
    }
  }

  /** Between tallying a symbol and flushing the block, if it is full. */
  ghost predicate Tallied(s: State, bflush: bool)
    reads s, s.window, s.head, s.prev, s.out, s.out.buf
  {
    && s.Filled() && s.Chained() && s.insert == 0 && s.Emitted(s.base + s.strstart) && |s.syms| <= s.symEnd
    && (bflush <==> |s.syms| == s.symEnd) && s.NotLast() && s.Sent() && s.Checked()
  }

  method TallyRun(s: State) returns (bflush: bool)
    requires Ready(s) && MIN_MATCH <= s.matchLength <= MAX_MATCH && s.matchLength <= s.lookahead && s.reach >= 1
    requires IsRun(s.S, s.base + s.strstart, s.matchLength)
    requires 1 <= s.strstart && s.strstart + s.matchLength < 2 * s.wSize
    modifies s`syms, s`lookahead, s`strstart, s`matchLength
    ensures Tallied(s, bflush) && s.syms == old(s.syms) + [Sym(1, old(s.matchLength) - 3)]
    ensures s.strstart == old(s.strstart + s.matchLength) && s.lookahead == old(s.lookahead - s.matchLength)
  {
    hide Chains, Pow2, GoodConfig, Covers, SymsCover, Repeats, WindowHolds, Wrap32, BlockFlush.Fits, State.Sent;
    hide State.Checked, State.AllGood;
    RunRepeats(s.S, s.base + s.strstart, s.matchLength);
    bflush := s.TallyDist(1, s.matchLength, s.base + s.strstart);
    s.lookahead := s.lookahead - s.matchLength;
    s.strstart := s.strstart + s.matchLength;
    s.matchLength := 0;
  }

  method TallyByte(s: State) returns (bflush: bool)
    requires Ready(s) && s.lookahead >= 1
    modifies s`syms, s`lookahead, s`strstart
    ensures s.base + old(s.strstart) < |s.S|
    ensures Tallied(s, bflush) && s.syms == old(s.syms) + [Sym(0, s.S[s.base + old(s.strstart)])]
    ensures s.strstart == old(s.strstart) + 1 && s.lookahead == old(s.lookahead) - 1
  {
    hide Chains, Pow2, GoodConfig, Covers, SymsCover, WindowHolds, Wrap32, BlockFlush.Fits, State.Sent, State.Checked;
    hide State.AllGood;
    WindowAt(s.window, s.S, s.base, s.strstart);
    bflush := s.TallyLit(s.window[s.strstart], s.base + s.strstart);
    s.lookahead := s.lookahead - 1;
    s.strstart := s.strstart + 1;
  }

  /** FLUSH_BLOCK(s, 0). */
  method Flush(s: State, bflush: bool) returns (full: bool)
    requires Tallied(s, bflush) && s.out.Clear() && s.Storable()
    modifies s`syms, s`blocks, s`cuts, s`blockStart, s.out, s.out.buf
    ensures Ready(s) && (if full then s.out.availOut == 0 else s.out.Clear()) && s.cuts.marks == old(s.cuts.marks)
    ensures s.AllSyms() == old(s.AllSyms())
    ensures if bflush then s.syms == [] && s.blockStart == s.strstart
        else s.syms == old(s.syms) && s.blockStart == old(s.blockStart)
  {
    hide Chains, Pow2, GoodConfig, Covers, SymsCover, WindowHolds, Wrap32, BlockFlush.Fits, State.Sent, State.Checked;
    hide State.AllGood, State.AllSyms, Output.Clear;
    s.FlushIfFull(bflush);
    full := bflush && s.out.availOut == 0;
  }

  lemma RoomToStore(s: State)
    requires Ready(s)
    ensures 2 * s.wSize <= 0x1_0000
  {
  }

  method EmitRun(s: State) returns (full: bool)
    requires Ready(s) && s.out.Clear() && MIN_MATCH <= s.matchLength <= MAX_MATCH && s.matchLength <= s.lookahead
    requires s.reach >= 1
    requires IsRun(s.S, s.base + s.strstart, s.matchLength)
    requires 1 <= s.strstart && s.strstart + s.matchLength < 2 * s.wSize
    modifies s`syms, s`lookahead, s`strstart, s`matchLength, s`blocks, s`cuts, s`blockStart, s.out, s.out.buf
    ensures s.cuts.marks == old(s.cuts.marks)
    ensures s.AllSyms() == old(s.AllSyms()) + [Sym(1, old(s.matchLength) - 3)]
    ensures s.strstart == old(s.strstart + s.matchLength)
    ensures Ready(s) && s.lookahead < old(s.lookahead) && (if full then s.out.availOut == 0 else s.out.Clear())
  {
    hide Ready, Tallied, IsRun, State.AllSyms, Output.Clear, State.Sent;
    RoomToStore(s);
    var bflush := TallyRun(s);
    s.OneSymMore(Sym(1, old(s.matchLength) - 3));
    full := Flush(s, bflush);
  }

  method EmitLiteral(s: State) returns (full: bool)
    requires Ready(s) && s.out.Clear() && s.lookahead >= 1
    requires (s.blockStart >= 0 ==> s.strstart + 1 - s.blockStart < 0x1_0000)
    modifies s`syms, s`lookahead, s`strstart, s`blocks, s`cuts, s`blockStart, s.out, s.out.buf
    ensures s.cuts.marks == old(s.cuts.marks)
    ensures old(s.strstart - s.blockStart == |s.syms|) ==> s.strstart - s.blockStart == |s.syms|
    ensures s.strstart == old(s.strstart) + 1 && s.base + old(s.strstart) < |s.S|
    ensures s.AllSyms() == old(s.AllSyms()) + [Sym(0, s.S[s.base + old(s.strstart)])]
    ensures Ready(s) && s.lookahead < old(s.lookahead) && (if full then s.out.availOut == 0 else s.out.Clear())
  {
    hide Ready, Tallied, State.AllSyms, Output.Clear;
    var bflush := TallyByte(s);
    s.OneSymMore(Sym(0, s.S[s.base + old(s.strstart)]));
    full := Flush(s, bflush);
  }

  /** One step: the run found at the current string, or its first byte. */
  method Step(s: State) returns (full: bool, ghost run: nat)
    requires Ready(s) && s.out.Clear() && s.lookahead >= 1 && s.strstart + MAX_MATCH < 2 * s.wSize && s.reach >= 1
    modifies s`matchLength, s`strstart, s`lookahead, s`syms, s`blocks, s`cuts, s`blockStart, s.out, s.out.buf
    ensures s.cuts.marks == old(s.cuts.marks)
    ensures Ready(s) && s.lookahead < old(s.lookahead) && (if full then s.out.availOut == 0 else s.out.Clear())
    ensures s.base + old(s.strstart) < |s.S| && run <= 258
    ensures LongestRun(s.S, s.base + old(s.strstart), old(s.strstart), run)
    ensures s.AllSyms() == old(s.AllSyms())
        + [if run >= 3 then Sym(1, run - 3) else Sym(0, s.S[s.base + old(s.strstart)])]
    ensures s.strstart == old(s.strstart) + if run >= 3 then run else 1
  {
    hide Chains, Pow2, GoodConfig, Covers, SymsCover, WindowHolds, Wrap32, BlockFlush.Fits, State.Sent, State.Checked;
    hide Output.Clear, State.AllGood, State.AllSyms, IsRun, LongestRun;
    FindRun(s);
    run := if s.matchLength >= MIN_MATCH then s.matchLength else 0;
    NoShortRun(s.S, s.base + s.strstart, s.strstart, s.matchLength);
    if s.matchLength >= MIN_MATCH {
      full := EmitRun(s);
    } else {
      full := EmitLiteral(s);
    }
  }

  lemma NoShortRun(S: seq<byte>, p: nat, strstart: nat, len: nat)
    requires LongestRun(S, p, strstart, len)
    ensures len < MIN_MATCH ==> LongestRun(S, p, strstart, 0)
  {
  }

  method Refill(s: State)
    requires Ready(s) && s.out.Clear() && s.lookahead < MIN_LOOKAHEAD
    modifies s`input, s`lookahead, s`S, s`written, s`adler, s`totalIn, s`insH, s`ins, s`top, s`insert, s`matchStart
    modifies s`strstart, s`blockStart, s`base, s`highWater
    modifies s.window, s.head, s.prev
    ensures Ready(s) && s.out.Clear() && s.strstart + MAX_MATCH < 2 * s.wSize
    ensures s.S + s.input == old(s.S + s.input) && old(s.S) <= s.S
    ensures |s.input| + s.lookahead == old(|s.input| + s.lookahead)
    ensures s.lookahead >= MIN_LOOKAHEAD || s.input == []
    ensures s.strstart - s.blockStart == old(s.strstart - s.blockStart)
  {
    hide Chains, Rolls, Pow2, GoodConfig, Covers, SymsCover, WindowHolds, Wrap32, BlockFlush.Fits, State.Sent;
    hide State.Checked, Output.Clear;
    label before:
    s.FillWindow();
    assert |s.S + s.input| == |old(s.S + s.input)|;
    s.EmittedMore@before(s.base + s.strstart);
  }

  method FlushAtEnd(s: State, flush: Flush) returns (r: BlockState)
    requires Ready(s) && s.out.Clear() && s.lookahead == 0 && s.input == [] && flush != NoFlush
    requires s.strstart + MAX_MATCH < 2 * s.wSize
    modifies s`blocks, s`syms, s`cuts, s`blockStart, s.out, s.out.buf, s`insert
    ensures s.cuts.marks == old(s.cuts.marks)
    ensures flush != Finish ==> (r == NeedMore || r == BlockDone) && s.syms == [] && Ready(s)
    ensures flush == Finish ==>
      (r == FinishStarted || r == FinishDone) && s.Finished() && s.input == [] && s.Sent() && s.Checked()
    ensures if r == BlockDone || r == FinishDone then s.out.Clear() else s.out.availOut == 0
    ensures s.lookahead == 0 && s.blockStart == s.strstart
  {
    hide Chains, Pow2, GoodConfig, Covers, SymsCover, WindowHolds, Wrap32, BlockFlush.Fits, State.Sent, State.Checked;
    hide Output.Clear;
    s.insert := 0;
    r := s.FlushAtEnd(flush);
  }

  lemma RoomAhead(s: State)
    requires Ready(s) && s.out.Clear() && s.lookahead > MAX_MATCH
    ensures s.strstart + MAX_MATCH < 2 * s.wSize && s.lookahead >= 1
  {
  }

  lemma FillConditions()
    ensures MIN_LOOKAHEAD > MAX_MATCH && MIN_LOOKAHEAD > 0
  {
  }

  /** deflate_rle(), for one call. */
  method Compress(s: State, flush: Flush) returns (r: BlockState)
    requires Ready(s) && s.out.Clear() && s.reach >= 1
    modifies s, s.window, s.head, s.prev, s.out, s.out.buf
    ensures s.cuts.marks == old(s.cuts.marks)
    ensures s.lead == old(s.lead) && s.given == old(s.given) && s.room == old(s.room)
    ensures s.S + s.input == old(s.S + s.input) && old(s.S) <= s.S
    ensures r == NeedMore ==> Ready(s) && (s.out.availOut == 0 || (s.input == [] && flush == NoFlush))
    ensures r == NeedMore && flush == Finish ==> |s.input| + s.lookahead < old(|s.input| + s.lookahead)
    ensures r == BlockDone ==> Ready(s) && s.input == [] && s.syms == [] && s.lookahead == 0 && flush != NoFlush
    ensures r == BlockDone ==> flush != Finish && s.out.Clear()
    ensures r == FinishStarted || r == FinishDone ==>
      s.Finished() && s.input == [] && s.lookahead == 0 && s.Sent() && s.Checked() && flush == Finish
    ensures if r == FinishDone then s.out.Clear() else r == FinishStarted ==> s.out.availOut == 0
  {
    hide *;
    while true
      invariant Ready(s) && s.out.Clear()
      invariant s.lead == old(s.lead) && s.given == old(s.given) && s.room == old(s.room)
      invariant s.cuts.marks == old(s.cuts.marks)
      invariant s.S + s.input == old(s.S + s.input) && old(s.S) <= s.S
      invariant |s.input| + s.lookahead <= old(|s.input| + s.lookahead)
      decreases |s.input| + s.lookahead
    {
      FillConditions();
      if s.lookahead <= MAX_MATCH {
        Refill(s);
        if s.lookahead <= MAX_MATCH && flush == NoFlush {
          return NeedMore;
        }
        if s.lookahead == 0 {
          break;
        }
      }
      if s.lookahead > MAX_MATCH {
        RoomAhead(s);
      }
      var full, _ := Step(s);
      if full {
        return NeedMore;
      }
    }
    r := FlushAtEnd(s, flush);
  }
}

module DeflateHuff {
  import opened Lz77
  import opened Pending
  import opened DeflateState
  import DeflateRle

  method RefillBytes(s: State)
    requires Ready(s) && s.out.Clear() && s.lookahead == 0
    modifies s`input, s`lookahead, s`S, s`written, s`adler, s`totalIn, s`insH, s`ins, s`top, s`insert, s`matchStart
    modifies s`strstart, s`blockStart, s`base, s`highWater
    modifies s.window, s.head, s.prev
    ensures Ready(s) && s.out.Clear() && s.strstart + MAX_MATCH < 2 * s.wSize
    ensures s.S + s.input == old(s.S + s.input) && old(s.S) <= s.S
    ensures |s.input| + s.lookahead == old(|s.input| + s.lookahead)
    ensures s.lookahead > 0 || s.input == []
  {
    hide *;
    DeflateRle.FillConditions();
    SymbolsFit(s);
    DeflateRle.Refill(s);
    SymbolsAreBytes(s);
  }

  /** The next byte as a literal. */
  method EmitByte(s: State) returns (full: bool)
    requires Ready(s) && s.out.Clear() && s.lookahead >= 1
    modifies s`matchLength, s`syms, s`lookahead, s`strstart, s`blocks, s`cuts, s`blockStart, s.out, s.out.buf
    ensures s.cuts.marks == old(s.cuts.marks)
    ensures Ready(s) && s.lookahead < old(s.lookahead) && if full then s.out.availOut == 0 else s.out.Clear()
    ensures s.strstart == old(s.strstart) + 1 && s.base + old(s.strstart) < |s.S|
    ensures s.AllSyms() == old(s.AllSyms()) + [Sym(0, s.S[s.base + old(s.strstart)])]
  {
    hide *;
    ForgetMatch(s);
    SymbolsFit(s);
    full := DeflateRle.EmitLiteral(s);
    SymbolsAreBytes(s);
  }

  /** Every symbol is one byte. */
  ghost predicate Ready(s: State)
    reads s, s.window, s.head, s.prev, s.out, s.out.buf
  {
    DeflateRle.Ready(s) && s.strstart - s.blockStart == |s.syms|
  }

  lemma SymbolsFit(s: State)
    requires Ready(s)
    ensures DeflateRle.Ready(s) && s.strstart + 1 - s.blockStart < 0x1_0000 && s.strstart - s.blockStart == |s.syms|
  {
  }

  lemma SymbolsAreBytes(s: State)
    requires DeflateRle.Ready(s) && s.strstart - s.blockStart == |s.syms|
    ensures Ready(s)
  {
  }

  /** deflate_huff(), for one call: every byte is a literal. */
  method Compress(s: State, flush: Flush) returns (r: BlockState)
    requires Ready(s) && s.out.Clear()
    modifies s, s.window, s.head, s.prev, s.out, s.out.buf
    ensures s.cuts.marks == old(s.cuts.marks)
    ensures s.lead == old(s.lead) && s.given == old(s.given) && s.room == old(s.room)
    ensures s.S + s.input == old(s.S + s.input) && old(s.S) <= s.S
    ensures r == NeedMore ==> Ready(s) && (s.out.availOut == 0 || (s.input == [] && flush == NoFlush))
    ensures r == NeedMore && flush == Finish ==> |s.input| + s.lookahead < old(|s.input| + s.lookahead)
    ensures r == BlockDone ==> Ready(s) && s.input == [] && s.syms == [] && s.lookahead == 0 && flush != NoFlush
    ensures r == BlockDone ==> flush != Finish && s.out.Clear()
    ensures r == FinishStarted || r == FinishDone ==>
      s.Finished() && s.input == [] && s.lookahead == 0 && s.Sent() && s.Checked() && flush == Finish
    ensures if r == FinishDone then s.out.Clear() else r == FinishStarted ==> s.out.availOut == 0
  {
    hide *;
    while true
      invariant Ready(s) && s.out.Clear()
      invariant s.lead == old(s.lead) && s.given == old(s.given) && s.room == old(s.room)
      invariant s.cuts.marks == old(s.cuts.marks)
      invariant s.S + s.input == old(s.S + s.input) && old(s.S) <= s.S
      invariant |s.input| + s.lookahead <= old(|s.input| + s.lookahead)
      decreases |s.input| + s.lookahead
    {
      if s.lookahead == 0 {
        RefillBytes(s);
        if s.lookahead == 0 {
          if flush == NoFlush {
            return NeedMore;
          }
          break;
        }
      }
      var full := EmitByte(s);
      if full {
        return NeedMore;
      }
    }
    SymbolsFit(s);
    r := DeflateRle.FlushAtEnd(s, flush);
    NoSymbols(s);
  }

  method ForgetMatch(s: State)
    requires Ready(s) && s.out.Clear()
    modifies s`matchLength
    ensures Ready(s) && s.out.Clear()
  {
    hide State.Filled, State.Chained, State.Emitted, State.NotLast, State.Sent, State.Checked, Output.Clear;
    s.matchLength := 0;
  }

  lemma NoSymbols(s: State)
    ensures DeflateRle.Ready(s) && s.syms == [] && s.blockStart == s.strstart ==> Ready(s)
  {
  }
}
