/** The state of the compressor and the operations that maintain its window: reading input, sliding,
    inserting strings, tallying symbols and flushing blocks. */
module DeflateState {
  import opened Bits
  import opened Lz77
  import opened HashFn
  import opened Window
  import opened Pending
  import opened BlockTrees
  import opened BlockStream
  import opened BlockFlush
  import opened CheckValue
  import opened LongestMatch

  datatype Flush = NoFlush | PartialFlush | SyncFlush | FullFlush | Finish | BlockFlush
  datatype BlockState = NeedMore | BlockDone | FinishStarted | FinishDone

  class State {
    const wSize: nat
    const c: HashConfig
    const symEnd: nat
    const window: array<byte>
    const prev: array<Pos>
    const head: array<Pos>

    // Tuning parameters of the compression level.
    const maxChainLength: nat
    const maxLazyMatch: nat
    const goodMatch: nat
    const niceMatch: nat
    const filtered: bool

    // The wrapper chosen, what is needed to encode blocks of symbols, and where output goes.
    const wrap: Wrap
    const kit: Kit
    const out: Output

    var insH: nat
    var blockStart: int
    var matchLength: nat
    var prevMatch: u32
    var matchAvailable: bool
    var strstart: nat
    var matchStart: u32
    var lookahead: nat
    var prevLength: nat
    var insert: nat
    var highWater: nat
    var syms: seq<Sym>

    // What the strategy allows: distances up to `reach`, and stored blocks of data only if `stores`.
    ghost const reach: nat
    ghost const stores: bool

    // The stream: input not yet read, the check value and length of what was read, and the blocks handed
    // over for encoding.
    var input: seq<byte>
    var adler: u32
    var totalIn: nat
    var blocks: seq<Block>

    // All input read, the stream position of window index 0, that of the start of the current match,
    // the strings inserted into the dictionary and the last of them, where blocks end, and how much of
    // the window has been written.
    ghost var S: seq<byte>
    ghost var base: nat
    ghost var absMatch: int
    ghost var ins: set<nat>
    ghost var top: int
    ghost var cuts: Cuts
    ghost var written: nat

    // Of the current call: the bytes that precede the compressed data, those delivered by earlier calls,
    // and all output space offered so far.
    ghost var lead: seq<byte>
    ghost var given: seq<byte>
    ghost var room: nat

    ghost predicate Shape() {
      && 512 <= wSize <= 0x8000 && GoodConfig(c) && 1 <= symEnd < 0x8000
      && window.Length == 2 * wSize && prev.Length == wSize && head.Length == Pow2(c.bits)
      && prev != head && window as object != prev && window as object != head
      && out.buf != window && out.buf as object != prev && out.buf as object != head
      && out.size >= 512 && Fits(kit, symEnd, out.size)
    }

    /** The allocations of deflateInit2_(), and the reset: four bytes of pending buffer for each symbol the
        symbol buffer could hold, of which it holds one less. */
    constructor (wSize: nat, c: HashConfig, litBufsize: nat, wrap: Wrap, fixed: bool, maxChainLength: nat,
        maxLazyMatch: nat, goodMatch: nat, niceMatch: nat, filtered: bool, ghost reach: nat, ghost stores: bool)
      requires 512 <= wSize <= 0x8000 && GoodConfig(c) && 128 <= litBufsize <= 0x8000
      ensures Initial() && Sent() && out.Clear() && Checked()
      ensures lead == [] && given == [] && input == []
      ensures this.wSize == wSize && this.c == c && symEnd == litBufsize - 1 && out.size == 4 * litBufsize
      ensures this.wrap == wrap && kit.fixed == fixed && this.maxChainLength == maxChainLength
      ensures this.maxLazyMatch == maxLazyMatch && this.goodMatch == goodMatch && this.niceMatch == niceMatch
      ensures this.filtered == filtered && this.reach == reach && this.stores == stores
      ensures fresh(window) && fresh(prev) && fresh(head) && fresh(out) && fresh(out.buf)
    {
      hide Pow2, GoodConfig, GoodKit, Filled, Chained, Sent, Output.Clear, Checked;
      this.wSize, this.c, this.symEnd, this.wrap := wSize, c, litBufsize - 1, wrap;
      var k := MakeKit(fixed);
      kit := k;
      this.maxChainLength, this.maxLazyMatch, this.goodMatch, this.niceMatch := maxChainLength, maxLazyMatch,
          goodMatch, niceMatch;
      this.filtered := filtered;
      this.reach, this.stores := reach, stores;
      window := new byte[2 * wSize];
      prev := new Pos[wSize];
      head := new Pos[Pow2(c.bits)];
      out := new Output(4 * litBufsize);
      input, highWater, written := [], 0, 0;
      new;
      Reset();
    }

    /** deflateReset(). */
    method Reset()
      requires Shape() && out.buf.Length == out.size && highWater <= written <= 2 * wSize
      modifies this, head, out
      ensures Initial() && Sent() && out.Clear() && Checked() && lead == [] && given == [] && input == old(input)
    {
      hide *;
      ResetKeep();
      LmInit();
    }

    /** deflateResetKeep(): nothing emitted or pending, and the check value of no data. */
    method ResetKeep()
      requires Shape() && out.buf.Length == out.size
      modifies `blocks, `cuts, `lead, `given, `room, `adler, `totalIn, `S, out
      ensures Sent() && out.Clear() && Checked() && adler == Start(wrap) && lead == [] && given == [] && blocks == []
      ensures cuts == NO_CUTS && S == []
    {
      hide Pow2, GoodConfig, Fits, ByteBits, LowBits, CheckFrom, MarksPlaced, StreamBits;
      NothingPlaced(kit.fixed);
      out.Reset();
      S := [];
      blocks, cuts, lead, given, room := [], NO_CUTS, [], [], out.availOut;
      adler, totalIn := Start(wrap), 0;
      CheckEmpty(wrap);
    }

    /** lm_init(): an empty window and no string known. */
    method LmInit()
      requires Shape() && highWater <= written <= 2 * wSize && S == [] && blocks == [] && cuts == NO_CUTS
      modifies `base, `ins, `top, `syms, `strstart, `blockStart, `lookahead, `insert, `matchLength, `prevLength
      modifies `matchAvailable, `insH, `absMatch, head
      ensures Initial()
    {
      hide Pow2, GoodConfig, Chains, Fits, Initial;
      ForgetStrings();
      ForgetData();
      ItIsInitial();
    }

    method ForgetStrings()
      requires Shape()
      modifies `base, `ins, `top, `insert, `insH, `absMatch, head
      ensures base == 0 && ins == {} && top == -1 && insert == 0 && absMatch == matchStart
      ensures Chains(head[..], prev[..], c, S, 0, {}, -1)
    {
      hide Pow2, GoodConfig, Chains, Fits;
      base, ins, top, absMatch := 0, {}, -1, matchStart;
      insert, insH := 0, 0;
      ClearHash(head, prev, c, S, 0);
    }

    method ForgetData()
      modifies `syms, `strstart, `blockStart, `lookahead, `matchLength, `prevLength, `matchAvailable
      ensures strstart == 0 && lookahead == 0 && blockStart == 0 && syms == []
      ensures !matchAvailable && matchLength == 2 && prevLength == 2
    {
      strstart, blockStart, lookahead, syms := 0, 0, 0, [];
      matchLength, prevLength, matchAvailable := MIN_MATCH - 1, MIN_MATCH - 1, false;
    }

    lemma ItIsInitial()
      requires Shape() && highWater <= written <= 2 * wSize && S == [] && base == 0
      requires Chains(head[..], prev[..], c, [], 0, {}, -1)
      requires ins == {} && top == -1 && absMatch == matchStart
      requires strstart == 0 && lookahead == 0 && blockStart == 0 && insert == 0
      requires blocks == [] && syms == [] && cuts == NO_CUTS && !matchAvailable && matchLength == 2 && prevLength == 2
      ensures Initial()
    {
      hide Pow2, GoodConfig, Chains, Fits;
    }

    /** The state before the first input. */
    ghost predicate Initial()
      reads `strstart, `lookahead, `S, `base, `matchStart, `absMatch, `written, `highWater, `ins, `top, `insert
      reads `blockStart, `blocks, `syms, `cuts, `matchAvailable, `matchLength, `prevLength, window, head, prev
    {
      && Filled() && Chained() && S == [] && strstart == 0 && lookahead == 0 && blockStart == 0 && insert == 0
      && blocks == [] && syms == [] && cuts == NO_CUTS && !matchAvailable && matchLength == 2 && prevLength == 2
    }

    /** The check value is that of all input read. */
    ghost predicate Checked()
      reads `adler, `S, `totalIn
    {
      adler == CheckOf(wrap, S) && totalIn == |S|
    }

    /** The blocks have been sent in order, after the bytes that precede them, and what was delivered
        before the call is delivered still. */
    ghost predicate Sent()
      reads `blocks, `cuts, `lead, `given, `room, out, out.buf
    {
      && out.Rest() && out.Lead() == lead && out.BitStream() == StreamBits(kit.fixed, blocks)
      && MarksPlaced(kit.fixed, blocks, cuts.marks)
      && given <= out.delivered && |out.delivered| + out.availOut == room
    }

    /** The window holds the input read, ending with the lookahead. */
    ghost predicate Filled()
      reads `strstart, `lookahead, `S, `base, `matchStart, `absMatch, `written, `highWater, window
    {
      && Shape()
      && strstart + lookahead <= 2 * wSize && |S| == base + strstart + lookahead
      && WindowHolds(window, S, base)
      && matchStart == Wrap32(absMatch - base)
      && strstart + lookahead <= written && highWater <= written <= 2 * wSize
    }

    /** The chains know only strings before the ones waiting to be inserted. */
    ghost predicate Chained()
      requires Shape()
      reads `S, `base, `ins, `top, `insert, `strstart, `lookahead, head, prev
    {
      && Chains(head[..], prev[..], c, S, base, ins, top)
      && insert <= strstart && top < base + strstart - insert
      && (insert > 0 ==> lookahead + insert < MIN_MATCH)
    }

    /** With three bytes ahead the running hash is ready for the current string. */
    ghost predicate Rolling()
      reads `lookahead, `base, `strstart, `S, `insH
    {
      lookahead >= MIN_MATCH && base + strstart + 1 < |S| ==> Rolls(c, insH, S[base + strstart], S[base + strstart + 1])
    }

    /** What has been emitted stands for S[..done]: whole blocks up to cut, then the pending symbols. */
    ghost predicate Emitted(done: nat)
      reads `base, `blockStart, `S, `blocks, `cuts, `syms
    {
      && base + blockStart >= 0 && base + blockStart <= done <= |S| && Fresh(cuts) <= base
      && Covers(blocks, cuts, S, base + blockStart) && !stores && AllGood(blocks)
      && SymsCover(syms, S, Fresh(cuts), base + blockStart, done)
      && (forall i :: 0 <= i < |syms| ==> GoodSym(syms[i]))
    }

    /** The same, for blocks not yet on record. */
    ghost predicate EmittedAs(before: seq<Block>, done: nat)
      reads `base, `blockStart, `S, `cuts, `syms
    {
      && base + blockStart >= 0 && base + blockStart <= done <= |S| && Fresh(cuts) <= base
      && Covers(before, cuts, S, base + blockStart) && !stores && AllGood(before)
      && SymsCover(syms, S, Fresh(cuts), base + blockStart, done) && InReach(syms)
      && (forall i :: 0 <= i < |syms| ==> GoodSym(syms[i]))
    }

    /** Distances up to MAX_DIST, and no further than the strategy allows. */
    ghost predicate GoodSym(s: Sym) {
      s.dist + MIN_LOOKAHEAD <= wSize && s.dist <= reach
    }

    /** Blocks hold only such symbols; data is stored only where nothing is compressed. */
    ghost predicate GoodBlock(b: Block) {
      && (b.form == Tallied ==> !stores && forall i :: 0 <= i < |b.syms| ==> GoodSym(b.syms[i]))
      && (b.form == Stored ==> stores || b.verbatim == Some([]))
    }

    ghost predicate AllGood(bs: seq<Block>) {
      forall i :: 0 <= i < |bs| ==> GoodBlock(bs[i])
    }

    lemma MoreGood(bs: seq<Block>, b: Block)
      requires AllGood(bs) && GoodBlock(b)
      ensures AllGood(bs + [b])
    {
    }

    /** All symbols tallied so far. */
    ghost function AllSyms(): seq<Sym>
      reads `blocks, `syms
    {
      BlockSyms(blocks) + syms
    }

    twostate lemma OneSymMore(x: Sym)
      requires blocks == old(blocks) && syms == old(syms) + [x]
      ensures AllSyms() == old(AllSyms()) + [x]
    {
    }

    ghost predicate NotLast()
      reads `blocks
    {
      forall i :: 0 <= i < |blocks| ==> !blocks[i].last
    }

    // read_buf() and fill_window().

    /** Appends to the window as much input as fits into `more` bytes. */
    method ReadBuf(more: nat) returns (n: nat)
      requires Filled() && strstart + lookahead + more <= 2 * wSize
      modifies `input, `lookahead, `S, `written, `adler, `totalIn, window
      ensures Filled() && (old(Checked()) ==> Checked()) && n == (if |old(input)| <= more then |old(input)| else more)
      ensures lookahead == old(lookahead) + n
      ensures S == old(S) + old(input)[..n] && input == old(input)[n..] && S + input == old(S + input)
    {
      hide Wrap32, GoodConfig, Pow2, CheckFrom, Start, Fits, WindowHolds;
      n := |input|;
      if n > more {
        n := more;
      }
      if n == 0 {
        assert S + input[..0] == S;
        return;
      }
      CopyIn(n);
      adler := CheckFrom(wrap, adler, input[..n]);
      totalIn := totalIn + n;
      CheckConcat(wrap, Start(wrap), S, input[..n]);
      S := S + input[..n];
      input := input[n..];
      lookahead := lookahead + n;
      written := if written < strstart + lookahead then strstart + lookahead else written;
    }

    method CopyIn(n: nat)
      requires Filled() && n <= |input| && strstart + lookahead + n <= 2 * wSize
      modifies window
      ensures WindowHolds(window, S + input[..n], base)
    {
      hide Wrap32, GoodConfig, Pow2, Fits;
      var at := strstart + lookahead;
      forall i | 0 <= i < n {
        window[at + i] := input[i];
      }
      forall i | 0 <= i < |S| + n - base
        ensures window[i] == (S + input[..n])[base + i]
      {
        if i >= at {
          assert window[at + (i - at)] == input[i - at];
        }
      }
    }

    /** The copy of the upper half of the window to the lower half: exactly the live bytes. */
    method MoveDown(n: nat)
      requires Filled() && n == strstart + lookahead - wSize <= wSize
      modifies window
      ensures forall i :: 0 <= i < n ==> window[i] == S[base + wSize + i]
    {
      forall i | 0 <= i < n {
        window[i] := window[wSize + i];
      }
    }

    method MoveTables(n: nat)
      requires Filled() && n == strstart + lookahead - wSize <= wSize
      requires Chains(head[..], prev[..], c, S, base, ins, top)
      modifies window, head, prev
      ensures forall i :: 0 <= i < n ==> window[i] == S[base + wSize + i]
      ensures Chains(head[..], prev[..], c, S, base + wSize, ins, top)
    {
      hide GoodConfig, Pow2, Chains, WindowHolds, Wrap32, Fits, Down;
      MoveDown(n);
      assert head[..] == old(head[..]) && prev[..] == old(prev[..]);
      SlideHash(head, prev, c, S, base, ins, top);
    }

    /** The move of the upper half of the window to the lower half, with all positions rebased. */
    method Slide()
      requires Filled() && Chained() && strstart >= wSize + (wSize - MIN_LOOKAHEAD)
      modifies `matchStart, `strstart, `blockStart, `insert, `base, window, head, prev
      ensures Filled() && Chained() && (old(Rolling()) ==> Rolling())
      ensures base == old(base) + wSize && strstart == old(strstart) - wSize && blockStart == old(blockStart) - wSize
      ensures insert == old(insert)
    {
      hide GoodConfig, Pow2, Rolls, Chains, WindowHolds, Wrap32, Fits, Down;
      var more := 2 * wSize - lookahead - strstart;
      MoveTables(wSize - more);
      WrapDown(absMatch - base, wSize);
      matchStart := Wrap32(matchStart - wSize);
      strstart := strstart - wSize;
      blockStart := blockStart - wSize;
      base := base + wSize;
      WindowFrom(window, S, base);
      insert := Min(insert, strstart);
    }

    // INSERT_STRING.

    /** UPDATE_HASH over the third byte of the string at index str, then linking it in. */
    method InsertString(str: nat) returns (matchHead: Pos)
      requires Shape() && WindowHolds(window, S, base) && Chains(head[..], prev[..], c, S, base, ins, top)
      requires top < base + str && base + str + 2 < |S| && str + 2 < 2 * wSize
      requires Rolls(c, insH, S[base + str], S[base + str + 1])
      modifies `insH, `ins, `top, head, prev
      ensures Chains(head[..], prev[..], c, S, base, ins, top)
      ensures ins == old(ins) + {base + str} && top == base + str
      ensures Rolls(c, insH, S[base + str + 1], S[base + str + 2])
      ensures (forall r :: r in ins ==> r + 2 < |S|) && (forall r :: r in old(ins) ==> r < base + str)
      ensures Latest(matchHead, HashAt(c, S, base + str), base + str, c, S, base, ins)
    {
      hide Chains, Rolls, Pow2, UpdateHash, Latest;
      InsertedBelow(head[..], prev[..], c, S, base, ins, top);
      RollOn(c, insH, S[base + str], S[base + str + 1], S[base + str + 2]);
      insH := UpdateHash(c, insH, window[str + 2]);
      matchHead := Insert(head, prev, insH, str, c, S, base, ins, top);
      LatestBefore(matchHead, insH, base + str, c, S, base, ins);
      ins := ins + {base + str};
      top := base + str;
    }

    /** The next of the strings that wait to be inserted. */
    method InsertNext(str: nat)
      requires Filled() && Chains(head[..], prev[..], c, S, base, ins, top) && insert > 0 && str == strstart - insert
      requires lookahead + insert >= MIN_MATCH && insert < MIN_MATCH && top < base + str
      requires Rolls(c, insH, S[base + str], S[base + str + 1])
      modifies `insH, `ins, `top, `insert, head, prev
      ensures Filled() && Chains(head[..], prev[..], c, S, base, ins, top) && insert == old(insert) - 1
      ensures ins == old(ins) + {base + str} && top == base + str
      ensures Rolls(c, insH, S[base + str + 1], S[base + str + 2])
    {
      hide Chains, Rolls, Pow2, UpdateHash, GoodConfig, Fits, Wrap32, HashAt, Latest;
      var _ := InsertString(str);
      insert := insert - 1;
    }

    /** The strings at the end of the previous input, inserted once their third byte has arrived. */
    method InsertPending()
      requires Filled() && Shape() && Chains(head[..], prev[..], c, S, base, ins, top)
      requires insert <= strstart && top < base + strstart - insert
      requires insert > 0 ==> insert < MIN_MATCH
      modifies `insH, `ins, `top, `insert, head, prev
      ensures Filled() && Chained() && Rolling() && insert <= old(insert)
      ensures GrownBy(old(ins), ins, base + strstart - old(insert), base + strstart - insert)
    {
      hide GrownBy, Chains, Rolls, Shape, Pow2, UpdateHash, WindowHolds, GoodConfig, Fits, Wrap32, HashAt, Latest;
      NotGrown(ins, base + strstart - insert);
      if lookahead + insert >= MIN_MATCH {
        var str := strstart - insert;
        WindowAt(window, S, base, str);
        WindowAt(window, S, base, str + 1);
        insH := UpdateHash(c, window[str], window[str + 1]);
        RollsFresh(c, window[str], window[str + 1]);
        while insert > 0
          invariant insert <= old(insert) && str == strstart - insert && lookahead + insert >= MIN_MATCH
          invariant Filled() && Chains(head[..], prev[..], c, S, base, ins, top) && top < base + str
          invariant Rolls(c, insH, S[base + str], S[base + str + 1])
          invariant GrownBy(old(ins), ins, base + strstart - old(insert), base + str)
        {
          GrownByOne(old(ins), ins, base + strstart - old(insert), base + str);
          InsertNext(str);
          str := str + 1;
          if lookahead + insert < MIN_MATCH {
            break;
          }
        }
      }
    }

    /** One turn of the loop of fill_window(): read at least two bytes of room, then index. */
    method Refill(more: nat)
      requires Filled() && Chained() && strstart + lookahead + more == 2 * wSize
      modifies `input, `lookahead, `S, `written, `adler, `totalIn, `insH, `ins, `top, `insert, window, head, prev
      ensures Filled() && Chained() && (old(Rolling()) ==> Rolling()) && (old(Checked()) ==> Checked())
      ensures var n := if |old(input)| <= more then |old(input)| else more;
        lookahead == old(lookahead) + n && |input| == |old(input)| - n && |S| == |old(S)| + n
      ensures S + input == old(S + input) && old(S) <= S && insert <= old(insert)
      ensures GrownBy(old(ins), ins, base + strstart - old(insert), base + strstart - insert)
    {
      hide GrownBy, Chains, Rolls, Pow2, WindowHolds, GoodConfig, Wrap32;
      var n := ReadBuf(more);
      assert head[..] == old(head[..]) && prev[..] == old(prev[..]);
      ChainsMore(head[..], prev[..], c, old(S), old(input)[..n], base, ins, top);
      InsertPending();
    }

    /** Bytes beyond the data that longest_match() may look at are zeroed once. */
    method ZeroAhead()
      requires Filled() && Chained()
      modifies `highWater, `written, window
      ensures Filled() && Chained() && (old(Rolling()) ==> Rolling())
      ensures Min(strstart + lookahead + 258, 2 * wSize) <= highWater
    {
      hide Pow2, GoodConfig, Wrap32, Chains, Rolls;
      if highWater < 2 * wSize {
        var curr := strstart + lookahead;
        if highWater < curr {
          var init := Min(2 * wSize - curr, WIN_INIT);
          ZeroFrom(curr, init);
          highWater := curr + init;
        } else if highWater < curr + WIN_INIT {
          var init := Min(curr + WIN_INIT - highWater, 2 * wSize - highWater);
          ZeroFrom(highWater, init);
          highWater := highWater + init;
        }
      }
      assert head[..] == old(head[..]) && prev[..] == old(prev[..]);
    }

    method ZeroFrom(at: nat, n: nat)
      requires Filled() && strstart + lookahead <= at <= written && at + n <= 2 * wSize
      modifies `written, window
      ensures Filled() && written >= at + n
    {
      forall i | 0 <= i < n {
        window[at + i] := 0;
      }
      written := if written < at + n then at + n else written;
    }

    /** One turn of the loop of fill_window(): slide if the current string is too far up, then read into
        at least two bytes of room. */
    method FillOnce()
      requires Filled() && Chained() && lookahead < MIN_LOOKAHEAD
      modifies `input, `lookahead, `S, `written, `adler, `totalIn, `insH, `ins, `top, `insert, `matchStart, `strstart
      modifies `blockStart, `base
      modifies window, head, prev
      ensures Filled() && Chained() && (old(Rolling()) ==> Rolling()) && (old(Checked()) ==> Checked())
      ensures S + input == old(S + input) && old(S) <= S
      ensures base + strstart == old(base + strstart) && base + blockStart == old(base + blockStart)
      ensures strstart + MIN_LOOKAHEAD <= 2 * wSize && old(base) <= base
      ensures input == [] || |input| < |old(input)|
      ensures lookahead >= old(lookahead) && (old(strstart) >= 1 ==> strstart >= 1) && insert <= old(insert)
      ensures GrownBy(old(ins), ins, base + strstart - old(insert), base + strstart - insert)
    {
      hide GrownBy, Chains, Rolls, Pow2, WindowHolds, GoodConfig, Wrap32;
      NotGrown(ins, base + strstart - insert);
      var more := 2 * wSize - lookahead - strstart;
      if strstart >= wSize + (wSize - MIN_LOOKAHEAD) {
        Slide();
        more := more + wSize;
      }
      if |input| != 0 {
        assert more >= 2;
        Refill(more);
      }
    }

    /** The loop of fill_window(). */
    method FillUp()
      requires Shape() && Filled() && Chained() && lookahead < MIN_LOOKAHEAD
      modifies `input, `lookahead, `S, `written, `adler, `totalIn, `insH, `ins, `top, `insert, `matchStart, `strstart
      modifies `blockStart, `base
      modifies window, head, prev
      ensures Filled() && Chained() && (old(Rolling()) ==> Rolling()) && (old(Checked()) ==> Checked())
      ensures S + input == old(S + input) && old(S) <= S
      ensures base + strstart == old(base + strstart) && base + blockStart == old(base + blockStart)
      ensures old(base) <= base
      ensures lookahead >= MIN_LOOKAHEAD || input == []
      ensures strstart + MIN_LOOKAHEAD <= 2 * wSize
      ensures lookahead >= old(lookahead) && (old(strstart) >= 1 ==> strstart >= 1) && insert <= old(insert)
      ensures GrownBy(old(ins), ins, base + strstart - old(insert), base + strstart - insert)
    {
      hide GrownBy, Chains, Rolls, Pow2, WindowHolds, GoodConfig, Wrap32, Min, Chained, Filled, Rolling, Checked;
      FillOnce();
      while lookahead < MIN_LOOKAHEAD && |input| != 0
        invariant Shape() && Filled() && Chained() && (old(Rolling()) ==> Rolling()) && (old(Checked()) ==> Checked())
        invariant S + input == old(S + input) && old(S) <= S
        invariant base + strstart == old(base + strstart) && base + blockStart == old(base + blockStart)
        invariant old(base) <= base
        invariant strstart + MIN_LOOKAHEAD <= 2 * wSize && lookahead >= old(lookahead)
        invariant (old(strstart) >= 1 ==> strstart >= 1) && insert <= old(insert)
        invariant GrownBy(old(ins), ins, base + strstart - old(insert), base + strstart - insert)
        decreases |input|
      {
        ghost var known, waiting := ins, insert;
        FillOnce();
        GrownAgain(old(ins), known, ins, base + strstart - old(insert), base + strstart - waiting,
          base + strstart - insert);
      }
    }

    /** fill_window(). The input read moves to the end of the stream; nothing else about it changes. */
    method FillWindow()
      requires Filled() && Chained() && lookahead < MIN_LOOKAHEAD
      modifies `input, `lookahead, `S, `written, `adler, `totalIn, `insH, `ins, `top, `insert, `matchStart, `strstart
      modifies `blockStart, `base, `highWater
      modifies window, head, prev
      ensures Filled() && Chained() && (old(Rolling()) ==> Rolling()) && (old(Checked()) ==> Checked())
      ensures S + input == old(S + input) && old(S) <= S
      ensures base + strstart == old(base + strstart) && base + blockStart == old(base + blockStart)
      ensures old(base) <= base
      ensures lookahead >= MIN_LOOKAHEAD || input == []
      ensures strstart + MIN_LOOKAHEAD <= 2 * wSize
      ensures Min(strstart + lookahead + 258, 2 * wSize) <= highWater
      ensures lookahead >= old(lookahead) && (old(strstart) >= 1 ==> strstart >= 1) && insert <= old(insert)
      ensures GrownBy(old(ins), ins, base + strstart - old(insert), base + strstart - insert)
    {
      hide GrownBy, Chains, Rolls, Pow2, WindowHolds, GoodConfig, Wrap32, Min, Chained, Rolling, Checked;
      FillUp();
      ZeroAhead();
    }

    // Emitting symbols and blocks.

    /** _tr_tally_lit. */
    method TallyLit(b: byte, ghost done: nat) returns (bflush: bool)
      requires Shape() && Emitted(done) && done < |S| && b == S[done]
      modifies `syms
      ensures Emitted(done + 1) && syms == old(syms) + [Sym(0, b)] && (bflush <==> |syms| == symEnd)
    {
      hide Covers, Pow2, GoodConfig, SymsCover;
      SymsLiteral(syms, S, Fresh(cuts), base + blockStart, done);
      syms := syms + [Sym(0, b)];
      bflush := |syms| == symEnd;
    }

    /** _tr_tally_dist: the distance kept in sixteen bits, the length less 3 in eight. */
    method TallyDist(dist: nat, len: nat, ghost done: nat) returns (bflush: bool)
      requires Shape() && Emitted(done) && MIN_MATCH <= len <= MAX_MATCH && Repeats(S, done, dist, len)
      requires dist + MIN_LOOKAHEAD <= wSize && dist <= reach && Fresh(cuts) + dist <= done
      modifies `syms
      ensures Emitted(done + len) && syms == old(syms) + [Sym(dist, len - 3)] && (bflush <==> |syms| == symEnd)
    {
      hide Covers, Pow2, GoodConfig, SymsCover;
      SymsMatch(syms, S, Fresh(cuts), base + blockStart, done, dist, len);
      syms := syms + [Sym(dist % 0x1_0000, (len - MIN_MATCH) % 0x100)];
      bflush := |syms| == symEnd;
    }

    /** The block of the pending symbols, with the bytes themselves while the window holds them. */
    ghost predicate PendingBlock(b: Block, last: bool)
      reads this, window
    {
      && b.form == Tallied && b.syms == syms && b.last == last && b.storedLen == strstart - blockStart
      && b.verbatim == if 0 <= blockStart <= strstart <= window.Length then Some(window[blockStart..strstart]) else None
    }

    /** As long as the window holds all of the pending block, its length fits into sixteen bits. */
    ghost predicate Storable()
      reads `blockStart, `strstart
    {
      blockStart >= 0 ==> strstart - blockStart < 0x1_0000
    }

    /** FLUSH_BLOCK_ONLY: the pending symbols become a block, and what fits of the output is delivered. */
    method FlushBlockOnly(last: bool)
      requires Filled() && Emitted(base + strstart) && Storable() && Sent() && out.Clear() && |syms| <= symEnd
      modifies `blocks, `syms, `cuts, `blockStart, out, out.buf
      ensures Emitted(base + strstart) && syms == [] && blockStart == strstart && cuts.marks == old(cuts.marks)
      ensures Sent() && (out.availOut == 0 || out.Clear())
      ensures |blocks| == |old(blocks)| + 1 && blocks[..|blocks| - 1] == old(blocks)
      ensures blocks[|blocks| - 1].last == last && blocks[|blocks| - 1].syms == old(syms)
    {
      hide Covers, Pow2, GoodConfig, SymsCover, Wrap32, StreamBits, Usable, Fits, MarksPlaced;
      var verbatim := if blockStart >= 0 then Some(window[blockStart..strstart]) else None;
      var b := Block(Tallied, syms, verbatim, strstart - blockStart, last, NO_TREES);
      AreInReach();
      b := Transmit(b);
      CutBlock(old(blocks), b, last);
    }

    lemma AreInReach()
      requires Shape() && Emitted(base + strstart)
      ensures InReach(syms)
    {
      hide Covers, Expand, Pow2, GoodConfig, Fits;
      assert forall i :: 0 <= i < |syms| ==> GoodSym(syms[i]);
    }

    method CutBlock(ghost before: seq<Block>, ghost b: Block, ghost last: bool)
      requires Filled() && Storable() && PendingBlock(b, last) && Usable(b.trees, b.syms) && blocks == before + [b]
      requires EmittedAs(before, base + strstart)
      modifies `syms, `cuts, `blockStart
      ensures Emitted(base + strstart) && syms == [] && blockStart == strstart && cuts.marks == old(cuts.marks)
    {
      hide Covers, Pow2, GoodConfig, Expand, Wrap32, Fits, InReach, Usable, SymsCover;
      if blockStart >= 0 {
        assert window[blockStart..strstart] == S[base + blockStart..base + strstart];
      }
      SymsCoverSince(syms, S, Fresh(cuts), base + blockStart, base + strstart, 0);
      FromStart(syms, S, base + blockStart, base + strstart);
      CoversAppend(before, cuts, S, base + blockStart, b, base + strstart);
      cuts := CutAt(cuts, base + strstart);
      syms := [];
      blockStart := strstart;
      NoSyms(S, Fresh(cuts), base + strstart, base + strstart);
      MoreGood(before, b);
    }

    /** _tr_flush_block() and flush_pending(). The block goes on record with the trees built for it. */
    method Transmit(b: Block) returns (sent: Block)
      requires Shape() && Sent() && out.Clear() && Flushable(b) && |b.syms| <= symEnd
      modifies `blocks, out, out.buf
      ensures Sent() && (out.availOut == 0 || out.Clear()) && blocks == old(blocks) + [sent]
      ensures sent == b.(trees := sent.trees) && Usable(sent.trees, b.syms)
    {
      hide Pow2, GoodConfig, StreamBits, BlockBits, LowBits, ByteBits, GoodKit, Usable, InReach, MarksPlaced;
      var trees := EncodeBlock(out, kit, b);
      sent := b.(trees := trees);
      MarksStayPlaced(kit.fixed, blocks, cuts.marks, sent);
      StreamMore(kit.fixed, blocks, sent);
      out.FlushPending();
      blocks := blocks + [sent];
    }

    /** FLUSH_BLOCK(s, 0), when the symbol buffer is full. */
    method FlushIfFull(bflush: bool)
      requires Filled() && Emitted(base + strstart) && Storable() && NotLast() && Sent() && out.Clear()
      requires |syms| <= symEnd && (bflush <==> |syms| == symEnd)
      modifies `blocks, `syms, `cuts, `blockStart, out, out.buf
      ensures Filled() && Emitted(base + strstart) && NotLast() && |syms| < symEnd
      ensures if bflush then syms == [] && blockStart == strstart
          else syms == old(syms) && blockStart == old(blockStart)
      ensures Sent() && (out.availOut == 0 || out.Clear()) && (!bflush ==> out.Clear())
      ensures cuts.marks == old(cuts.marks) && AllSyms() == old(AllSyms())
    {
      hide Pow2, GoodConfig, Covers, SymsCover, WindowHolds, Wrap32, StreamBits, MarksPlaced;
      if bflush {
        FlushBlockOnly(false);
        SymsOfBlock(old(blocks), blocks);
        NotLastMore(old(blocks), blocks);
      }
    }

    /** The flush after the last input of a call, and the state to return. */
    method FlushAtEnd(flush: Flush) returns (r: BlockState)
      requires Filled() && lookahead == 0 && input == [] && Emitted(base + strstart) && NotLast() && |syms| <= symEnd
      requires flush != NoFlush
      requires Sent() && out.Clear() && Storable()
      modifies `blocks, `syms, `cuts, `blockStart, out, out.buf
      ensures Filled() && Emitted(base + strstart) && Sent()
      ensures flush != Finish ==> (r == NeedMore || r == BlockDone) && syms == [] && NotLast()
      ensures flush == Finish ==> (r == FinishStarted || r == FinishDone) && Finished()
      ensures blockStart == strstart && cuts.marks == old(cuts.marks)
      ensures if r == BlockDone || r == FinishDone then out.Clear() else out.availOut == 0
    {
      hide Pow2, GoodConfig, Covers, SymsCover, WindowHolds, Wrap32, StreamBits, MarksPlaced;
      if flush == Finish {
        FlushBlockOnly(true);
        OnlyLast(old(blocks), blocks);
        CoversAll();
        r := if out.availOut == 0 then FinishStarted else FinishDone;
      } else {
        r := BlockDone;
        if |syms| == 0 {
          NothingPending();
        }
        if |syms| > 0 {
          FlushBlockOnly(false);
          NotLastMore(old(blocks), blocks);
          if out.availOut == 0 {
            r := NeedMore;
          }
        }
      }
    }

    lemma NothingPending()
      requires Emitted(base + strstart) && syms == []
      ensures blockStart == strstart
    {
      hide Covers;
      NoSyms(S, Fresh(cuts), base + blockStart, base + strstart);
    }

    /** Everything read has been emitted in blocks, and the last of them, only, is marked. */
    ghost predicate Finished()
      reads `blocks, `cuts, `S
    {
      && Covers(blocks, cuts, S, |S|) && AllGood(blocks)
      && |blocks| > 0 && blocks[|blocks| - 1].last
      && forall i :: 0 <= i < |blocks| - 1 ==> !blocks[i].last
    }

    lemma CoversAll()
      requires Filled() && lookahead == 0 && blockStart == strstart && Emitted(base + strstart)
      ensures Covers(blocks, cuts, S, |S|) && AllGood(blocks)
    {
    }

    /** Reading more input leaves what has been emitted as it is. */
    twostate lemma EmittedMore(done: nat)
      requires old(Emitted(done)) && old(S) <= S && base + blockStart == old(base + blockStart) && base >= old(base)
      requires syms == old(syms) && blocks == old(blocks) && cuts == old(cuts)
      ensures Emitted(done)
    {
      hide Covers, SymsCover;
      var T := S[|old(S)|..];
      assert S == old(S) + T;
      CoversMore(blocks, cuts, old(S), T, base + blockStart);
      SymsCoverMore(syms, old(S), T, Fresh(cuts), base + blockStart, done);
    }
  }

  /** The symbols of blocks, in order. */
  function BlockSyms(blocks: seq<Block>): seq<Sym> {
    if |blocks| == 0 then [] else BlockSyms(blocks[..|blocks| - 1]) + blocks[|blocks| - 1].syms
  }

  lemma SymsOfBlock(before: seq<Block>, after: seq<Block>)
    requires |after| == |before| + 1 && after[..|after| - 1] == before
    ensures BlockSyms(after) + [] == BlockSyms(before) + after[|before|].syms
  {
  }

  lemma NotLastMore(before: seq<Block>, after: seq<Block>)
    requires (forall i :: 0 <= i < |before| ==> !before[i].last) && |after| == |before| + 1
    requires after[..|after| - 1] == before && !after[|after| - 1].last
    ensures forall i :: 0 <= i < |after| ==> !after[i].last
  {
    forall i | 0 <= i < |after| ensures !after[i].last {
      if i < |before| {
        assert after[i] == before[i];
      }
    }
  }

  lemma OnlyLast(before: seq<Block>, after: seq<Block>)
    requires (forall i :: 0 <= i < |before| ==> !before[i].last) && |after| == |before| + 1
    requires after[..|after| - 1] == before
    ensures forall i :: 0 <= i < |after| - 1 ==> !after[i].last
  {
    forall i | 0 <= i < |after| - 1 ensures !after[i].last {
      assert after[i] == before[i];
    }
  }

  function Min(a: nat, b: nat): nat {
    if a > b then b else a
  }

  lemma WindowAt(window: array<byte>, S: seq<byte>, base: nat, i: nat)
    requires WindowHolds(window, S, base) && base + i < |S|
    ensures i < window.Length && window[i] == S[base + i]
  {
  }

  lemma WindowFrom(window: array<byte>, S: seq<byte>, base: nat)
    requires base <= |S| <= base + window.Length && forall i :: 0 <= i < |S| - base ==> window[i] == S[base + i]
    ensures WindowHolds(window, S, base)
  {
  }

  lemma WrapSame(x: u32)
    ensures Wrap32(x) == x
  {
  }

  lemma WrapDown(x: int, w: int)
    ensures Wrap32(Wrap32(x) - w) == Wrap32(x - w)
  {
  }

  // What the compressors share.

  /** How far a chain is followed, given the length of the match to beat. */
  function Budget(s: State, prev: nat): nat {
    if prev >= s.goodMatch then s.maxChainLength / 4 else s.maxChainLength
  }

  /** What the length found at stream position p means: it reaches the nice length, or nothing that the chain
      budget allows to see repeats for longer. Lengths up to `least` may be given up. */
  ghost predicate Looked(s: State, S: seq<byte>, base: nat, ins: set<nat>, p: nat, chain: nat, least: nat, found: nat) {
    var best := if found < least then least else found;
    && p + 2 < |S| && (forall r :: r in ins ==> r + 2 < |S|) && s.wSize >= 512
    && (best >= Min(s.niceMatch, |S| - p)
        || NoneLonger(s.c, S, base, ins, p, p, s.wSize - (MAX_MATCH + MIN_MATCH + 1), chain, best))
  }

  /** A match of the given length at stream position p with the bytes starting at stream position m. */
  ghost predicate Match(s: State, p: int, m: int, len: nat)
    reads s`S
  {
    && 0 <= m < p && MIN_MATCH <= len <= MAX_MATCH && p - m + MIN_LOOKAHEAD <= s.wSize
    && Repeats(s.S, p, p - m, len)
  }

  /** Every level that looks for matches allows some steps along a chain, even when it cuts them down, and no
      strategy that looks for them restricts their distance. */
  ghost predicate Tuned(s: State) {
    s.maxChainLength >= 4 && s.reach >= s.wSize
  }

  /** Within a step, the current string has been inserted if it has three bytes. */
  ghost predicate Inserted(s: State)
    requires s.Shape()
    reads s`S, s`base, s`ins, s`top, s`insert, s`strstart, s`lookahead, s`insH, s.head, s.prev
  {
    && Chains(s.head[..], s.prev[..], s.c, s.S, s.base, s.ins, s.top)
    && s.insert <= s.strstart && (s.insert > 0 ==> s.lookahead + s.insert < MIN_MATCH)
    && (s.lookahead < MIN_MATCH ==> s.top < s.base + s.strstart - s.insert)
    && (s.lookahead >= MIN_MATCH ==> JustInserted(s))
  }

  ghost predicate JustInserted(s: State)
    reads s`S, s`base, s`top, s`strstart, s`insH
  {
    && s.top == s.base + s.strstart && s.base + s.strstart + 2 < |s.S|
    && Rolls(s.c, s.insH, s.S[s.base + s.strstart + 1], s.S[s.base + s.strstart + 2])
  }

  /** The last string inserted before the current one with the same hash. */
  ghost predicate ChainHead(s: State, h: Pos)
    reads s
  {
    && s.lookahead >= MIN_MATCH && s.base + s.strstart + 2 < |s.S|
    && 0 < h < s.strstart && s.base + h in s.ins
    && HashAt(s.c, s.S, s.base + h) == HashAt(s.c, s.S, s.base + s.strstart)
    && LatestHere(s, h)
  }

  ghost predicate LatestHere(s: State, h: Pos)
    requires s.base + s.strstart + 2 < |s.S|
    reads s
  {
    && (forall r :: r in s.ins ==> r + 2 < |s.S|)
    && Latest(h, HashAt(s.c, s.S, s.base + s.strstart), s.base + s.strstart, s.c, s.S, s.base, s.ins)
  }

  /** Besides those known before, the strings from a on are known up to b. */
  ghost predicate GrownBy(before: set<nat>, after: set<nat>, a: int, b: int) {
    forall p :: p in after <==> p in before || a <= p < b
  }

  lemma GrownByOne(before: set<nat>, after: set<nat>, a: int, b: nat)
    requires GrownBy(before, after, a, b) && a <= b
    ensures GrownBy(before, after + {b}, a, b + 1)
  {
  }

  lemma GrownAgain(a: set<nat>, b: set<nat>, c: set<nat>, i: int, j: int, k: int)
    requires GrownBy(a, b, i, j) && GrownBy(b, c, j, k) && i <= j <= k
    ensures GrownBy(a, c, i, k)
  {
  }

  lemma NoneBetween(ins: set<nat>, a: int, b: int)
    requires b <= a
    ensures GrownBy(ins, ins, a, b)
  {
  }

  lemma NotGrown(ins: set<nat>, a: int)
    ensures GrownBy(ins, ins, a, a)
  {
  }

  /** The insertion at the start of a step, giving the head of the chain the string belongs to. */
  method InsertCurrent(s: State) returns (hashHead: Pos)
    requires s.Filled() && s.Chained() && s.Rolling() && s.strstart + 2 < 2 * s.wSize
    modifies s`insH, s`ins, s`top, s.head, s.prev
    ensures s.Filled() && Inserted(s)
    ensures hashHead != NIL ==> ChainHead(s, hashHead)
    ensures if s.lookahead < MIN_MATCH then hashHead == NIL
        else s.base + s.strstart + 2 < |s.S| && LatestHere(s, hashHead)
    ensures s.ins == old(s.ins) + if s.lookahead < MIN_MATCH then {} else {s.base + s.strstart}
  {
    hide Chains, Rolls, Pow2, HashAt, GoodConfig, WindowHolds, Wrap32, Latest;
    hashHead := NIL;
    if s.lookahead >= MIN_MATCH {
      hashHead := s.InsertString(s.strstart);
      HeadOfChain(hashHead, HashAt(s.c, s.S, s.base + s.strstart), s.base + s.strstart, s.c, s.S, s.base, s.ins);
    }
  }

  lemma HeadOfChain(q: nat, h: nat, below: int, c: HashConfig, S: seq<byte>, base: nat, ins: set<nat>)
    requires (forall r :: r in ins ==> r + 2 < |S|) && Latest(q, h, below, c, S, base, ins)
    ensures q != NIL ==> base + q in ins && base + q < below && HashAt(c, S, base + q) == h
  {
  }

  lemma InsertedBelow(head: seq<Pos>, prev: seq<Pos>, c: HashConfig, S: seq<byte>, base: nat, ins: set<nat>, top: int)
    requires Chains(head, prev, c, S, base, ins, top)
    ensures forall p :: p in ins ==> p <= top && p + 2 < |S|
  {
    hide HashAt;
  }

  lemma TopBelow(s: State)
    requires s.Shape() && s.Chained()
    ensures -1 <= s.top && (s.top >= 0 ==> s.top + 2 < |s.S|)
  {
    hide HashAt;
  }
}
