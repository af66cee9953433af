/** deflate_stored(): input goes straight from the caller's buffer to the output where it can, in stored
    blocks, and through the window and the pending buffer where it cannot. */
module DeflateStored {
  import opened Bits
  import opened Lz77
  import opened Pending
  import opened BlockTrees
  import opened BlockStream
  import opened CheckValue
  import opened DeflateState
  import BlockFlush

  const MAX_STORED: nat := 65535

  /** The first n bytes of the window are the input from stream position base on. */
  ghost predicate WindowHas(window: array<byte>, S: seq<byte>, base: nat, n: nat)
    reads window
  {
    base + n <= |S| && n <= window.Length && forall i :: 0 <= i < n ==> window[i] == S[base + i]
  }

  /** While input is copied directly: the window ends where the copied bytes begin, and they are copied
      only once nothing of the window remains to be stored. */
  ghost predicate Direct(s: State, copied: nat)
    reads s, s.window, s.out, s.out.buf
  {
    && s.Shape() && s.syms == [] && s.lookahead == 0
    && |s.S| == s.base + s.strstart + copied && WindowHas(s.window, s.S, s.base, s.strstart)
    && 0 <= s.blockStart <= s.strstart && (copied > 0 ==> s.blockStart == s.strstart)
    && Covers(s.blocks, s.cuts, s.S, s.base + s.blockStart + copied)
    && s.insert <= s.strstart && s.insert <= s.wSize
    && s.highWater <= s.written && s.strstart <= s.written <= 2 * s.wSize
    && s.Sent() && s.Checked() && s.stores && s.AllGood(s.blocks)
  }

  /** The state between calls: what has been read and not yet stored is the end of the window. */
  ghost predicate Ready(s: State)
    reads s, s.window, s.out, s.out.buf
  {
    Direct(s, 0) && s.NotLast()
  }

  /** read_buf() straight into the output. */
  method ReadDirect(s: State, n: nat)
    requires s.Shape() && n <= |s.input| && n <= s.out.availOut && s.out.Clear() && s.out.biValid == 0 && s.Checked()
    modifies s`input, s`S, s`adler, s`totalIn, s.out
    ensures s.S == old(s.S) + old(s.input)[..n] && s.input == old(s.input)[n..] && s.Checked()
    ensures s.out.Clear() && s.out.biValid == 0 && s.out.availOut == old(s.out.availOut) - n
    ensures s.out.delivered == old(s.out.delivered) + old(s.input)[..n] && s.out.Lead() == old(s.out.Lead())
    ensures s.out.BitStream() == old(s.out.BitStream()) + ByteBits(old(s.input)[..n])
  {
    hide Pow2, CheckFrom, Start, ByteBits, LowBits, BlockFlush.Fits;
    s.out.Deliver(s.input[..n]);
    TakeInput(s, n);
  }

  /** The header of a stored block, which drains at once. */
  method SendHeader(s: State, len: nat, last: bool)
    requires s.Shape() && s.out.Clear() && len <= MAX_STORED && (s.out.biValid + 42) / 8 <= s.out.availOut
    modifies s.out, s.out.buf
    ensures s.out.Clear() && s.out.biValid == 0 && s.out.availOut == old(s.out.availOut) - (old(s.out.biValid) + 42) / 8
    ensures s.out.BitStream() == old(s.out.BitStream()) + StoredHead(|old(s.out.BitStream())|, len, last)
    ensures s.out.Lead() == old(s.out.Lead()) && old(s.out.delivered) <= s.out.delivered
    ensures |s.out.delivered| + s.out.availOut == old(|s.out.delivered| + s.out.availOut)
  {
    hide Pow2, StoredHead, ByteBits, LowBits, BlockFlush.Fits;
    ghost var before := s.out.BitStream();
    s.out.StoredHeader(0, last);
    s.out.PatchLengths(len, before, last);
    s.out.FlushPending();
  }

  /** The bytes of the window not yet stored, as far as they go into the block. */
  method SendWindow(s: State, n: nat) returns (data: seq<byte>)
    requires s.Shape() && WindowHas(s.window, s.S, s.base, s.strstart) && 0 <= s.blockStart
    requires s.blockStart + n <= s.strstart
    requires s.out.Clear() && s.out.biValid == 0 && n <= s.out.availOut
    modifies s`blockStart, s.out
    ensures s.out.Clear() && s.out.biValid == 0 && s.out.availOut == old(s.out.availOut) - n
    ensures s.blockStart == old(s.blockStart) + n
    ensures data == s.S[s.base + old(s.blockStart)..s.base + s.blockStart]
    ensures s.out.delivered == old(s.out.delivered) + data && s.out.Lead() == old(s.out.Lead())
    ensures s.out.BitStream() == old(s.out.BitStream()) + ByteBits(data)
  {
    hide Pow2, ByteBits, LowBits, BlockFlush.Fits;
    data := s.window[s.blockStart..s.blockStart + n];
    assert data == s.S[s.base + s.blockStart..s.base + s.blockStart + n];
    s.out.Deliver(data);
    s.blockStart := s.blockStart + n;
  }

  lemma BitsOfStored(before: seq<bool>, a: seq<byte>, b: seq<byte>, last: bool)
    requires |a| + |b| <= MAX_STORED
    ensures before + StoredHead(|before|, |a + b|, last) + ByteBits(a) + ByteBits(b)
        == before + StoredBits(|before|, a + b, last)
  {
    hide StoredHead, ByteBits;
    ByteBitsConcat(a, b);
    SmallLength(a, b);
    Concat4(before, StoredHead(|before|, |a + b|, last), ByteBits(a), ByteBits(b));
  }

  lemma SmallLength(a: seq<byte>, b: seq<byte>)
    requires |a| + |b| <= MAX_STORED
    ensures |a + b| % 0x1_0000 == |a + b| == |a| + |b|
  {
  }

  lemma Concat4(a: seq<bool>, b: seq<bool>, c: seq<bool>, d: seq<bool>)
    ensures a + b + c + d == a + (b + (c + d))
  {
  }

  /** The bytes of a block, from the window and then from the input, straight to the output. */
  method SendBlock(s: State, len: nat, last: bool) returns (data: seq<byte>)
    requires s.Shape() && WindowHas(s.window, s.S, s.base, s.strstart) && 0 <= s.blockStart <= s.strstart
    requires s.out.Clear() && len <= MAX_STORED && s.Checked()
    requires len <= s.strstart - s.blockStart + |s.input| && (s.out.biValid + 42) / 8 + len <= s.out.availOut
    modifies s`blockStart, s`input, s`S, s`adler, s`totalIn, s.out, s.out.buf
    ensures s.out.Clear() && s.Checked() && s.out.Lead() == old(s.out.Lead()) && old(s.out.delivered) <= s.out.delivered
    ensures |s.out.delivered| + s.out.availOut == old(|s.out.delivered| + s.out.availOut)
    ensures s.out.BitStream() == old(s.out.BitStream()) + StoredBits(|old(s.out.BitStream())|, data, last)
    ensures s.blockStart == old(s.blockStart) + Min(s.strstart - old(s.blockStart), len)
    ensures var taken := len - (s.blockStart - old(s.blockStart));
      && s.input == old(s.input)[taken..] && s.S == old(s.S) + old(s.input)[..taken]
      && data == old(s.S[s.base + s.blockStart..])[..s.blockStart - old(s.blockStart)] + old(s.input)[..taken]
  {
    hide Pow2, ByteBits, LowBits, BlockFlush.Fits, StoredHead, StoredBits, CheckFrom;
    ghost var before := s.out.BitStream();
    SendHeader(s, len, last);
    var left := Min(s.strstart - s.blockStart, len);
    var held := SendWindow(s, left);
    data := held + s.input[..len - left];
    BitsOfStored(before, held, s.input[..len - left], last);
    ReadDirect(s, len - left);
  }

  /** One turn of the loop that copies directly: a stored block from the window and the input. */
  method StoreDirect(s: State, len: nat, last: bool, ghost copied: nat) returns (taken: nat)
    requires Direct(s, copied) && s.NotLast() && s.out.Clear() && len <= MAX_STORED
    requires len <= s.strstart - s.blockStart + |s.input| && (s.out.biValid + 42) / 8 + len <= s.out.availOut
    modifies s`blocks, s`cuts, s`blockStart, s`input, s`S, s`adler, s`totalIn, s.out, s.out.buf
    ensures s.cuts.marks == old(s.cuts.marks)
    ensures Direct(s, copied + taken) && s.out.Clear()
    ensures taken <= |old(s.input)| && s.input == old(s.input)[taken..] && s.S == old(s.S) + old(s.input)[..taken]
    ensures taken + s.blockStart == old(s.blockStart) + len
    ensures |s.blocks| == |old(s.blocks)| + 1 && s.blocks[..|s.blocks| - 1] == old(s.blocks)
    ensures s.blocks[|s.blocks| - 1].last == last
  {
    hide Pow2, ByteBits, LowBits, BlockFlush.Fits, StoredHead, StoredBits, CheckFrom, Covers, StreamBits;
    hide Output.BitStream, WindowHas;
    hide State.Checked, Output.Clear, State.AllGood, State.NotLast, State.Sent, State.Shape;
    var held := Min(s.strstart - s.blockStart, len);
    taken := len - held;
    ghost var S, more, from := s.S, s.input[..taken], s.base + s.blockStart + copied;
    WindowWithin(s.window, S, s.base, s.strstart);
    WindowApart(s);
    StoredData(S, more, from, copied, held, s.base + s.blockStart);
    var data := SendRecorded(s, len, last);
    WindowMore(s.window, S, more, s.base, s.strstart);
    var b := Block(Stored, [], Some(data), len, last, NO_TREES);
    StoredCovers(old(s.blocks), s.cuts, b, S, more, from);
    s.MoreGood(old(s.blocks), b);
    RecordCut(s, from + len);
  }

  /** Where a block that was sent ends. */
  method RecordCut(s: State, ghost end: nat)
    requires s.Sent()
    modifies s`cuts
    ensures s.cuts.marks == old(s.cuts.marks)
    ensures s.Sent() && s.cuts == CutAt(old(s.cuts), end)
  {
    hide MarksPlaced, StreamBits, Output.Rest, Output.BitStream;
    s.cuts := CutAt(s.cuts, end);
  }

  /** A block is sent and put on record. */
  method SendRecorded(s: State, len: nat, last: bool) returns (data: seq<byte>)
    requires s.Shape() && WindowHas(s.window, s.S, s.base, s.strstart) && 0 <= s.blockStart <= s.strstart
    requires s.out.Clear() && len <= MAX_STORED && s.Checked() && s.Sent()
    requires len <= s.strstart - s.blockStart + |s.input| && (s.out.biValid + 42) / 8 + len <= s.out.availOut
    modifies s`blocks, s`blockStart, s`input, s`S, s`adler, s`totalIn, s.out, s.out.buf
    ensures s.out.Clear() && s.Checked() && s.Sent()
    ensures s.blocks == old(s.blocks) + [Block(Stored, [], Some(data), len, last, NO_TREES)]
    ensures s.blockStart == old(s.blockStart) + Min(s.strstart - old(s.blockStart), len)
    ensures var taken := len - (s.blockStart - old(s.blockStart));
      && s.input == old(s.input)[taken..] && s.S == old(s.S) + old(s.input)[..taken]
      && data == old(s.S[s.base + s.blockStart..])[..s.blockStart - old(s.blockStart)] + old(s.input)[..taken]
  {
    hide Pow2, ByteBits, LowBits, BlockFlush.Fits, StoredHead, StoredBits, CheckFrom, StreamBits, Output.BitStream;
    hide WindowHas;
    hide State.Checked, State.Shape, MarksPlaced;
    data := SendBlock(s, len, last);
    var b := Block(Stored, [], Some(data), len, last, NO_TREES);
    MarksStayPlaced(s.kit.fixed, s.blocks, s.cuts.marks, b);
    StreamMore(s.kit.fixed, s.blocks, b);
    s.blocks := s.blocks + [b];
  }

  lemma WindowWithin(window: array<byte>, S: seq<byte>, base: nat, n: nat)
    requires WindowHas(window, S, base, n)
    ensures base + n <= |S| && n <= window.Length
  {
  }

  lemma WindowApart(s: State)
    requires s.Shape()
    ensures s.out.buf != s.window
  {
  }

  lemma WindowMore(window: array<byte>, S: seq<byte>, more: seq<byte>, base: nat, n: nat)
    requires WindowHas(window, S, base, n)
    ensures WindowHas(window, S + more, base, n)
  {
  }

  /** What is held of the window, and what is taken from the input, are consecutive in the stream. */
  lemma StoredData(S: seq<byte>, more: seq<byte>, from: nat, copied: nat, held: nat, at: nat)
    requires from == at + copied <= |S| && at + held <= |S| && (copied > 0 ==> held == 0)
    requires (more != [] ==> at + held + copied == |S|)
    ensures S[at..][..held] + more == (S + more)[from..from + held + |more|]
  {
  }

  lemma StoredCovers(blocks: seq<Block>, cuts: Cuts, b: Block, S: seq<byte>, more: seq<byte>, from: nat)
    requires Covers(blocks, cuts, S, from) && from <= |S|
    requires b.form == Stored && b.verbatim.Some? && b.storedLen == |b.verbatim.value| <= MAX_STORED
    requires from + b.storedLen <= |S + more| && b.verbatim.value == (S + more)[from..from + b.storedLen]
    ensures Covers(blocks + [b], CutAt(cuts, from + b.storedLen), S + more, from + b.storedLen)
  {
    hide Covers;
    CoversMore(blocks, cuts, S, more, from);
    CoversAppend(blocks, cuts, S + more, from, b, from + b.storedLen);
  }

  lemma TakeMore(whole: seq<byte>, used: nat, taken: nat)
    requires used + taken <= |whole|
    ensures whole[used..][taken..] == whole[used + taken..]
    ensures whole[..used] + whole[used..][..taken] == whole[..used + taken]
  {
  }

  /** All of the blocks but the last are unmarked; the last is marked if asked for. */
  ghost predicate Marked(s: State, last: bool)
    reads s`blocks
  {
    if last then
      && |s.blocks| > 0 && s.blocks[|s.blocks| - 1].last
      && forall i :: 0 <= i < |s.blocks| - 1 ==> !s.blocks[i].last
    else s.NotLast()
  }

  method StoreMarked(s: State, len: nat, last: bool, ghost copied: nat) returns (taken: nat)
    requires Direct(s, copied) && Marked(s, false) && s.out.Clear() && len <= MAX_STORED
    requires len <= s.strstart - s.blockStart + |s.input| && (s.out.biValid + 42) / 8 + len <= s.out.availOut
    modifies s`blocks, s`cuts, s`blockStart, s`input, s`S, s`adler, s`totalIn, s.out, s.out.buf
    ensures s.cuts.marks == old(s.cuts.marks)
    ensures Direct(s, copied + taken) && s.out.Clear() && Marked(s, last)
    ensures taken <= |old(s.input)| && s.input == old(s.input)[taken..] && s.S == old(s.S) + old(s.input)[..taken]
    ensures taken + s.blockStart == old(s.blockStart) + len
  {
    hide Direct, Output.Clear;
    taken := StoreDirect(s, len, last, copied);
    if last {
      OnlyLast(old(s.blocks), s.blocks);
    } else {
      NotLastMore(old(s.blocks), s.blocks);
    }
  }

  lemma DirectBounds(s: State, copied: nat)
    requires Direct(s, copied)
    ensures 0 <= s.blockStart <= s.strstart <= 2 * s.wSize && s.out.size >= 512 && s.wSize >= 512
  {
  }

  /** The largest stored block that can be copied directly now: limited by the input, and by the output. */
  function DirectLength(s: State): (len: nat)
    requires 0 <= s.blockStart <= s.strstart && (s.out.biValid + 42) / 8 <= s.out.availOut
    reads s, s.out
    ensures len <= MAX_STORED && len <= s.strstart - s.blockStart + |s.input|
    ensures (s.out.biValid + 42) / 8 + len <= s.out.availOut
    ensures len == 65535 || len == s.strstart - s.blockStart + |s.input|
        || (s.out.biValid + 42) / 8 + len == s.out.availOut
  {
    var len := Min(MAX_STORED, s.strstart - s.blockStart + |s.input|);
    Min(len, s.out.availOut - (s.out.biValid + 42) / 8)
  }

  /** Why copying stops: the output has no room for a block worth its header, and when flushing not for
      all that is left either; or there is not enough left. */
  ghost predicate TooLittle(s: State, flush: Flush, minBlock: nat)
    reads s`strstart, s`blockStart, s`input, s.out`biValid, s.out`availOut
  {
    var room := s.out.availOut - (s.out.biValid + 42) / 8;
    var left := s.strstart - s.blockStart + |s.input|;
    if flush == NoFlush then room < minBlock || left < minBlock
    else (left == 0 && flush != Finish) || (room < minBlock && room < left)
  }

  lemma StopsFor(s: State, flush: Flush, minBlock: nat)
    requires 0 <= s.blockStart <= s.strstart && 0 < minBlock <= 0x8000
    ensures TooLittle(s, flush, minBlock) <==>
      s.out.availOut < (s.out.biValid + 42) / 8 || var left := s.strstart - s.blockStart + |s.input|;
      var len := DirectLength(s); len < minBlock && ((len == 0 && flush != Finish) || flush == NoFlush || len != left)
  {
  }

  /** A block takes all that is left, unless its length is limited by its sixteen bits or by the output space. */
  predicate LargestBlock(n: int, left: int, availOut: nat, header: nat) {
    && 0 <= n <= 65535 && n <= left && header + n <= availOut
    && (n == 65535 || n == left || header + n == availOut)
  }

  /** One turn of the loop: it stops if there is no room for a header, or if the block would be too
      small, unless that is all there is to flush. */
  method Turn(s: State, flush: Flush, minBlock: nat, ghost copied: nat) returns (stop: bool, last: bool, taken: nat)
    requires Direct(s, copied) && s.out.Clear() && Marked(s, false) && 0 < minBlock <= 0x8000
    modifies s`blocks, s`cuts, s`blockStart, s`input, s`S, s`adler, s`totalIn, s.out, s.out.buf
    ensures s.cuts.marks == old(s.cuts.marks)
    ensures Direct(s, copied + taken) && s.out.Clear() && Marked(s, last)
    ensures taken <= |old(s.input)| && s.input == old(s.input)[taken..] && s.S == old(s.S) + old(s.input)[..taken]
    ensures last ==> flush == Finish && s.input == [] && s.blockStart == s.strstart
    ensures !stop && !last ==> |s.input| - s.blockStart < old(|s.input| - s.blockStart)
    ensures taken + s.blockStart >= old(s.blockStart) && (stop ==> TooLittle(s, flush, minBlock))
    ensures stop <==> old(TooLittle(s, flush, minBlock))
    ensures !stop ==>
      LargestBlock(taken + s.blockStart - old(s.blockStart), old(s.strstart - s.blockStart + |s.input|),
        old(s.out.availOut), old((s.out.biValid + 42) / 8))
    ensures last <==> !stop && flush == Finish && s.input == [] && s.blockStart == s.strstart
  {
    hide Direct, Output.Clear, Marked, TooLittle, DirectLength;
    DirectBounds(s, copied);
    StopsFor(s, flush, minBlock);
    stop, last, taken := true, false, 0;
    if s.out.availOut < (s.out.biValid + 42) / 8 {
      return;
    }
    var left := s.strstart - s.blockStart;
    var len := DirectLength(s);
    if len < minBlock && ((len == 0 && flush != Finish) || flush == NoFlush || len != left + |s.input|) {
      return;
    }
    stop := false;
    last := flush == Finish && len == left + |s.input|;
    taken := StoreMarked(s, len, last, copied);
    DirectBounds(s, copied + taken);
  }

  /** The smallest block worth storing directly. */
  function MinBlock(s: State): nat
    requires s.out.size >= 512
  {
    if s.out.size - 5 > s.wSize then s.wSize else s.out.size - 5
  }

  /** The loop that stores as many blocks as possible directly. It ends after the last block when
      finishing, or when the next block would be too small. */
  method CopyDirect(s: State, flush: Flush) returns (last: bool, used: nat)
    requires Ready(s) && s.out.Clear()
    modifies s`blocks, s`cuts, s`blockStart, s`input, s`S, s`adler, s`totalIn, s.out, s.out.buf
    ensures s.cuts.marks == old(s.cuts.marks)
    ensures Direct(s, used) && s.out.Clear() && Marked(s, last)
    ensures used <= |old(s.input)| && s.input == old(s.input)[used..] && s.S == old(s.S) + old(s.input)[..used]
    ensures last ==> flush == Finish && s.input == [] && s.blockStart == s.strstart
    ensures used + s.blockStart >= old(s.blockStart) && (!last ==> TooLittle(s, flush, Min(s.out.size - 5, s.wSize)))
  {
    hide *;
    StartDirect(s);
    var minBlock := MinBlock(s);
    last, used := false, 0;
    while !last
      invariant Direct(s, used) && s.out.Clear() && Marked(s, last)
      invariant used <= |old(s.input)| && s.input == old(s.input)[used..] && s.S == old(s.S) + old(s.input)[..used]
      invariant last ==> flush == Finish && s.input == [] && s.blockStart == s.strstart
      invariant used + s.blockStart >= old(s.blockStart) && s.cuts.marks == old(s.cuts.marks)
      decreases !last, s.strstart - s.blockStart + |s.input|
    {
      DirectBounds(s, used);
      var stop, final, taken := Turn(s, flush, minBlock, used);
      TakeMore(old(s.input), used, taken);
      last, used := final, used + taken;
      if stop {
        break;
      }
    }
  }

  lemma StartDirect(s: State)
    requires Ready(s)
    ensures Direct(s, 0) && Marked(s, false) && s.out.size >= 512 && 512 <= s.wSize <= 0x8000
    ensures 0 < MinBlock(s) <= 0x8000 && MinBlock(s) == Min(s.out.size - 5, s.wSize)
  {
  }

  /** Moving the upper part of the window down by the window size. */
  method SlideDown(s: State)
    requires s.Shape() && WindowHas(s.window, s.S, s.base, s.strstart) && s.strstart >= s.wSize
    modifies s`strstart, s`insert, s`base, s.window
    ensures WindowHas(s.window, s.S, s.base, s.strstart)
    ensures s.strstart == old(s.strstart) - s.wSize && s.base == old(s.base) + s.wSize
    ensures s.insert == Min(old(s.insert), s.strstart)
  {
    hide Pow2, BlockFlush.Fits;
    var n := s.strstart - s.wSize;
    forall i | 0 <= i < n {
      s.window[i] := s.window[s.wSize + i];
    }
    s.strstart := n;
    s.base := s.base + s.wSize;
    s.insert := Min(s.insert, s.strstart);
  }

  /** Bytes just read are appended to the window. */
  method Append(s: State, data: seq<byte>)
    requires s.Shape() && WindowHas(s.window, s.S, s.base, s.strstart) && s.strstart + |data| <= 2 * s.wSize
    requires |s.S| == s.base + s.strstart + |data| && s.S[s.base + s.strstart..] == data && s.insert <= s.strstart
    requires s.insert <= s.wSize
    modifies s`strstart, s`insert, s.window
    ensures WindowHas(s.window, s.S, s.base, s.strstart)
    ensures s.strstart == old(s.strstart) + |data| && s.insert <= s.strstart && s.insert <= s.wSize
  {
    hide Pow2, BlockFlush.Fits;
    forall i | 0 <= i < |data| {
      s.window[s.strstart + i] := data[i];
    }
    forall i | 0 <= i < s.strstart + |data| ensures s.window[i] == s.S[s.base + i] {
      if i >= s.strstart {
        assert s.window[s.strstart + (i - s.strstart)] == data[i - s.strstart]
            == s.S[s.base + s.strstart..][i - s.strstart];
      }
    }
    s.strstart := s.strstart + |data|;
    s.insert := s.insert + Min(|data|, s.wSize - s.insert);
  }

  /** At least a window's worth of input was copied: the last of it becomes the window. */
  method Supplant(s: State, tail: seq<byte>)
    requires s.Shape() && |tail| == s.wSize <= |s.S| && s.S[|s.S| - s.wSize..] == tail
    modifies s`strstart, s`insert, s`base, s.window
    ensures WindowHas(s.window, s.S, s.base, s.strstart) && s.strstart == s.wSize == s.insert
    ensures |s.S| == s.base + s.strstart
  {
    hide Pow2, BlockFlush.Fits;
    forall i | 0 <= i < s.wSize {
      s.window[i] := tail[i];
    }
    s.strstart := s.wSize;
    s.insert := s.strstart;
    s.base := |s.S| - s.wSize;
    forall i | 0 <= i < s.strstart ensures s.window[i] == s.S[s.base + i] {
      assert tail[i] == s.S[s.base..][i];
    }
  }

  /** The input copied directly, the end of `taken`, enters the window as history. */
  method KeepHistory(s: State, taken: seq<byte>)
    requires Direct(s, |taken|) && |taken| <= |s.S| && s.S[|s.S| - |taken|..] == taken && s.out.Clear()
    modifies s`strstart, s`insert, s`base, s`blockStart, s`highWater, s`written, s.window
    ensures Direct(s, 0) && s.out.Clear() && s.base + s.blockStart == old(s.base + s.blockStart) + |taken|
    ensures s.strstart - s.blockStart == old(s.strstart - s.blockStart)
  {
    hide Pow2, BlockFlush.Fits, Covers, Output.Clear, State.Sent, State.Checked, State.Shape, WindowHas, State.AllGood;
    ShapeBounds(s);
    WindowApart(s);
    if |taken| > 0 {
      EnterWindow(s, taken);
      s.blockStart := s.strstart;
    }
    RaiseHighWater(s);
  }

  lemma ShapeBounds(s: State)
    requires s.Shape()
    ensures s.wSize >= 512
  {
  }

  method EnterWindow(s: State, taken: seq<byte>)
    requires s.Shape() && WindowHas(s.window, s.S, s.base, s.strstart) && s.strstart <= 2 * s.wSize && s.wSize >= 512
    requires |s.S| == s.base + s.strstart + |taken| && 0 < |taken| && s.S[|s.S| - |taken|..] == taken
    requires s.insert <= s.strstart && s.insert <= s.wSize
    modifies s`strstart, s`insert, s`base, s.window
    ensures WindowHas(s.window, s.S, s.base, s.strstart) && s.strstart <= 2 * s.wSize && |s.S| == s.base + s.strstart
    ensures s.insert <= s.strstart && s.insert <= s.wSize
  {
    hide Pow2, BlockFlush.Fits, WindowHas, State.Shape;
    var used := |taken|;
    if used >= s.wSize {
      assert s.S[|s.S| - s.wSize..] == taken[used - s.wSize..];
      Supplant(s, taken[used - s.wSize..]);
    } else {
      if 2 * s.wSize - s.strstart <= used {
        SlideDown(s);
      }
      Append(s, taken);
    }
  }

  method RaiseHighWater(s: State)
    requires s.strstart <= 2 * s.wSize && s.highWater <= s.written <= 2 * s.wSize
    modifies s`highWater, s`written
    ensures s.strstart <= s.highWater <= s.written <= 2 * s.wSize
  {
    s.written := if s.written < s.strstart then s.strstart else s.written;
    if s.highWater < s.strstart {
      s.highWater := s.strstart;
    }
  }

  /** read_buf() into the window. */
  method ReadIn(s: State, n: nat)
    requires Direct(s, 0) && s.NotLast() && s.out.Clear() && n <= |s.input| && s.strstart + n <= 2 * s.wSize
    modifies s`input, s`S, s`adler, s`totalIn, s`strstart, s`insert, s`highWater, s`written, s.window
    ensures Ready(s) && s.out.Clear() && s.strstart == old(s.strstart) + n
    ensures s.S == old(s.S) + old(s.input)[..n] && s.input == old(s.input)[n..]
  {
    hide Pow2, BlockFlush.Fits, Covers, Output.Clear, State.Sent, State.Checked, State.Shape, WindowHas, State.AllGood;
    hide State.NotLast;
    var data := s.input[..n];
    WindowWithin(s.window, s.S, s.base, s.strstart);
    WindowMore(s.window, s.S, data, s.base, s.strstart);
    WindowApart(s);
    CoversMore(s.blocks, s.cuts, s.S, data, s.base + s.blockStart);
    TakeInput(s, n);
    Append(s, data);
    RaiseHighWater(s);
  }

  /** The part of read_buf() that concerns the stream: the input moves on, and the check value with it. */
  method TakeInput(s: State, n: nat)
    requires n <= |s.input| && s.Checked()
    modifies s`input, s`S, s`adler, s`totalIn
    ensures s.Checked() && s.S == old(s.S) + old(s.input)[..n] && s.input == old(s.input)[n..]
  {
    hide CheckFrom, Start;
    var data := s.input[..n];
    CheckConcat(s.wrap, Start(s.wrap), s.S, data);
    s.adler := CheckFrom(s.wrap, s.adler, data);
    s.totalIn := s.totalIn + n;
    s.S := s.S + data;
    s.input := s.input[n..];
  }

  /** If the rest of the input does not fit, and what is stored already allows it, the window slides. */
  method MakeRoom(s: State)
    requires Ready(s) && s.out.Clear()
    modifies s`strstart, s`insert, s`base, s`blockStart, s.window
    ensures Ready(s) && s.out.Clear() && s.base + s.blockStart == old(s.base + s.blockStart)
    ensures s.strstart - s.blockStart == old(s.strstart - s.blockStart)
    ensures (s.strstart + |s.input| <= 2 * s.wSize || s.blockStart <= s.wSize)
  {
    hide Pow2, BlockFlush.Fits, Covers, Output.Clear, State.Sent, State.Checked;
    if |s.input| > 2 * s.wSize - s.strstart && s.blockStart >= s.wSize {
      s.blockStart := s.blockStart - s.wSize;
      SlideDown(s);
    }
  }

  /** The rest of the input goes to the window, as far as it fits. */
  method FillRest(s: State)
    requires Ready(s) && s.out.Clear()
    modifies s`input, s`S, s`adler, s`totalIn, s`strstart, s`insert, s`base, s`blockStart, s`highWater, s`written
    modifies s.window
    ensures Ready(s) && s.out.Clear() && s.S + s.input == old(s.S + s.input) && old(s.S) <= s.S
    ensures s.base + s.blockStart == old(s.base + s.blockStart)
    ensures (s.input == [] || s.strstart - s.blockStart >= s.wSize)
    ensures s.strstart - s.blockStart + |s.input| == old(s.strstart - s.blockStart + |s.input|)
  {
    hide Ready, Output.Clear, Direct;
    MakeRoom(s);
    ReadyBounds(s);
    var have := Min(2 * s.wSize - s.strstart, |s.input|);
    if have > 0 {
      ReadIn(s, have);
      assert old(s.input) == old(s.input)[..have] + old(s.input)[have..];
    } else {
      RaiseReady(s);
    }
  }

  method RaiseReady(s: State)
    requires Ready(s) && s.out.Clear()
    modifies s`highWater, s`written
    ensures Ready(s) && s.out.Clear()
  {
    RaiseHighWater(s);
  }

  lemma ReadyBounds(s: State)
    requires Ready(s)
    ensures Direct(s, 0) && s.NotLast() && 0 <= s.blockStart <= s.strstart <= 2 * s.wSize && s.out.size >= 512
    ensures s.out.Clear() ==> s.out.biValid < 8 && s.out.pending == 0 && s.out.pendingOut == 0
  {
  }

  /** A stored block from the window by way of the pending buffer. */
  method StorePending(s: State, len: nat, last: bool)
    requires Ready(s) && s.out.Clear() && len <= MAX_STORED && s.blockStart + len <= s.strstart
    requires (s.out.biValid + 42) / 8 + len <= s.out.size
    modifies s`blocks, s`cuts, s`blockStart, s.out, s.out.buf
    ensures s.cuts.marks == old(s.cuts.marks)
    ensures Direct(s, 0) && Marked(s, last) && s.blockStart == old(s.blockStart) + len
    ensures old(s.out.availOut) <= (old(s.out.biValid) + 42) / 8 + len ==> s.out.availOut == 0
  {
    hide Pow2, ByteBits, LowBits, BlockFlush.Fits, StoredHead, StoredBits, Covers, StreamBits, State.Checked, WindowHas;
    hide State.Sent, State.Shape, State.AllGood, State.NotLast, Output.Clear;
    WindowApart(s);
    WindowWithin(s.window, s.S, s.base, s.strstart);
    Unmarked(s);
    var data := s.window[s.blockStart..s.blockStart + len];
    var from := s.base + s.blockStart;
    WindowSlice(s.window, s.S, s.base, s.strstart, s.blockStart, len);
    var b := Block(Stored, [], Some(data), len, last, NO_TREES);
    CoversAppend(s.blocks, s.cuts, s.S, from, b, from + len);
    s.MoreGood(s.blocks, b);
    StoreAndFlush(s, b);
    s.blockStart := s.blockStart + len;
    RecordCut(s, from + len);
    NowMarked(old(s.blocks), s, b);
  }

  lemma NowMarked(before: seq<Block>, s: State, b: Block)
    requires (forall i :: 0 <= i < |before| ==> !before[i].last) && s.blocks == before + [b]
    ensures Marked(s, b.last)
  {
    assert s.blocks[..|s.blocks| - 1] == before;
  }

  lemma Unmarked(s: State)
    requires s.NotLast()
    ensures forall i :: 0 <= i < |s.blocks| ==> !s.blocks[i].last
  {
  }

  lemma WindowSlice(window: array<byte>, S: seq<byte>, base: nat, n: nat, at: nat, len: nat)
    requires WindowHas(window, S, base, n) && at + len <= n
    ensures at + len <= window.Length && base + at + len <= |S| && window[at..at + len] == S[base + at..base + at + len]
  {
  }

  /** _tr_stored_block() and flush_pending(). */
  method StoreAndFlush(s: State, b: Block)
    requires s.Shape() && s.Sent() && s.out.Clear() && b.form == Stored && b.verbatim.Some?
    requires |b.verbatim.value| <= MAX_STORED && (s.out.biValid + 42) / 8 + |b.verbatim.value| <= s.out.size
    modifies s`blocks, s.out, s.out.buf
    ensures s.Sent() && s.blocks == old(s.blocks) + [b]
    ensures old(s.out.availOut) <= (old(s.out.biValid) + 42) / 8 + |b.verbatim.value| ==> s.out.availOut == 0
  {
    hide Pow2, ByteBits, LowBits, BlockFlush.Fits, StoredHead, Output.BitStream, StreamBits, MarksPlaced;
    hide BlockBits;
    ghost var before := s.out.BitStream();
    var data := b.verbatim.value;
    MarksStayPlaced(s.kit.fixed, s.blocks, s.cuts.marks, b);
    StoredBlockBits(s.kit.fixed, before, b);
    StreamMore(s.kit.fixed, s.blocks, b);
    s.out.StoredBlock(data, b.last);
    s.out.FlushPending();
    s.blocks := s.blocks + [b];
  }

  lemma StoredBlockBits(fixed: bool, before: seq<bool>, b: Block)
    requires b.form == Stored && b.verbatim.Some? && |b.verbatim.value| <= MAX_STORED
    ensures before + StoredHead(|before|, |b.verbatim.value|, b.last) + ByteBits(b.verbatim.value)
         == before + BlockBits(fixed, b, |before|)
  {
    hide StoredHead, ByteBits;
  }

  /** What cannot be copied directly, but makes a block worth storing or is all there is to flush, is
      stored by way of the pending buffer. */
  method StoreWindow(s: State, flush: Flush) returns (last: bool)
    requires Ready(s) && s.out.Clear()
    requires (s.input == [] || s.strstart - s.blockStart >= s.wSize) && s.out.size >= 512
    requires TooLittle(s, flush, MinBlock(s)) && (flush == NoFlush || flush == Finish || SomeLeft(s))
    modifies s`blocks, s`cuts, s`blockStart, s.out, s.out.buf
    ensures s.cuts.marks == old(s.cuts.marks)
    ensures Direct(s, 0) && Marked(s, last)
    ensures last ==> flush == Finish && s.input == [] && s.blockStart == s.strstart
    ensures s.out.availOut == 0 || (!last && flush == NoFlush && s.input == [])
    ensures flush == Finish && !last ==> s.blockStart > old(s.blockStart)
  {
    hide Ready, Direct, Output.Clear, Marked;
    ReadyBounds(s);
    StartDirect(s);
    last := false;
    var have := Min(s.out.size - (s.out.biValid + 42) / 8, MAX_STORED);
    var minBlock := Min(have, s.wSize);
    var left := s.strstart - s.blockStart;
    if left >= minBlock || ((left > 0 || flush == Finish) && flush != NoFlush && |s.input| == 0 && left <= have) {
      var len := Min(left, have);
      last := flush == Finish && |s.input| == 0 && len == left;
      StorePending(s, len, last);
    }
  }

  /** There is something that is not yet in a block. */
  predicate SomeLeft(s: State)
    reads s`strstart, s`blockStart, s`input
  {
    s.strstart - s.blockStart + |s.input| != 0
  }

  /** All input is stored, and the last block, only, is marked. */
  lemma StoredAll(s: State)
    requires Direct(s, 0) && Marked(s, true) && s.input == [] && s.blockStart == s.strstart
    ensures s.Finished() && s.lookahead == 0 && s.Sent() && s.Checked()
  {
  }

  /** How much of the input is not yet in a block. */
  ghost function Unstored(s: State): int
    reads s`S, s`input, s`base, s`blockStart
  {
    |s.S| + |s.input| - (s.base + s.blockStart)
  }

  /** deflate_stored(), for one call. */
  method Compress(s: State, flush: Flush) returns (r: BlockState)
    requires Ready(s) && s.out.Clear()
    modifies s, s.window, s.out, s.out.buf
    ensures s.cuts.marks == old(s.cuts.marks)
    ensures s.lead == old(s.lead) && s.given == old(s.given) && s.room == old(s.room)
    ensures s.S + s.input == old(s.S + s.input) && old(s.S) <= s.S
    ensures r == NeedMore ==> Ready(s)
    ensures r == BlockDone ==>
      Ready(s) && s.input == [] && s.blockStart == s.strstart && flush != NoFlush && flush != Finish && s.out.Clear()
    ensures r == FinishStarted || r == FinishDone ==> s.Finished() && s.input == [] && s.lookahead == 0 && s.Sent()
    ensures r == FinishStarted || r == FinishDone ==> s.Checked() && flush == Finish
    ensures r == FinishDone ==> s.out.Clear()
    ensures r == NeedMore ==> s.out.availOut == 0 || (s.input == [] && flush == NoFlush)
    ensures r == NeedMore && flush == Finish ==> Unstored(s) < old(Unstored(s))
    ensures r == FinishStarted ==> s.out.availOut == 0
  {
    hide Ready, Direct, Output.Clear, Marked, State.Finished, State.Sent, State.Checked, State.AllGood, State.NotLast;
    hide TooLittle, MinBlock;
    assert |s.S + s.input| == |s.S| + |s.input|;
    var last := CopyAndKeep(s, flush);
    assert |s.S + s.input| == |s.S| + |s.input|;
    if last {
      StoredAll(s);
      return FinishDone;
    }
    BeReady(s);
    ReadyBounds(s);
    if flush != NoFlush && flush != Finish && |s.input| == 0 && s.strstart == s.blockStart {
      return BlockDone;
    }
    r := StoreRest(s, flush);
  }

  /** As much as possible is copied directly, and becomes history. */
  method CopyAndKeep(s: State, flush: Flush) returns (last: bool)
    requires Ready(s) && s.out.Clear()
    modifies s`blocks, s`cuts, s`blockStart, s`input, s`S, s`adler, s`totalIn, s`strstart, s`insert, s`base
    modifies s`highWater, s`written, s.window, s.out, s.out.buf
    ensures s.cuts.marks == old(s.cuts.marks) && s.out.size >= 512
    ensures s.S + s.input == old(s.S + s.input) && old(s.S) <= s.S
    ensures Direct(s, 0) && s.out.Clear() && Marked(s, last) && s.base + s.blockStart >= old(s.base + s.blockStart)
    ensures last ==> flush == Finish && s.input == [] && s.blockStart == s.strstart
    ensures !last ==> TooLittle(s, flush, MinBlock(s))
  {
    hide Ready, Direct, Output.Clear, Marked, State.Sent, State.Checked, State.AllGood, State.NotLast;
    ReadyBounds(s);
    var whole := s.input;
    var used;
    last, used := CopyDirect(s, flush);
    assert whole == whole[..used] + whole[used..];
    assert s.S[|s.S| - used..] == whole[..used];
    KeepHistory(s, whole[..used]);
  }

  /** What could not be copied directly goes to the window, and from there, perhaps, to the pending buffer. */
  method StoreRest(s: State, flush: Flush) returns (r: BlockState)
    requires Ready(s) && s.out.Clear() && s.out.size >= 512 && TooLittle(s, flush, MinBlock(s))
    requires flush == NoFlush || flush == Finish || SomeLeft(s)
    modifies s`input, s`S, s`adler, s`totalIn, s`strstart, s`insert, s`base, s`blockStart, s`highWater, s`written
    modifies s`blocks, s`cuts, s.window, s.out, s.out.buf
    ensures s.cuts.marks == old(s.cuts.marks)
    ensures s.S + s.input == old(s.S + s.input) && old(s.S) <= s.S
    ensures r == NeedMore ==> Ready(s)
    ensures r == FinishStarted ==> s.Finished() && s.input == [] && s.lookahead == 0 && s.Sent() && s.Checked()
    ensures r == FinishStarted ==> flush == Finish
    ensures r == NeedMore || r == FinishStarted
    ensures r == NeedMore ==> s.out.availOut == 0 || (s.input == [] && flush == NoFlush)
    ensures r == NeedMore && flush == Finish ==> Unstored(s) < old(Unstored(s))
    ensures r == FinishStarted ==> s.out.availOut == 0
  {
    hide Ready, Direct, Output.Clear, Marked, State.Finished, State.Sent, State.Checked;
    FillRest(s);
    assert |s.S + s.input| == |old(s.S + s.input)|;
    var last := StoreWindow(s, flush);
    if last {
      StoredAll(s);
      return FinishStarted;
    }
    BeReady(s);
    r := NeedMore;
  }

  lemma BeReady(s: State)
    requires Direct(s, 0) && Marked(s, false)
    ensures Ready(s)
  {
  }
}
