/** compress.c: a whole buffer compressed in one call, from the allocation of the stream to its end. */
module Compress {
  import opened Bits
  import opened Lz77
  import opened HashFn
  import opened CheckValue
  import opened Symbols
  import opened Compressors
  import opened DeflateState
  import opened Deflate
  import BlockFlush
  import Members

  /** deflateInit(): the zlib format, a window of 32K, and memLevel 8. */
  method DeflateInit(level: nat) returns (st: Stream)
    requires level <= 9
    ensures st.Inv() && st.status == InitState && st.s.S == st.s.input == [] && st.s.wrap == Zlib && st.level == level
    ensures st.s.out.delivered == [] && st.strategy == 0 && st.wBits == 15 && st.s.wSize == 0x8000
    ensures st.s.symEnd == 16383 && st.s.out.size == 65536
    ensures var t := TuningOf(level);
      && st.s.maxChainLength == t.chain && st.s.maxLazyMatch == t.lazy && st.s.goodMatch == t.good
      && st.s.niceMatch == t.nice
    ensures fresh(st) && fresh(st.s) && fresh(st.s.window) && fresh(st.s.head) && fresh(st.s.prev) && fresh(st.s.out)
    ensures fresh(st.s.out.buf)
  {
    hide State.Filled, State.Chained, State.Sent, State.Shape, CheckOf, BlockFlush.Fits;
    var t := TuningOf(level);
    WindowSize();
    var s := new State(0x8000, HashConfig(15, 5), 0x4000, Zlib, false, t.chain, t.lazy, t.good, t.nice, false, 0x8000,
      level == 0);
    CheckEmpty(Zlib);
    Untouched(s);
    st := new Stream(s, level, 0, 15, None);
  }

  lemma WindowSize()
    ensures Pow2(15) == 0x8000
  {
    Pow2Values();
  }

  lemma Untouched(s: State)
    requires s.Initial() && s.Sent() && s.Checked() && s.out.Clear() && s.lead == []
    ensures s.S == [] && s.adler == Start(s.wrap) && s.totalIn == 0 && s.out.put == [] && s.out.delivered == []
  {
    CheckEmpty(s.wrap);
  }

  /** The next piece of a quantity handed over in pieces of at most `max`. */
  function Piece(left: nat, max: nat): (n: nat)
    ensures n <= left && n <= max && (n == 0 ==> left == 0 || max == 0)
  {
    if left > max then max else left
  }

  /** What has been given to the stream and what has come out of it, out of everything there is. */
  ghost predicate Underway(st: Stream, source: seq<byte>, taken: nat, destLen: nat, left: nat)
    reads st, st.s, st.s.window, st.s.head, st.s.prev, st.s.out, st.s.out.buf
  {
    && st.Inv() && taken <= |source| && st.s.S + st.s.input == source[..taken]
    && |st.s.out.delivered| + left <= destLen
    && (st.status == FinishState ==> taken == |source| && st.s.input == [])
  }

  lemma NothingTaken(st: Stream, source: seq<byte>, destLen: nat)
    requires st.Inv() && st.s.S == st.s.input == [] && st.s.out.delivered == [] && st.status == InitState
    ensures Underway(st, source, 0, destLen, destLen)
  {
    hide Stream.Inv;
  }

  /** One call, with n more bytes of input. It is refused only if there is no output space. */
  method CallDeflate(st: Stream, source: seq<byte>, taken: nat, n: nat, ghost destLen: nat, availOut: nat,
      ghost left: nat) returns (err: Return)
    requires Underway(st, source, taken, destLen, availOut + left) && taken + n <= |source|
    requires st.s.input == [] || n == 0
    requires n == 0 && taken < |source| ==> st.s.input != []
    modifies st, st.s, st.s.window, st.s.head, st.s.prev, st.s.out, st.s.out.buf
    ensures Underway(st, source, taken + n, destLen, st.s.out.availOut + left)
    ensures |st.s.out.delivered| + st.s.out.availOut == |old(st.s.out.delivered)| + availOut
    ensures |old(st.s.out.delivered)| <= |st.s.out.delivered|
    ensures err == Ok || err == BufError || err == StreamEnd
    ensures err == BufError <==> availOut == 0
    ensures err == Ok ==> st.s.out.availOut == 0 || (st.s.input == [] && taken + n < |source|)
    ensures err == StreamEnd ==> st.Complete() && st.s.S == source
  {
    hide Stream.Inv, Stream.Complete, Stream.Ahead, Closer, Stream.UpToDate;
    var flush := if taken + n < |source| then NoFlush else Finish;
    var more := source[taken..taken + n];
    assert source[..taken] + more == source[..taken + n];
    assert source[..|source|] == source;
    WhenRefused(st, more, availOut, flush);
    err := st.Deflate(more, availOut, flush);
  }

  lemma WhenRefused(st: Stream, more: seq<byte>, avail: nat, flush: Flush)
    requires st.status == FinishState ==> flush == Finish && st.s.input + more == []
    requires flush == Finish || st.s.input + more != []
    ensures st.Rejects(more, avail, flush) <==> avail == 0
  {
  }

  lemma ItBegins(dest: seq<byte>, level: nat)
    requires Members.BeginsZlib(dest, level)
    ensures |dest| >= 2 && dest[0] == 0x78
    ensures dest[1] == if level < 2 then 0x01 else if level < 6 then 0x5e else if level == 6 then 0x9c else 0xda
  {
  }

  /** compress2(): input and output space are handed over in pieces of at most `max` bytes. If there is room
      for it, the result is a zlib stream that reads back as the source, up to its last byte; if not, all the
      room is used up. */
  method Compress2(source: seq<byte>, destLen: nat, level: int, max: nat) returns (err: Return, dest: seq<byte>)
    requires max > 0
    ensures err == StreamError <==> level < -1 || level > 9
    ensures err == Ok || err == BufError || err == StreamError
    ensures |dest| <= destLen && (err == BufError ==> |dest| == destLen)
    ensures err == Ok ==> Members.ReadMember(Zlib, dest) == Some(Part(source, |dest|))
    ensures err == Ok ==> |dest| >= 2 && dest[0] == 0x78
    ensures err == Ok ==>
      dest[1] == if level == -1 || level == 6 then 0x9c else if level < 2 then 1 else if level < 6 then 0x5e else 0xda
  {
    hide *;
    if level < -1 || level > 9 {
      return StreamError, [];
    }
    var st := DeflateInit(if level == -1 then 6 else level);
    var availOut: nat, left: nat, taken: nat := 0, destLen, 0;
    err := Ok;
    NothingTaken(st, source, destLen);
    while err == Ok
      invariant Underway(st, source, taken, destLen, availOut + left) && st.s.wrap == Zlib && st.strategy == 0
      invariant st.wBits == 15 && st.level == if level == -1 then 6 else level
      invariant |st.s.out.delivered| + availOut + left == destLen && taken <= |source|
      invariant err == Ok ==> availOut == 0 || (st.s.input == [] && taken < |source|)
      invariant err == Ok || err == BufError || err == StreamEnd
      invariant err == BufError ==> |st.s.out.delivered| == destLen
      invariant err == StreamEnd ==> st.Complete() && st.s.S == source
      decreases |source| - taken + left, if err == Ok then 1 else 0
    {
      if availOut == 0 {
        availOut := Piece(left, max);
        left := left - availOut;
      }
      var n := if |st.s.input| == 0 then Piece(|source| - taken, max) else 0;
      err := CallDeflate(st, source, taken, n, destLen, availOut, left);
      taken := taken + n;
      availOut := st.s.out.availOut;
    }
    dest := st.s.out.delivered;
    if err == StreamEnd {
      err := Ok;
      Members.ReadsBack(st, []);
      assert dest + [] == dest;
      Members.HeaderBytes(st);
      ItBegins(dest, st.level);
    }
  }
}
