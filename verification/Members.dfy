/** What whole runs of deflate() produce, and a reader of gzip members and zlib streams to compare with
    (RFC 1952, section 2.3; RFC 1950, section 2.2). */
module Members {
  import opened Bits
  import opened Lz77
  import opened Pending
  import opened BlockStream
  import opened CheckValue
  import opened DeflateState
  import opened Deflate
  import opened Symbols
  import Adler32
  import BlockFormat
  import CrcSpec
  import GzFile
  import GzipHeader
  import ZlibHeader

  /** One call: more input, the output space it may use, and what to flush. */
  datatype Call = Call(more: seq<byte>, avail: nat, flush: Flush)

  function Inputs(calls: seq<Call>): seq<byte> {
    if |calls| == 0 then [] else Inputs(calls[..|calls| - 1]) + calls[|calls| - 1].more
  }

  /** Call i returned Z_OK and left output space over; `sizes` says how much has been delivered after each
      call, `before` how much before the first. */
  predicate LeftSpace(calls: seq<Call>, rets: seq<Return>, sizes: seq<nat>, before: nat, i: nat)
    requires i < |calls| == |rets| == |sizes|
  {
    rets[i] == Ok && sizes[i] < (if i == 0 then before else sizes[i - 1]) + calls[i].avail
  }

  /** The stream can be decoded from this place of the output on, giving the input from that place on. */
  ghost predicate Restartable(st: Stream, marks: seq<FlushPoint>, out: nat, at: nat) {
    st.Shape() && exists m :: m in marks && m.at == at && |st.FullHeader()| + m.bytes == out
  }

  /** Every full flush that left output space over has made the stream restartable there, at the place of the
      input reached. */
  ghost predicate FlushesMarked(st: Stream, marks: seq<FlushPoint>, calls: seq<Call>, rets: seq<Return>,
      sizes: seq<nat>, before: nat, given: nat)
    requires |calls| == |rets| == |sizes|
  {
    forall i :: 0 <= i < |calls| && calls[i].flush == FullFlush && LeftSpace(calls, rets, sizes, before, i) ==>
      Restartable(st, marks, sizes[i], given + |Inputs(calls[..i + 1])|)
  }

  /** What has been delivered after the last of these calls. */
  function SizeAfter(sizes: seq<nat>, before: nat): nat {
    if |sizes| == 0 then before else sizes[|sizes| - 1]
  }

  /** After some calls: where they started from is known by the input given and the output delivered before. */
  ghost predicate After(st: Stream, calls: seq<Call>, rets: seq<Return>, sizes: seq<nat>, given: seq<byte>,
      before: nat)
    reads st, st.s, st.s.window, st.s.head, st.s.prev, st.s.out, st.s.out.buf
  {
    var n := |calls| - 1;
    && st.Inv() && |rets| == |calls| == |sizes| && st.s.S + st.s.input == given + Inputs(calls)
    && |st.s.out.delivered| == SizeAfter(sizes, before)
    && FlushesMarked(st, st.s.cuts.marks, calls, rets, sizes, before, |given|)
    && (n >= 0 && rets[n] == StreamEnd ==> st.Complete() && st.s.S == given + Inputs(calls))
    && (n >= 0 && Flushes(calls[n].flush) && LeftSpace(calls, rets, sizes, before, n) ==>
          st.UpToDate(calls[n].flush) && st.s.S == given + Inputs(calls))
  }

  /** Any sequence of calls. The input read and the input still waiting are always the input given. Once a
      flush has left output space over, all input has been delivered. */
  method Run(st: Stream, calls: seq<Call>) returns (rets: seq<Return>, sizes: seq<nat>)
    requires st.Inv()
    modifies st, st.s, st.s.window, st.s.head, st.s.prev, st.s.out, st.s.out.buf
    ensures After(st, calls, rets, sizes, old(st.s.S + st.s.input), |old(st.s.out.delivered)|)
    ensures old(st.s.out.delivered) <= st.s.out.delivered
  {
    hide *;
    rets, sizes := [], [];
    ghost var given, before := st.s.S + st.s.input, |st.s.out.delivered|;
    NoCalls(st, calls);
    for i := 0 to |calls|
      invariant After(st, calls[..i], rets, sizes, given, before)
      invariant old(st.s.out.delivered) <= st.s.out.delivered
    {
      var ret, size := RunOne(st, calls[..i], rets, sizes, calls[i], given, before);
      rets, sizes := rets + [ret], sizes + [size];
      assert calls[..i + 1] == calls[..i] + [calls[i]];
    }
    assert calls[..|calls|] == calls;
  }

  lemma NoCalls(st: Stream, calls: seq<Call>)
    requires st.Inv()
    ensures After(st, calls[..0], [], [], st.s.S + st.s.input, |st.s.out.delivered|)
  {
    hide Stream.Inv;
    assert Inputs(calls[..0]) == [];
  }

  method RunOne(st: Stream, ghost calls: seq<Call>, ghost rets: seq<Return>, ghost sizes: seq<nat>, c: Call,
      ghost given: seq<byte>, ghost before: nat) returns (ret: Return, size: nat)
    requires After(st, calls, rets, sizes, given, before)
    modifies st, st.s, st.s.window, st.s.head, st.s.prev, st.s.out, st.s.out.buf
    ensures After(st, calls + [c], rets + [ret], sizes + [size], given, before)
    ensures old(st.s.out.delivered) <= st.s.out.delivered
  {
    hide After, Stream.Inv, Stream.Complete, Stream.Ahead, Stream.Rejects, Closer, Stream.UpToDate;
    ghost var marks := st.s.cuts.marks;
    AfterParts(st, calls, rets, sizes, given, before);
    ret := st.Deflate(c.more, c.avail, c.flush);
    size := |st.s.out.delivered|;
    if ret == Ok && Flushes(c.flush) && st.s.out.availOut > 0 {
      NothingWaits(st, c.flush);
    }
    AfterOne(st, calls, rets, sizes, c, ret, given, before, marks);
  }

  lemma AfterParts(st: Stream, calls: seq<Call>, rets: seq<Return>, sizes: seq<nat>, given: seq<byte>, before: nat)
    requires After(st, calls, rets, sizes, given, before)
    ensures st.Inv() && |rets| == |calls| == |sizes| && st.s.S + st.s.input == given + Inputs(calls)
    ensures |st.s.out.delivered| == SizeAfter(sizes, before)
    ensures FlushesMarked(st, st.s.cuts.marks, calls, rets, sizes, before, |given|)
  {
    hide Stream.Inv, FlushesMarked;
  }

  lemma AfterOne(st: Stream, calls: seq<Call>, rets: seq<Return>, sizes: seq<nat>, c: Call, ret: Return,
      given: seq<byte>, before: nat, marks: seq<FlushPoint>)
    requires st.Inv() && |rets| == |calls| == |sizes| && st.s.S + st.s.input == given + Inputs(calls) + c.more
    requires marks <= st.s.cuts.marks && FlushesMarked(st, marks, calls, rets, sizes, before, |given|)
    requires ret == StreamEnd ==> st.Complete() && st.s.input == []
    requires ret == Ok && Flushes(c.flush) && |st.s.out.delivered| < SizeAfter(sizes, before) + c.avail ==>
        st.UpToDate(c.flush) && st.s.input == []
    ensures After(st, calls + [c], rets + [ret], sizes + [|st.s.out.delivered|], given, before)
  {
    hide Stream.Inv, Stream.Complete, Stream.UpToDate, FlushesMarked;
    assert (calls + [c])[..|calls|] == calls;
    assert given + Inputs(calls) + c.more == given + Inputs(calls + [c]);
    assert st.s.input == [] ==> st.s.S + st.s.input == st.s.S;
    OneMoreFlush(st, calls, rets, sizes, before, |given|, marks, c, ret);
  }

  lemma NothingWaits(st: Stream, flush: Flush)
    requires st.UpToDate(flush)
    ensures st.s.input == [] && st.s.S + st.s.input == st.s.S
  {
    hide Stream.Inv, Compressors.AllInBlocks, Output.Clear;
  }

  /** Calling deflate() with Z_FINISH again and again, with any output space but none at all, comes to the
      end of the stream. */
  method FinishUp(st: Stream, spaces: nat -> nat) returns (calls: nat)
    requires st.Inv() && (st.status == FinishState ==> st.s.input == []) && forall i :: spaces(i) > 0
    modifies st, st.s, st.s.window, st.s.head, st.s.prev, st.s.out, st.s.out.buf
    ensures st.Complete() && st.s.S == old(st.s.S + st.s.input) && st.s.input == []
    ensures old(st.s.out.delivered) <= st.s.out.delivered
  {
    hide Stream.Inv, Stream.Complete, Stream.Ahead, Stream.Rejects;
    var ret := Ok;
    calls := 0;
    while ret != StreamEnd
      invariant st.Inv() && (st.status == FinishState ==> st.s.input == [])
      invariant st.s.S + st.s.input == old(st.s.S + st.s.input) && old(st.s.out.delivered) <= st.s.out.delivered
      invariant ret == StreamEnd ==> st.Complete() && st.s.input == []
      decreases ret != StreamEnd, st.Ahead().header, st.Ahead().stage, st.Ahead().work, st.Ahead().pending
    {
      st.AheadBounds();
      NotRejected(st, spaces(calls));
      ret := st.Deflate([], spaces(calls), Finish);
      calls := calls + 1;
    }
  }

  lemma NotRejected(st: Stream, avail: nat)
    requires avail > 0 && (st.status == FinishState ==> st.s.input == [])
    ensures !st.Rejects([], avail, Finish)
  {
  }

  /** The compressed data of a complete stream, between header and trailer. */
  ghost function Body(st: Stream): seq<byte>
    requires st.Complete()
    reads st, st.s, st.s.window, st.s.head, st.s.prev, st.s.out, st.s.out.buf
  {
    var all := st.s.out.delivered;
    var t := |TrailerOf(st.s.wrap, st.s.S)|;
    if |st.FullHeader()| + t <= |all| then all[|st.FullHeader()|..|all| - t] else []
  }

  /** A complete stream is the header, the blocks bit by bit, and the trailer for the whole input; and
      the blocks stand for the whole input, in whichever form each of them was encoded. */
  lemma CompleteStream(st: Stream, stored: seq<bool>)
    requires st.Complete() && |stored| == |st.s.blocks|
    ensures st.s.out.delivered == st.FullHeader() + Body(st) + TrailerOf(st.s.wrap, st.s.S)
    ensures ByteBits(Body(st)) == StreamBits(st.s.kit.fixed, st.s.blocks)
    ensures Inflate(st.s.blocks, stored) == Some(st.s.S)
  {
    hide Covers, StreamBits, ByteBits, TrailerOf, Stream.FullHeader, CheckFrom, Pow2;
    CoveredInflates(st.s.blocks, stored, st.s.cuts, st.s.S, |st.s.S|);
    assert st.s.S[..|st.s.S|] == st.s.S;
    Delivered(st);
  }

  lemma Delivered(st: Stream)
    requires st.Complete()
    ensures st.s.out.delivered == st.FullHeader() + Body(st) + TrailerOf(st.s.wrap, st.s.S)
    ensures ByteBits(Body(st)) == StreamBits(st.s.kit.fixed, st.s.blocks)
  {
    hide Covers, StreamBits, ByteBits, TrailerOf, Stream.FullHeader, CheckFrom, Pow2;
    var put, trailer := st.s.out.put, TrailerOf(st.s.wrap, st.s.S);
    assert st.s.out.delivered == put;
    var rest := put[st.s.out.start..];
    NoBits(st.s.out.biBuf);
    NoTrailer(st.s.wrap, st.s.S);
    if !st.trailed {
      assert rest[..|rest|] == rest && rest[|rest|..] == [];
    }
    assert Body(st) == rest[..|rest| - |trailer|];
  }

  lemma NoTrailer(w: Wrap, S: seq<byte>)
    ensures w == Raw ==> TrailerOf(w, S) == []
  {
  }

  // Reading back.

  /** Header, compressed data, trailer: None if any of them is malformed or does not match the data. The
      trailer comes at the byte boundary after the last block, wherever that turns out to be. */
  ghost function ReadMember(w: Wrap, data: seq<byte>): Option<Part> {
    match HeaderEnd(w, data)
    case None => None
    case Some(at) =>
      match if at <= |data| then BlockFormat.Decode(ByteBits(data[at..]), 0, []) else None
      case None => None
      case Some(p) =>
        var end := at + (p.end + 7) / 8;
        var n := TrailerSize(w);
        if end + n <= |data| && TrailerMatches(w, p.out, data[end..end + n]) then Some(Part(p.out, end + n)) else None
  }

  function TrailerSize(w: Wrap): nat {
    match w
    case Raw => 0
    case Zlib => 4
    case Gzip => 8
  }

  /** Does the trailer belong to this data? That of zlib is the Adler-32 of the data, its most significant byte
      first; that of gzip the CRC-32 of the data and its length modulo 2^32, each with the least significant
      byte first. */
  predicate TrailerMatches(w: Wrap, out: seq<byte>, t: seq<byte>)
    requires |t| == TrailerSize(w)
  {
    match w
    case Raw => true
    case Zlib =>
      var b0: nat, b1: nat, b2: nat, b3: nat := t[0], t[1], t[2], t[3];
      0x100_0000 * b0 + 0x1_0000 * b1 + 0x100 * b2 + b3 == Adler32.Defined(1, out)
    case Gzip =>
      && GzipHeader.Number(t[..4]) == CrcSpec.Update(0, out)
      && GzipHeader.Number(t[4..]) == |out| % 0x1_0000_0000
  }

  /** What the compressor writes is such a trailer. */
  lemma TrailerRead(w: Wrap, S: seq<byte>)
    ensures |TrailerOf(w, S)| == TrailerSize(w) && TrailerMatches(w, S, TrailerOf(w, S))
  {
    hide Adler32.Defined, CrcSpec.Update, GzipHeader.Number, GzipHeader.LittleEndian;
    match w {
      case Raw =>
      case Zlib =>
        Digits(CheckOf(Zlib, S));
      case Gzip =>
        var t := TrailerOf(w, S);
        GzipHeader.NumberOfFour(CheckOf(Gzip, S));
        GzipHeader.NumberOfFour(|S|);
        assert t[..4] == GzipHeader.LittleEndian(CheckOf(Gzip, S), 4);
        assert t[4..] == GzipHeader.LittleEndian(|S|, 4);
    }
  }

  lemma Digits(v: u32)
    ensures 0x100_0000 * (v / 0x100_0000) + 0x1_0000 * (v / 0x1_0000 % 256) + 0x100 * (v / 256 % 256) + v % 256 == v
  {
    assert v / 0x100_0000 == v / 0x1_0000 / 256 && v / 0x1_0000 == v / 256 / 256;
  }

  /** Where the header ends: for zlib, after two bytes that name method 8 and no dictionary, and are a
      multiple of 31. */
  function HeaderEnd(w: Wrap, data: seq<byte>): Option<nat> {
    match w
    case Raw => Some(0)
    case Zlib =>
      if |data| < 2 then None
      else
        var cmf: nat, flg: nat := data[0], data[1];
        if cmf % 16 != 8 || cmf / 16 > 7 || flg / 32 % 2 != 0 || (cmf * 256 + flg) % 31 != 0 then None else Some(2)
    case Gzip =>
      match GzipHeader.Parse(data)
      case None => None
      case Some(p) => Some(p.end)
  }

  /** The short gzip header is that of no fields at all. */
  lemma PlainIsHeader(st: Stream)
    ensures st.PlainHeader() == GzipHeader.Header(GzipHeader.Fields(false, 0, OS_CODE, None, None, None, false),
        st.ExtraFlags())
  {
    assert GzipHeader.LittleEndian(0, 2) == [0, 0];
    assert GzipHeader.LittleEndian(0, 4) == [0, 0] + GzipHeader.LittleEndian(0, 2);
  }

  lemma HeaderRead(st: Stream, rest: seq<byte>)
    requires st.Shape()
    ensures HeaderEnd(st.s.wrap, st.FullHeader() + rest) == Some(|st.FullHeader()|)
  {
    match st.s.wrap {
      case Raw =>
      case Zlib =>
        hide ZlibHeader.HeaderWord;
        var flags := ZlibHeader.LevelFlags(st.level, st.strategy);
        ZlibHeader.HeaderFields(st.wBits, flags);
        var w := ZlibHeader.HeaderWord(st.wBits, flags);
        assert w / 256 * 256 + w % 256 == w;
      case Gzip =>
        hide GzipHeader.Header, GzipHeader.Parse;
        if st.head.Some? {
          GzipHeader.HeaderParses(st.head.value, st.ExtraFlags(), rest);
        } else {
          PlainIsHeader(st);
          GzipHeader.HeaderParses(GzipHeader.Fields(false, 0, OS_CODE, None, None, None, false), st.ExtraFlags(), rest);
        }
    }
  }

  /** How zlib streams with the largest window begin at each level. */
  predicate BeginsZlib(d: seq<byte>, level: nat) {
    && |d| >= 2 && d[0] == 0x78
    && d[1] == if level < 2 then 0x01 else if level < 6 then 0x5e else if level == 6 then 0x9c else 0xda
  }

  /** How gzip members begin; the ninth byte tells the slowest level from the fastest. */
  predicate BeginsGzip(d: seq<byte>, level: nat, strategy: nat) {
    && |d| >= 10 && d[0] == 0x1f && d[1] == 0x8b && d[2] == 8
    && d[8] == if level == 9 then 2 else if strategy >= 2 || level < 2 then 4 else 0
  }

  lemma HeaderBegins(st: Stream)
    requires 9 <= st.wBits <= 15
    ensures st.s.wrap == Zlib && st.wBits == 15 && st.strategy == 0 ==> BeginsZlib(st.FullHeader(), st.level)
    ensures st.s.wrap == Gzip ==> BeginsGzip(st.FullHeader(), st.level, st.strategy)
  {
    hide ZlibHeader.HeaderWord, ZlibHeader.LevelFlags;
    match st.s.wrap {
      case Raw =>
      case Zlib =>
        ZlibHeader.CommonHeaders(st.level);
      case Gzip =>
        if st.head.Some? {
          GzipStart(st.head.value, st.ExtraFlags());
        }
    }
  }

  /** And so begins what is delivered. */
  lemma HeaderBytes(st: Stream)
    requires st.Complete()
    ensures st.s.wrap == Zlib && st.wBits == 15 && st.strategy == 0 ==> BeginsZlib(st.s.out.delivered, st.level)
    ensures st.s.wrap == Gzip ==> BeginsGzip(st.s.out.delivered, st.level, st.strategy)
  {
    hide TrailerOf, Body, Stream.FullHeader, Stream.Inv;
    Shaped(st);
    Delivered(st);
    HeaderBegins(st);
    assert forall i :: 0 <= i < |st.FullHeader()| ==> st.s.out.delivered[i] == st.FullHeader()[i];
  }

  /** The gz layer takes a gzip member for one. */
  lemma GzipRecognised(st: Stream, f: GzFile.File, rest: seq<byte>)
    requires st.Complete() && st.s.wrap == Gzip && f.bytes == st.s.out.delivered + rest
    ensures GzFile.Magic(f, 0) && !GzFile.Raw(f)
  {
    hide Stream.Complete;
    HeaderBytes(st);
  }

  lemma GzipStart(f: GzipHeader.Fields, xfl: byte)
    ensures var h := GzipHeader.Header(f, xfl); |h| >= 10 && h[0] == 31 && h[1] == 139 && h[2] == 8 && h[8] == xfl
  {
  }

  lemma Shaped(st: Stream)
    requires st.Complete()
    ensures st.Shape() && st.Ended()
  {
  }

  /** At every level and with every strategy: what a complete stream delivered is read back as the input,
      from the format alone, and so is its length, whatever comes after it. */
  lemma ReadsBack(st: Stream, rest: seq<byte>)
    requires st.Complete()
    ensures ReadMember(st.s.wrap, st.s.out.delivered + rest) == Some(Part(st.s.S, |st.s.out.delivered|))
  {
    hide Covers, StreamBits, ByteBits, TrailerOf, Stream.FullHeader, HeaderEnd, Body, Stream.Inv, Pow2;
    hide BlockFormat.Decode, Stream.Shape, TrailerMatches, TrailerSize;
    Shaped(st);
    var header, body, trailer := st.FullHeader(), Body(st), TrailerOf(st.s.wrap, st.s.S);
    var data := st.s.out.delivered + rest;
    Delivered(st);
    HeaderRead(st, body + trailer + rest);
    assert header + (body + trailer + rest) == data;
    assert data[|header|..] == body + (trailer + rest);
    ByteBitsConcat(body, trailer + rest);
    var n, bits := |st.s.S|, ByteBits(data[|header|..]);
    BlockFormat.StreamDecodes(st.s.kit.fixed, st.s.blocks, st.s.cuts, st.s.S, n, bits);
    assert st.s.S[..n] == st.s.S;
    ByteBitsLength(body);
    RoundUp(BlockFormat.Decode(bits, 0, []).value.end, |body|);
    assert data[|header| + |body|..|header| + |body| + |trailer|] == trailer;
    TrailerRead(st.s.wrap, st.s.S);
  }

  lemma {:induction false} ByteBitsLength(data: seq<byte>)
    ensures |ByteBits(data)| == 8 * |data|
  {
    if data != [] {
      ByteBitsLength(data[..|data| - 1]);
    }
  }

  lemma RoundUp(end: nat, n: nat)
    requires end + PadTo8(end) == 8 * n
    ensures (end + 7) / 8 == n
  {
  }

  // Flushing.

  /** The bits of the blocks have been delivered after the header, but for less than a byte of them. */
  lemma BlocksDelivered(st: Stream, flush: Flush) returns (body: seq<byte>)
    requires st.UpToDate(flush)
    ensures 9 <= st.wBits <= 15 && st.Shape() && st.s.out.delivered == st.FullHeader() + body && st.s.out.biValid < 8
    ensures st.s.out.biValid == 0 ==> ByteBits(body) == StreamBits(st.s.kit.fixed, st.s.blocks)
    ensures ByteBits(body) + LowBits(st.s.out.biBuf, st.s.out.biValid) == StreamBits(st.s.kit.fixed, st.s.blocks)
    ensures Covers(st.s.blocks, st.s.cuts, st.s.S, |st.s.S|) && st.s.NotLast()
  {
    hide Covers, StreamBits, ByteBits, LowBits, Stream.FullHeader, Pow2, Compressors.ReadyFor;
    Compressors.ReadyParts(st.Kind(), st.s);
    var put := st.s.out.put;
    assert st.s.out.delivered == put;
    body := put[st.s.out.start..];
    NoBits(st.s.out.biBuf);
  }

  /** The compressed data delivered so far. */
  ghost function BodySoFar(st: Stream): seq<byte>
    requires st.Shape()
    reads st.s, st.s.out
  {
    if |st.FullHeader()| <= |st.s.out.delivered| then st.s.out.delivered[|st.FullHeader()|..] else []
  }

  /** After a sync or full flush that left output space over, what has been delivered can be decoded to all
      input given so far. */
  lemma FlushedReads(st: Stream, flush: Flush)
    requires st.UpToDate(flush) && Aligns(flush)
    ensures st.s.input == [] && HeaderEnd(st.s.wrap, st.s.out.delivered) == Some(|st.FullHeader()|)
    ensures st.Shape() && st.s.out.delivered == st.FullHeader() + BodySoFar(st)
    ensures BlockFormat.DecodeSoFar(ByteBits(BodySoFar(st)), 0, []) == Some(st.s.S)
  {
    hide Covers, StreamBits, ByteBits, Stream.FullHeader, HeaderEnd, Pow2, BlockFormat.DecodeSoFar, Stream.Shape;
    var body := BlocksDelivered(st, flush);
    HeaderRead(st, body);
    assert st.s.out.delivered[|st.FullHeader()|..] == body;
    BlockFormat.SoFarDecodes(st.s.kit.fixed, st.s.blocks, st.s.cuts, st.s.S, |st.s.S|);
    assert st.s.S[..|st.s.S|] == st.s.S;
  }

  /** After a partial flush the same holds of the bits up to the empty block, of which at least three and less
      than ten follow. */
  lemma PartlyFlushedReads(st: Stream) returns (n: nat)
    requires st.UpToDate(PartialFlush)
    ensures st.s.input == [] && HeaderEnd(st.s.wrap, st.s.out.delivered) == Some(|st.FullHeader()|)
    ensures st.Shape() && st.s.out.delivered == st.FullHeader() + BodySoFar(st)
    ensures n + 3 <= |ByteBits(BodySoFar(st))| <= n + 10
    ensures BlockFormat.DecodeSoFar(ByteBits(BodySoFar(st))[..n], 0, []) == Some(st.s.S)
  {
    hide Covers, StreamBits, ByteBits, LowBits, Stream.FullHeader, HeaderEnd, Pow2, BlockFormat.DecodeSoFar;
    hide Stream.Shape, Stream.Inv, Compressors.AllInBlocks;
    var body := BlocksDelivered(st, PartialFlush);
    HeaderRead(st, body);
    assert st.s.out.delivered[|st.FullHeader()|..] == body;
    var bs := st.s.blocks;
    var before := bs[..|bs| - 1];
    assert before + [bs[|bs| - 1]] == bs;
    StreamMore(st.s.kit.fixed, before, bs[|bs| - 1]);
    n := |StreamBits(st.s.kit.fixed, before)|;
    MarkerBits(st.s.kit.fixed, n);
    PrefixOf(ByteBits(body), LowBits(st.s.out.biBuf, st.s.out.biValid), StreamBits(st.s.kit.fixed, before),
      BlockBits(st.s.kit.fixed, bs[|bs| - 1], n));
    LowBitsCount(st.s.out.biBuf, st.s.out.biValid);
    var cs := WithoutMarker(st.s.blocks, st.s.cuts, st.s.S);
    BlockFormat.SoFarDecodes(st.s.kit.fixed, before, cs, st.s.S, |st.s.S|);
    assert st.s.S[..|st.s.S|] == st.s.S;
  }

  lemma MarkerBits(fixed: bool, at: nat)
    ensures |BlockBits(fixed, Compressors.Marker(true), at)| == 10
  {
  }

  lemma LowBitsCount(v: nat, n: nat)
    ensures |LowBits(v, n)| == n
  {
  }

  lemma PrefixOf(a: seq<bool>, b: seq<bool>, c: seq<bool>, d: seq<bool>)
    requires a + b == c + d && |c| <= |a|
    ensures a[..|c|] == c
  {
    assert a[..|c|] == (a + b)[..|c|];
  }

  /** A full flush that left output space over makes the stream restartable. */
  lemma FlushedRestarts(st: Stream)
    requires st.UpToDate(FullFlush)
    ensures Restartable(st, st.s.cuts.marks, |st.s.out.delivered|, |st.s.S|)
  {
    hide Covers, StreamBits, ByteBits, LowBits, Stream.FullHeader, Pow2, Stream.Shape, Stream.Inv;
    hide Compressors.AllInBlocks;
    var body := BlocksDelivered(st, FullFlush);
    ByteBitsLength(body);
    assert Compressors.MarkNow(st.s) in st.s.cuts.marks;
  }

  lemma StillRestartable(st: Stream, marks: seq<FlushPoint>, more: seq<FlushPoint>, out: nat, at: nat)
    requires Restartable(st, marks, out, at) && marks <= more
    ensures Restartable(st, more, out, at)
  {
    hide Stream.FullHeader;
    var m :| m in marks && m.at == at && |st.FullHeader()| + m.bytes == out;
    assert m in more;
  }

  /** One call more: the places marked before are marked still. */
  lemma OneMoreFlush(st: Stream, calls: seq<Call>, rets: seq<Return>, sizes: seq<nat>, before: nat, given: nat,
      marks: seq<FlushPoint>, c: Call, ret: Return)
    requires |calls| == |rets| == |sizes| && marks <= st.s.cuts.marks
    requires FlushesMarked(st, marks, calls, rets, sizes, before, given)
    requires |st.s.S + st.s.input| == given + |Inputs(calls + [c])|
    requires ret == Ok && c.flush == FullFlush && |st.s.out.delivered| < SizeAfter(sizes, before) + c.avail ==>
        st.UpToDate(FullFlush)
    ensures FlushesMarked(st, st.s.cuts.marks, calls + [c], rets + [ret], sizes + [|st.s.out.delivered|], before,
      given)
  {
    hide Stream.UpToDate, Restartable, Inputs;
    var cs, rs, ss := calls + [c], rets + [ret], sizes + [|st.s.out.delivered|];
    forall i | 0 <= i < |cs| && cs[i].flush == FullFlush && LeftSpace(cs, rs, ss, before, i)
      ensures Restartable(st, st.s.cuts.marks, ss[i], given + |Inputs(cs[..i + 1])|)
    {
      if i < |calls| {
        assert LeftSpace(calls, rets, sizes, before, i);
        assert cs[..i + 1] == calls[..i + 1];
        StillRestartable(st, marks, st.s.cuts.marks, ss[i], given + |Inputs(cs[..i + 1])|);
      } else {
        NothingWaits(st, FullFlush);
        FlushedRestarts(st);
        assert cs[..i + 1] == cs;
      }
    }
  }

  /** And so it stays: a decoder that knows nothing of what came before the flush reads the rest. */
  lemma RestartReads(st: Stream, out: nat, at: nat)
    requires st.Complete() && Restartable(st, st.s.cuts.marks, out, at)
    ensures at <= |st.s.S| && out <= |st.s.out.delivered|
    ensures var p := BlockFormat.Decode(ByteBits(st.s.out.delivered[out..]), 0, []);
      p.Some? && p.value.out == st.s.S[at..]
  {
    hide Stream.FullHeader, Stream.Complete, BlockFormat.Decode, ByteBits;
    var m :| m in st.s.cuts.marks && m.at == at && |st.FullHeader()| + m.bytes == out;
    RestartFrom(st, m);
  }

  lemma RestartFrom(st: Stream, m: FlushPoint)
    requires st.Complete() && st.Shape() && m in st.s.cuts.marks
    ensures m.at <= |st.s.S| && |st.FullHeader()| + m.bytes <= |st.s.out.delivered|
    ensures var p := BlockFormat.Decode(ByteBits(st.s.out.delivered[|st.FullHeader()| + m.bytes..]), 0, []);
      p.Some? && p.value.out == st.s.S[m.at..]
  {
    hide Covers, StreamBits, ByteBits, TrailerOf, Stream.FullHeader, Body, Stream.Complete, Pow2, BlockFormat.Decode;
    hide MarksPlaced, State.Shape, GzipHeader.GoodFields;
    Delivered(st);
    Marked(st, m);
    var header, body, trailer := st.FullHeader(), Body(st), TrailerOf(st.s.wrap, st.s.S);
    var bits := ByteBits(body + trailer);
    ByteBitsConcat(body, trailer);
    BlockFormat.MarkDecodes(st.s.kit.fixed, st.s.blocks, st.s.cuts, st.s.S, |st.s.S|, m, bits);
    BytesFrom(header, body, trailer, m.bytes);
    assert st.s.S[m.at..|st.s.S|] == st.s.S[m.at..];
  }

  lemma BytesFrom(header: seq<byte>, body: seq<byte>, trailer: seq<byte>, n: nat)
    requires 8 * n <= |ByteBits(body + trailer)|
    ensures |header| + n <= |header + body + trailer|
    ensures ByteBits((header + body + trailer)[|header| + n..]) == ByteBits(body + trailer)[8 * n..]
  {
    hide ByteBits;
    ByteBitsLength(body + trailer);
    ByteBitsFrom(body + trailer, n);
    assert (header + body + trailer)[|header| + n..] == (body + trailer)[n..];
  }

  lemma Marked(st: Stream, m: FlushPoint)
    requires st.Complete() && m in st.s.cuts.marks
    ensures m.index < |st.s.blocks| && MarksPlaced(st.s.kit.fixed, st.s.blocks, st.s.cuts.marks)
    ensures BlockFormat.Ends(st.s.blocks) && Covers(st.s.blocks, st.s.cuts, st.s.S, |st.s.S|)
  {
    hide Stream.Trailed, State.Sent, MarksPlaced, Covers;
    MarkBefore(st.s.blocks, st.s.cuts, st.s.S, |st.s.S|, m);
  }

  lemma MarkBefore(blocks: seq<Block>, cuts: Cuts, S: seq<byte>, end: nat, m: FlushPoint)
    requires Covers(blocks, cuts, S, end) && m in cuts.marks && |blocks| > 0 && blocks[|blocks| - 1].last
    ensures m.index < |blocks|
  {
    hide SinceMark, BlockCovers;
    assert GoodMark(blocks, cuts, S, end, m);
  }

  lemma ByteBitsFrom(data: seq<byte>, n: nat)
    requires 8 * n <= |ByteBits(data)| && |ByteBits(data)| == 8 * |data|
    ensures n <= |data| && ByteBits(data)[8 * n..] == ByteBits(data[n..])
  {
    hide ByteBits;
    ByteBitsLength(data[..n]);
    assert data == data[..n] + data[n..];
    ByteBitsConcat(data[..n], data[n..]);
  }

  /** At level 0 nothing is compressed; at any other no data is stored outright. Z_HUFFMAN_ONLY never matches,
      Z_RLE only matches runs of one byte, and no match reaches further back than the window allows. */
  lemma StrategyKept(st: Stream, b: Block)
    requires st.Complete() && b in st.s.blocks
    ensures if st.level == 0 then b.form != Tallied else b.form == Stored ==> b.verbatim == Some([])
    ensures forall i :: 0 <= i < |b.syms| && b.form == Tallied ==>
      b.syms[i].dist + (MAX_MATCH + MIN_MATCH + 1) <= st.s.wSize
      && (st.strategy == 2 ==> b.syms[i].dist == 0) && (st.strategy == 3 ==> b.syms[i].dist <= 1)
  {
    hide Stream.FullHeader, Stream.Trailed, Covers, MarksPlaced, StreamBits, State.Sent, CheckFrom;
    assert st.s.GoodBlock(b);
  }
}
