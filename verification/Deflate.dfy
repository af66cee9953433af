/** deflate(): the header, the compressed data and the trailer, resumable wherever the output space
    runs out. */
module Deflate {
  import opened Bits
  import opened Lz77
  import opened Pending
  import opened BlockStream
  import opened CheckValue
  import opened DeflateState
  import GzipHeader
  import ZlibHeader
  import opened Compressors
  import BlockFlush
  import CrcSpec

  datatype Status = InitState | GzipState | ExtraState | NameState | CommentState | HcrcState | BusyState | FinishState
  datatype Return = Ok | StreamEnd | StreamError | BufError

  const OS_CODE: byte := 3

  /** What the level and the strategy promise: at level 0, and only there, data is stored; Z_HUFFMAN_ONLY uses
      no matches and Z_RLE only those at distance 1; all others look for matches. */
  ghost predicate Promised(s: State, level: nat, strategy: nat) {
    && (s.stores <==> level == 0)
    && (level != 0 && strategy == 2 ==> s.reach == 0)
    && (level != 0 && strategy == 3 ==> s.reach == 1)
    && (level != 0 && strategy != 2 && strategy != 3 ==> Tuned(s))
  }

  class Stream {
    const s: State
    const level: nat
    const strategy: nat
    const wBits: nat
    const head: Option<GzipHeader.Fields>
    var status: Status
    var gzindex: nat
    var lastFlush: int
    var trailed: bool

    /** A stream around a state just reset. */
    constructor (s: State, level: nat, strategy: nat, wBits: nat, head: Option<GzipHeader.Fields>)
      requires 9 <= wBits <= 15 && s.wSize == Pow2(wBits) && (head.Some? ==> GzipHeader.GoodFields(head.value))
      requires s.kit.fixed == (strategy == 4) && s.filtered == (strategy == 1) && Promised(s, level, strategy)
      requires s.Initial() && s.Sent() && s.out.Clear() && s.lead == [] && s.out.put == [] && s.adler == Start(s.wrap)
      requires s.totalIn == 0
      ensures InHeader() && this.s == s && this.level == level && this.strategy == strategy && this.wBits == wBits
      ensures this.head == head
      ensures lastFlush == -2 && !trailed
    {
      this.s, this.level, this.strategy, this.wBits, this.head := s, level, strategy, wBits, head;
      status := if s.wrap == Gzip then GzipState else InitState;
      gzindex, lastFlush, trailed := 0, -2, false;
    }

    ghost predicate Shape() {
      && 9 <= wBits <= 15 && s.Shape() && s.wSize == Pow2(wBits)
      && (head.Some? ==> GzipHeader.GoodFields(head.value))
      && s.kit.fixed == (strategy == 4) && s.filtered == (strategy == 1) && Promised(s, level, strategy)
    }

    /** The XFL byte. */
    function ExtraFlags(): byte {
      if level == 9 then 2 else if strategy >= 2 || level < 2 then 4 else 0
    }

    /** The whole header this stream is to begin with. */
    ghost function FullHeader(): seq<byte>
      requires 9 <= wBits <= 15
    {
      match s.wrap
      case Raw => []
      case Zlib =>
        var w := ZlibHeader.HeaderWord(wBits, ZlibHeader.LevelFlags(level, strategy));
        ZlibHeader.HeaderFields(wBits, ZlibHeader.LevelFlags(level, strategy));
        [w / 256, w % 256]
      case Gzip =>
        if head.Some? then GzipHeader.Header(head.value, ExtraFlags()) else PlainHeader()
    }

    function PlainHeader(): seq<byte> {
      [31, 139, 8, 0, 0, 0, 0, 0, ExtraFlags(), OS_CODE]
    }

    /** As much of the header as has been put when a call stops, or continues, in a given state. */
    ghost predicate HeaderPut(put: seq<byte>, status: Status, gzindex: nat) {
      if status == InitState then s.wrap != Gzip && put == []
      else if status == GzipState then s.wrap == Gzip && put == []
      else InFields(status) && s.wrap == Gzip && head.Some? && FieldsPut(put, head.value, status, gzindex)
    }

    predicate InFields(status: Status) {
      status == ExtraState || status == NameState || status == CommentState || status == HcrcState
    }

    ghost predicate FieldsPut(put: seq<byte>, h: GzipHeader.Fields, status: Status, gzindex: nat)
      requires InFields(status)
    {
      var fixed, extra := GzipHeader.Fixed(h, ExtraFlags()), GzipHeader.Extra(h);
      match status
      case ExtraState => gzindex <= |extra| && put == fixed + extra[..gzindex]
      case NameState => TextPut(put, fixed + extra, h.name, gzindex)
      case CommentState => TextPut(put, fixed + extra + GzipHeader.Text(h.name), h.comment, gzindex)
      case HcrcState => put == GzipHeader.BeforeCrc(h, ExtraFlags())
    }

    /** A string put as far as the index, which is not beyond its end. */
    ghost predicate TextPut(put: seq<byte>, before: seq<byte>, text: Option<seq<byte>>, gzindex: nat) {
      if text.Some? then gzindex <= |text.value| && put == before + text.value[..gzindex]
          else gzindex == 0 && put == before
    }

    /** The running CRC covers all header bytes put so far, if the header is to end with one. */
    ghost predicate HeaderCrc(adler: u32, put: seq<byte>) {
      head.Some? && if head.value.hcrc then adler == CrcSpec.Update(0, put) else adler == 0
    }

    /** What holds of the output and the compressor all through the header. */
    ghost predicate Base()
      reads s`strstart, s`lookahead, s`S, s`base, s`matchStart, s`absMatch, s`written, s`highWater, s`ins, s`top
      reads s`insert
      reads s`blockStart, s`blocks, s`syms, s`cuts, s`matchAvailable, s`matchLength, s`prevLength, s`lead, s`given
      reads s`room, s`totalIn
      reads s.window, s.head, s.prev, s.out, s.out.buf
    {
      && Shape() && s.Initial() && s.totalIn == 0 && s.out.Rest() && s.out.start == 0 && s.out.biValid == 0
      && s.lead == []
      && s.given <= s.out.delivered && |s.out.delivered| + s.out.availOut == s.room
    }

    ghost predicate InHeader()
      reads `status, `gzindex, s, s.window, s.head, s.prev, s.out, s.out.buf
    {
      && Base() && HeaderPut(s.out.put, status, gzindex)
      && (InFields(status) ==> HeaderCrc(s.adler, s.out.put)) && (status == InitState ==> s.adler == 1)
    }

    /** A step of the header that stops has used up the output space and left something pending;
        otherwise more can be put. */
    ghost predicate Stopped(suspended: bool)
      reads s.out
    {
      if suspended then s.out.pending != 0 && s.out.availOut == 0 else s.out.pendingOut == 0
    }

    // The gzip header, field by field.

    /** HCRC_UPDATE: the CRC takes in the header bytes put since `beg`. */
    method HcrcUpdate(beg: nat, ghost done: nat)
      requires Shape() && head.Some? && s.out.Valid() && s.out.pendingOut == 0 && beg <= s.out.pending
      requires done + s.out.pending - beg == |s.out.put| && done >= 0
      requires HeaderCrc(s.adler, s.out.put[..done])
      modifies s`adler
      ensures HeaderCrc(s.adler, s.out.put)
    {
      hide Pow2, CrcSpec.Update;
      var fresh' := s.out.buf[beg..s.out.pending];
      assert s.out.put == s.out.put[..done] + fresh' by {
        assert s.out.put == s.out.delivered + s.out.buf[..s.out.pending];
        assert s.out.put[done..] == fresh';
      }
      if head.value.hcrc && s.out.pending > beg {
        CrcSpec.UpdateConcat(0, s.out.put[..done], fresh');
        s.adler := CrcSpec.Update(s.adler, fresh');
      } else {
        NoMore(s.out.put, done, fresh');
      }
    }

    lemma NoMore(put: seq<byte>, done: nat, data: seq<byte>)
      requires done <= |put| && put == put[..done] + data && (data == [] || !head.Some? || !head.value.hcrc)
      ensures data == [] ==> put == put[..done]
    {
    }

    /** flush_pending() during the header, and stopping if something remains. */
    method FlushHeader() returns (suspended: bool)
      requires Base() && s.out.pendingOut == 0
      modifies `lastFlush, s.out, s.out.buf
      ensures Base() && Stopped(suspended) && s.out.put == old(s.out.put) && (!suspended ==> s.out.pending == 0)
      ensures !suspended ==> lastFlush == old(lastFlush)
    {
      hide Pow2, State.Initial, GzipHeader.GoodFields;
      s.out.FlushPending();
      suspended := s.out.pending != 0;
      if suspended {
        lastFlush := -1;
      }
    }

    /** Bytes of the header put and taken into the CRC. */
    method PutChecked(data: seq<byte>)
      requires Base() && head.Some? && s.out.pendingOut == 0 && s.out.pending + |data| <= s.out.size
      requires HeaderCrc(s.adler, s.out.put)
      modifies s`adler, s.out, s.out.buf
      ensures Base() && s.out.put == old(s.out.put) + data && HeaderCrc(s.adler, s.out.put)
      ensures s.out.pendingOut == 0 && s.out.pending == old(s.out.pending) + |data|
    {
      hide Pow2, State.Initial, GzipHeader.GoodFields, CrcSpec.Update;
      var beg := s.out.pending;
      ghost var done := |s.out.put|;
      s.out.PutBytes(data);
      assert s.out.put[..done] == old(s.out.put);
      HcrcUpdate(beg, done);
    }

    /** The extra field put and checked as far as the index. */
    ghost predicate ExtraSoFar()
      reads this, s, s.window, s.head, s.prev, s.out, s.out.buf
    {
      && Base() && s.wrap == Gzip && head.Some? && HeaderCrc(s.adler, s.out.put)
      && gzindex <= |GzipHeader.Extra(head.value)|
      && s.out.put == GzipHeader.Fixed(head.value, ExtraFlags()) + GzipHeader.Extra(head.value)[..gzindex]
    }

    method PutExtra(copy: nat)
      requires ExtraSoFar() && s.out.pendingOut == 0
      requires gzindex + copy <= |GzipHeader.Extra(head.value)| && s.out.pending + copy <= s.out.size
      modifies `gzindex, s`adler, s.out, s.out.buf
      ensures ExtraSoFar() && s.out.pendingOut == 0 && gzindex == old(gzindex) + copy
    {
      hide Base, GzipHeader.Fixed, GzipHeader.Extra, HeaderCrc;
      var extra := GzipHeader.Extra(head.value);
      PutChecked(extra[gzindex..gzindex + copy]);
      assert extra[..gzindex] + extra[gzindex..gzindex + copy] == extra[..gzindex + copy];
      gzindex := gzindex + copy;
    }

    method FlushExtra() returns (suspended: bool)
      requires ExtraSoFar() && s.out.pendingOut == 0
      modifies `lastFlush, s.out, s.out.buf
      ensures ExtraSoFar() && Stopped(suspended) && (!suspended ==> s.out.pending == 0)
      ensures !suspended ==> lastFlush == old(lastFlush)
    {
      hide Base, GzipHeader.Fixed, GzipHeader.Extra;
      suspended := FlushHeader();
    }

    lemma BaseParts()
      requires Base()
      ensures Shape() && s.out.Valid()
    {
    }

    lemma PendingFits()
      requires Base()
      ensures s.out.pending <= s.out.size && s.out.size >= 512
    {
    }

    /** The extra field, in pieces as large as the pending buffer allows. */
    method CopyExtra() returns (suspended: bool)
      requires ExtraSoFar() && s.out.pendingOut == 0
      modifies `gzindex, `lastFlush, s`adler, s.out, s.out.buf
      ensures ExtraSoFar() && Stopped(suspended) && (!suspended ==> gzindex == |GzipHeader.Extra(head.value)|)
      ensures !suspended ==> lastFlush == old(lastFlush)
    {
      hide Base, GzipHeader.Fixed, GzipHeader.Extra, HeaderCrc;
      var left := |GzipHeader.Extra(head.value)| - gzindex;
      PendingFits();
      while s.out.pending + left > s.out.size
        invariant ExtraSoFar() && s.out.pendingOut == 0 && left == |GzipHeader.Extra(head.value)| - gzindex
        invariant s.out.pending <= s.out.size && s.out.size > 0 && lastFlush == old(lastFlush)
        decreases left, s.out.pending
      {
        var copy := s.out.size - s.out.pending;
        PutExtra(copy);
        suspended := FlushExtra();
        if suspended {
          return;
        }
        left := left - copy;
      }
      PutExtra(left);
      suspended := false;
    }

    method WriteExtra() returns (suspended: bool)
      requires InHeader() && status == ExtraState && s.out.pendingOut == 0
      modifies `status, `gzindex, `lastFlush, s`adler, s.out, s.out.buf
      ensures InHeader() && Stopped(suspended)
      ensures if suspended then status == ExtraState else status == NameState
      ensures !suspended ==> lastFlush == old(lastFlush)
    {
      hide Base, GzipHeader.Fixed, GzipHeader.Extra, HeaderCrc;
      suspended := false;
      if head.value.extra.Some? {
        suspended := CopyExtra();
        if suspended {
          return;
        }
        gzindex := 0;
      } else {
        NoExtra(head.value);
      }
      status := NameState;
    }

    lemma NoExtra(h: GzipHeader.Fields)
      requires h.extra.None?
      ensures GzipHeader.Extra(h) == []
    {
    }

    /** A string put as far as the index; the CRC covers what was put before `done`. */
    ghost predicate TextSoFar(text: seq<byte>, before: seq<byte>, done: nat)
      reads `gzindex, s, s.window, s.head, s.prev, s.out, s.out.buf
    {
      && Base() && head.Some? && done <= |s.out.put| && HeaderCrc(s.adler, s.out.put[..done])
      && gzindex <= |text| && s.out.put == before + text[..gzindex]
    }

    /** The pending buffer is full: its bytes enter the CRC and leave. */
    method TextFull(text: seq<byte>, ghost before: seq<byte>, beg: nat, ghost done: nat) returns (suspended: bool)
      requires TextSoFar(text, before, done) && s.out.pendingOut == 0 && beg <= s.out.pending
      requires done + s.out.pending - beg == |s.out.put|
      modifies `lastFlush, s`adler, s.out, s.out.buf
      ensures TextSoFar(text, before, |s.out.put|) && HeaderCrc(s.adler, s.out.put) && Stopped(suspended)
      ensures (!suspended ==> s.out.pending == 0)
      ensures !suspended ==> lastFlush == old(lastFlush)
    {
      hide GzipHeader.GoodFields, State.Initial, Pow2, HeaderCrc;
      HcrcUpdate(beg, done);
      suspended := FlushHeader();
      assert s.out.put[..|s.out.put|] == s.out.put;
    }

    /** One character, or the terminating zero. */
    method PutChar(text: seq<byte>, ghost before: seq<byte>, ghost done: nat) returns (val: byte)
      requires TextSoFar(text, before, done) && s.out.pendingOut == 0 && s.out.pending < s.out.size
      requires GzipHeader.NoZero(text)
      modifies `gzindex, s.out, s.out.buf
      ensures Base() && s.out.pendingOut == 0 && s.out.pending == old(s.out.pending) + 1
      ensures |s.out.put| == |old(s.out.put)| + 1
      ensures done <= |s.out.put| && HeaderCrc(s.adler, s.out.put[..done])
      ensures if val != 0 then TextSoFar(text, before, done) && gzindex == old(gzindex) + 1
          else s.out.put == before + text + [0]
    {
      hide GzipHeader.GoodFields, State.Initial, Pow2, HeaderCrc;
      val := if gzindex < |text| then text[gzindex] else 0;
      gzindex := gzindex + 1;
      s.out.PutByte(val);
      assert s.out.put[..done] == old(s.out.put)[..done];
      if val != 0 {
        assert text[..gzindex] == text[..gzindex - 1] + [val];
      } else {
        assert text[..gzindex - 1] == text;
      }
    }

    /** A zero-terminated string, taken up wherever the last call stopped. */
    method WriteText(text: seq<byte>, ghost before: seq<byte>) returns (suspended: bool)
      requires TextSoFar(text, before, |s.out.put|) && s.out.pendingOut == 0 && GzipHeader.NoZero(text)
      modifies `gzindex, `lastFlush, s`adler, s.out, s.out.buf
      ensures Stopped(suspended) && Base() && HeaderCrc(s.adler, s.out.put)
      ensures if suspended then TextSoFar(text, before, |s.out.put|) else s.out.put == before + text + [0]
      ensures !suspended ==> lastFlush == old(lastFlush)
    {
      hide Base, HeaderCrc, GzipHeader.NoZero;
      assert s.out.put[..|s.out.put|] == s.out.put;
      var beg: nat := s.out.pending;
      ghost var done: nat := |s.out.put|;
      var val := 1;
      while val != 0
        invariant Base() && s.out.pendingOut == 0 && beg <= s.out.pending && 0 <= done
        invariant done + s.out.pending - beg == |s.out.put| && lastFlush == old(lastFlush)
        invariant done <= |s.out.put| && HeaderCrc(s.adler, s.out.put[..done])
        invariant if val != 0 then TextSoFar(text, before, done) && gzindex <= |text|
            else s.out.put == before + text + [0]
        decreases val != 0, |text| - gzindex
      {
        PendingFits();
        if s.out.pending == s.out.size {
          suspended := TextFull(text, before, beg, done);
          if suspended {
            return;
          }
          beg, done := 0, |s.out.put|;
        }
        val := PutChar(text, before, done);
      }
      BaseParts();
      HcrcUpdate(beg, done);
      suspended := false;
    }

    method WriteName() returns (suspended: bool)
      requires InHeader() && status == NameState && s.out.pendingOut == 0
      modifies `status, `gzindex, `lastFlush, s`adler, s.out, s.out.buf
      ensures InHeader() && Stopped(suspended)
      ensures if suspended then status == NameState else status == CommentState
      ensures !suspended ==> lastFlush == old(lastFlush)
    {
      hide Base, GzipHeader.Fixed, GzipHeader.Extra, HeaderCrc;
      var h := head.value;
      suspended := false;
      GoodStrings(h);
      if h.name.Some? {
        assert s.out.put[..|s.out.put|] == s.out.put;
        suspended := WriteText(h.name.value, GzipHeader.Fixed(h, ExtraFlags()) + GzipHeader.Extra(h));
        if suspended {
          return;
        }
        gzindex := 0;
      }
      status := CommentState;
    }

    method WriteComment() returns (suspended: bool)
      requires InHeader() && status == CommentState && s.out.pendingOut == 0
      modifies `status, `gzindex, `lastFlush, s`adler, s.out, s.out.buf
      ensures InHeader() && Stopped(suspended)
      ensures if suspended then status == CommentState else status == HcrcState
      ensures !suspended ==> lastFlush == old(lastFlush)
    {
      hide Base, GzipHeader.Fixed, GzipHeader.Extra, HeaderCrc;
      var h := head.value;
      suspended := false;
      GoodStrings(h);
      if h.comment.Some? {
        assert s.out.put[..|s.out.put|] == s.out.put;
        suspended := WriteText(h.comment.value,
          GzipHeader.Fixed(h, ExtraFlags()) + GzipHeader.Extra(h) + GzipHeader.Text(h.name));
        if suspended {
          return;
        }
      }
      status := HcrcState;
    }

    lemma GoodStrings(h: GzipHeader.Fields)
      requires Base() && head == Some(h)
      ensures (h.name.Some? ==> GzipHeader.NoZero(h.name.value))
      ensures (h.comment.Some? ==> GzipHeader.NoZero(h.comment.value))
    {
    }

    /** Once the header is complete, what is put is compressed data. */
    method StartBody()
      requires Base() && s.out.put == FullHeader() && s.adler == Start(s.wrap)
      modifies `status, s`lead, s.out`start
      ensures status == BusyState && s.lead == FullHeader() && Shape()
      ensures s.Initial() && s.Sent() && s.Checked() && s.out.pendingOut == old(s.out.pendingOut)
      ensures s.out.pending == old(s.out.pending)
    {
      hide Pow2, GzipHeader.GoodFields, CheckFrom, FullHeader, MarksPlaced, StreamBits, State.Initial;
      hide BlockFlush.Fits, Output.Rest, Output.BitStream;
      NothingPlaced(s.kit.fixed);
      NothingYet();
      s.out.BodyStarts();
      s.lead := s.out.put;
      CheckEmpty(s.wrap);
      status := BusyState;
    }

    lemma NothingYet()
      requires s.Initial()
      ensures s.S == [] && s.blocks == [] && s.cuts == NO_CUTS
    {
      hide State.Filled, State.Chained;
    }

    /** Ready for the first input, with the header behind. */
    ghost predicate Begun()
      reads this, s, s.window, s.head, s.prev, s.out, s.out.buf
    {
      status == BusyState && Shape() && s.lead == FullHeader() && s.Initial() && s.Sent() && s.Checked()
    }

    /** The flush that leaves compression an empty pending buffer, or stops. */
    method FlushBegun() returns (suspended: bool)
      requires Begun() && s.out.pendingOut == 0
      modifies `lastFlush, s.out, s.out.buf
      ensures Begun() && Stopped(suspended) && (!suspended ==> s.out.Clear())
      ensures !suspended ==> lastFlush == old(lastFlush)
    {
      hide Pow2, GzipHeader.GoodFields, State.Initial, StreamBits, FullHeader;
      s.out.FlushPending();
      suspended := s.out.pending != 0;
      if suspended {
        lastFlush := -1;
      }
    }

    method PutCrc()
      requires Base() && head.Some? && head.value.hcrc && HeaderCrc(s.adler, s.out.put) && s.out.pendingOut == 0
      requires s.out.pending + 2 <= s.out.size
      modifies s`adler, s.out, s.out.buf
      ensures Base() && s.adler == 0 && s.out.put == old(s.out.put) + GzipHeader.Crc16(old(s.out.put))
      ensures s.out.pendingOut == 0
    {
      hide Pow2, GzipHeader.GoodFields, State.Initial, CrcSpec.Update;
      var adler := s.adler;
      s.out.PutByte(adler % 256);
      s.out.PutByte(adler / 256 % 256);
      assert GzipHeader.LittleEndian(adler, 2) == [adler % 256, adler / 256 % 256] by {
        assert GzipHeader.LittleEndian(adler / 256, 1) == [adler / 256 % 256];
      }
      s.adler := 0;
    }

    /** The header CRC, if there is one, and the end of the header. */
    method WriteHcrc() returns (suspended: bool)
      requires InHeader() && status == HcrcState && s.out.pendingOut == 0
      modifies `status, `lastFlush, s`adler, s`lead, s.out, s.out.buf
      ensures Stopped(suspended) && (!suspended ==> s.out.Clear())
      ensures if suspended && status == HcrcState then InHeader() else Begun()
      ensures !suspended ==> lastFlush == old(lastFlush)
    {
      hide Base, GzipHeader.BeforeCrc, GzipHeader.Crc16, Begun, Output.Clear;
      PendingFits();
      if head.value.hcrc {
        if s.out.pending + 2 > s.out.size {
          suspended := FlushHeader();
          if suspended {
            return;
          }
        }
        PutCrc();
      }
      StartBody();
      ItHasBegun();
      suspended := FlushBegun();
    }

    lemma ItHasBegun()
      requires status == BusyState && Shape() && s.lead == FullHeader() && s.Initial() && s.Sent() && s.Checked()
      ensures Begun()
    {
    }

    lemma NothingPut()
      requires Base() && s.out.put == []
      ensures s.out.pending == 0 && s.out.pendingOut == 0 && s.out.delivered == [] && s.out.size >= 512
    {
    }

    /** The fixed fields of the gzip header. */
    method WriteFixed(h: GzipHeader.Fields)
      requires InHeader() && status == GzipState && head == Some(h)
      modifies `status, `gzindex, s`adler, s.out, s.out.buf
      ensures InHeader() && status == ExtraState && s.out.pendingOut == 0
    {
      hide Base, GzipHeader.Extra, HeaderCrc;
      NothingPut();
      s.adler := 0;
      CrcOfNothing();
      FixedLength(h);
      PutChecked(GzipHeader.Fixed(h, ExtraFlags()));
      gzindex := 0;
      status := ExtraState;
    }

    lemma CrcOfNothing()
      requires head.Some?
      ensures HeaderCrc(0, [])
    {
      CheckEmpty(Gzip);
    }

    lemma FixedLength(h: GzipHeader.Fields)
      ensures |GzipHeader.Fixed(h, ExtraFlags())| <= 12
    {
    }

    /** The gzip header without fields to write. */
    method WritePlain() returns (suspended: bool)
      requires InHeader() && status == GzipState && head == None
      modifies `status, `lastFlush, s`adler, s`lead, s.out, s.out.buf
      ensures Begun() && Stopped(suspended) && (!suspended ==> s.out.Clear())
      ensures !suspended ==> lastFlush == old(lastFlush)
    {
      hide Begun, Base, Output.Clear, State.Initial, Pow2, FullHeader;
      PutPlain();
      StartBody();
      ItHasBegun();
      suspended := FlushBegun();
    }

    method PutPlain()
      requires InHeader() && status == GzipState && head == None
      modifies s`adler, s.out, s.out.buf
      ensures Base() && s.out.put == FullHeader() && s.adler == Start(s.wrap) && s.out.pendingOut == 0
      ensures s.out.delivered == old(s.out.delivered) && s.out.availOut == old(s.out.availOut)
    {
      hide Output.Clear, State.Initial, Pow2, Promised, GzipHeader.GoodFields;
      NothingPut();
      s.adler := 0;
      s.out.PutBytes(PlainHeader());
    }

    /** The zlib header. */
    method WriteZlib() returns (suspended: bool)
      requires InHeader() && status == InitState && s.wrap == Zlib
      modifies `status, `lastFlush, s`adler, s`lead, s.out, s.out.buf
      ensures Begun() && Stopped(suspended) && (!suspended ==> s.out.Clear())
      ensures !suspended ==> lastFlush == old(lastFlush)
    {
      hide Begun, Output.Clear, State.Initial, Pow2;
      NothingPut();
      var flags := ZlibHeader.LevelFlags(level, strategy);
      ZlibHeader.HeaderFields(wBits, flags);
      s.out.PutShortMSB(ZlibHeader.HeaderWord(wBits, flags));
      s.adler := 1;
      StartBody();
      ItHasBegun();
      suspended := FlushBegun();
    }

    method WriteFields() returns (suspended: bool)
      requires InHeader() && InFields(status) && s.out.pendingOut == 0
      modifies `status, `gzindex, `lastFlush, s`adler, s`lead, s.out, s.out.buf
      ensures Stopped(suspended) && (!suspended ==> s.out.Clear() && Begun())
      ensures suspended ==> InHeader() || Begun()
      ensures !suspended ==> lastFlush == old(lastFlush)
    {
      hide InHeader, Begun, Output.Clear;
      suspended := false;
      if status == ExtraState {
        suspended := WriteExtra();
        if suspended {
          return;
        }
      }
      if status == NameState {
        suspended := WriteName();
        if suspended {
          return;
        }
      }
      if status == CommentState {
        suspended := WriteComment();
        if suspended {
          return;
        }
      }
      suspended := WriteHcrc();
    }

    /** Without a wrapper there is no header. */
    method WriteNone()
      requires InHeader() && status == InitState && s.wrap == Raw
      modifies `status, s`lead, s.out`start
      ensures Begun() && s.out.Clear() && Stopped(false)
    {
      hide Begun, State.Initial, Pow2;
      NothingPut();
      StartBody();
      ItHasBegun();
    }

    lemma NotYetFields()
      requires InHeader() && !InFields(status)
      ensures status == InitState || status == GzipState
      ensures status == InitState ==> s.wrap == Raw || s.wrap == Zlib
    {
    }

    /** The header, from wherever the last call stopped. */
    method WriteHeader() returns (suspended: bool)
      requires InHeader() && s.out.pendingOut == 0
      modifies `status, `gzindex, `lastFlush, s`adler, s`lead, s.out, s.out.buf
      ensures Stopped(suspended) && (!suspended ==> s.out.Clear() && Begun())
      ensures suspended ==> InHeader() || Begun()
      ensures !suspended ==> lastFlush == old(lastFlush)
    {
      hide Stopped, InHeader, Begun, Output.Clear;
      if !InFields(status) {
        NotYetFields();
      }
      if status == InitState && s.wrap == Raw {
        WriteNone();
        return false;
      }
      if status == InitState {
        suspended := WriteZlib();
        return;
      }
      if status == GzipState {
        if head == None {
          suspended := WritePlain();
          return;
        }
        StartsClear();
        WriteFixed(head.value);
      }
      suspended := WriteFields();
    }

    lemma StartsClear()
      requires InHeader() && status == GzipState
      ensures s.out.pendingOut == 0
    {
    }

    // Between calls.

    function Kind(): Method {
      MethodOf(level, strategy)
    }

    /** What holds between calls, whatever the last one did. */
    ghost predicate Inv()
      reads `status, `gzindex, `trailed, s, s.window, s.head, s.prev, s.out, s.out.buf
    {
      && Shape() && (trailed ==> status == FinishState && s.wrap != Raw)
      && if status == BusyState then s.lead == FullHeader() && ReadyFor(Kind(), s)
         else if status == FinishState then s.lead == FullHeader() && Ended()
             && (if trailed then Trailed() else s.Sent())
         else InHeader()
    }

    /** All input has been emitted, and the last block, only, is marked. */
    ghost predicate Ended()
      reads s`blocks, s`cuts, s`S, s`adler, s`totalIn, s`lookahead
    {
      && s.Finished() && s.lookahead == 0 && s.Checked() && MarksPlaced(s.kit.fixed, s.blocks, s.cuts.marks)
    }

    lemma SentMarks()
      requires s.Sent()
      ensures MarksPlaced(s.kit.fixed, s.blocks, s.cuts.marks)
    {
      hide StreamBits, MarksPlaced, Output.Rest, Output.BitStream;
    }

    /** The trailer follows the compressed data. */
    ghost predicate Trailed()
      reads s`blocks, s`lead, s`given, s`room, s`S, s.out, s.out.buf
    {
      && s.out.Rest() && s.out.biValid == 0 && s.out.Lead() == s.lead
      && s.given <= s.out.delivered && |s.out.delivered| + s.out.availOut == s.room
      && ExistsBody(s.out.put[s.out.start..], TrailerOf(s.wrap, s.S))
    }

    ghost predicate ExistsBody(rest: seq<byte>, trailer: seq<byte>)
      reads s`blocks
    {
      |trailer| <= |rest| && rest[|rest| - |trailer|..] == trailer
      && ByteBits(rest[..|rest| - |trailer|]) == StreamBits(s.kit.fixed, s.blocks)
    }

    /** The input handed over and the output space offered for a call. */
    method Supply(more: seq<byte>, avail: nat)
      requires Inv()
      modifies s`input, s`given, s`room, s.out
      ensures Inv() && s.input == old(s.input) + more && s.out.availOut == avail
      ensures s.given == s.out.delivered == old(s.out.delivered) && s.room == |s.given| + avail
      ensures s.out.pending == old(s.out.pending)
    {
      if status == BusyState {
        SupplyBusy(more, avail);
      } else {
        SupplyRest(more, avail);
      }
    }

    method SupplyBusy(more: seq<byte>, avail: nat)
      requires Inv() && status == BusyState
      modifies s`input, s`given, s`room, s.out
      ensures Inv() && s.input == old(s.input) + more && s.out.availOut == avail
      ensures s.given == s.out.delivered == old(s.out.delivered) && s.room == |s.given| + avail
      ensures s.out.pending == old(s.out.pending)
    {
      hide ReadyFor, FullHeader;
      Provide(Kind(), s, more, avail);
    }

    method SupplyRest(more: seq<byte>, avail: nat)
      requires Inv() && status != BusyState
      modifies s`input, s`given, s`room, s.out
      ensures Inv() && s.input == old(s.input) + more && s.out.availOut == avail
      ensures s.given == s.out.delivered == old(s.out.delivered) && s.room == |s.given| + avail
      ensures s.out.pending == old(s.out.pending)
    {
      hide ReadyFor, FullHeader, State.Initial, State.Finished, State.Checked, StreamBits, HeaderPut, HeaderCrc;
      hide ExistsBody, Pow2, GzipHeader.GoodFields, MarksPlaced, BlockFlush.Fits;
      s.input := s.input + more;
      s.out.availOut := avail;
      s.given := s.out.delivered;
      s.room := |s.given| + avail;
    }

    /** flush_pending() at the start of a call. */
    method FlushFirst()
      requires Inv()
      modifies s.out, s.out.buf
      ensures Inv() && s.out.Flushed()
      ensures s.out.availOut == old(if s.out.pending <= s.out.availOut then s.out.availOut - s.out.pending else 0)
      ensures s.out.pending == old(if s.out.pending <= s.out.availOut then 0 else s.out.pending - s.out.availOut)
    {
      hide Output.Flushed, Inv;
      if status == BusyState {
        FlushBusy();
      } else {
        FlushRest();
      }
    }

    method FlushBusy()
      requires Inv() && status == BusyState
      modifies s.out, s.out.buf
      ensures Inv() && s.out.Flushed()
      ensures s.out.availOut == old(if s.out.pending <= s.out.availOut then s.out.availOut - s.out.pending else 0)
      ensures s.out.pending == old(if s.out.pending <= s.out.availOut then 0 else s.out.pending - s.out.availOut)
    {
      hide Output.Flushed, ReadyFor, FullHeader;
      FlushOutput(Kind(), s);
    }

    method FlushRest()
      requires Inv() && status != BusyState
      modifies s.out, s.out.buf
      ensures Inv() && s.out.Flushed()
      ensures s.out.availOut == old(if s.out.pending <= s.out.availOut then s.out.availOut - s.out.pending else 0)
      ensures s.out.pending == old(if s.out.pending <= s.out.availOut then 0 else s.out.pending - s.out.availOut)
    {
      hide ReadyFor, FullHeader, State.Initial, State.Finished, State.Checked, StreamBits, HeaderPut, HeaderCrc;
      hide ExistsBody, Pow2, GzipHeader.GoodFields;
      s.out.FlushPending();
    }

    lemma EndsAligned()
      requires Ended() && s.Sent()
      ensures s.out.biValid == 0
    {
      hide StreamBits, PadTo8, CheckFrom;
      var n := |s.blocks| - 1;
      assert BlockCovers(s.blocks[n], s.S, s.cuts.ends[n], s.cuts.ends[n + 1]);
      StreamAligned(s.kit.fixed, s.blocks);
      s.out.UnfinishedByte();
    }

    method PutTrailer()
      requires s.Shape() && s.out.Clear() && s.out.biValid == 0 && s.wrap != Raw && s.Checked()
      modifies s.out, s.out.buf
      ensures s.out.Valid() && s.out.biValid == 0 && s.out.pendingOut == 0 && s.out.start == old(s.out.start)
      ensures s.out.put == old(s.out.put) + TrailerOf(s.wrap, s.S)
      ensures s.out.delivered == old(s.out.delivered) && s.out.availOut == old(s.out.availOut)
    {
      hide Pow2, CheckFrom, BlockFlush.Fits, GzipHeader.LittleEndian, BigEndian;
      if s.wrap == Gzip {
        s.out.PutBytes(GzipHeader.LittleEndian(s.adler, 4));
        s.out.PutBytes(GzipHeader.LittleEndian(s.totalIn, 4));
      } else {
        PutMSB(s.adler);
      }
    }

    method PutMSB(a: u32)
      requires s.out.Clear() && s.out.biValid == 0
      modifies s.out, s.out.buf
      ensures s.out.Valid() && s.out.biValid == 0 && s.out.pendingOut == 0 && s.out.start == old(s.out.start)
      ensures s.out.put == old(s.out.put) + BigEndian(a)
      ensures s.out.delivered == old(s.out.delivered) && s.out.availOut == old(s.out.availOut)
    {
      hide Pow2;
      s.out.PutShortMSB(a / 0x1_0000);
      s.out.PutShortMSB(a % 0x1_0000);
      MSB(a);
    }

    lemma MSB(a: u32)
      ensures BigEndian(a) == [a / 0x1_0000 / 256, a / 0x1_0000 % 256, a % 0x1_0000 / 256, a % 0x1_0000 % 256]
    {
    }

    method AppendTrailer()
      requires Shape() && Ended() && s.Sent() && s.wrap != Raw && s.out.Clear()
      modifies s.out, s.out.buf
      ensures Trailed() && s.out.pendingOut == 0
    {
      hide State.Finished, Pow2, GzipHeader.GoodFields, TrailerOf, CheckOf, StreamBits, LowBits, ByteBits;
      EndsAligned();
      NoBits(s.out.biBuf);
      ghost var body := s.out.put[s.out.start..];
      PutTrailer();
      BodyBefore(s.out.put[s.out.start..], body, TrailerOf(s.wrap, s.S));
    }

    lemma BodyBefore(rest: seq<byte>, body: seq<byte>, trailer: seq<byte>)
      requires rest == body + trailer && ByteBits(body) == StreamBits(s.kit.fixed, s.blocks)
      ensures ExistsBody(rest, trailer)
    {
      assert rest[..|rest| - |trailer|] == body && rest[|rest| - |trailer|..] == trailer;
    }

    /** The trailer is due once: after the last block, in front of which nothing may be pending. */
    method WriteTrailer() returns (ret: Return)
      requires Inv() && status == FinishState && !trailed && s.wrap != Raw && s.out.Clear()
      modifies `trailed, s.out, s.out.buf
      ensures Inv() && trailed && ret == (if s.out.pending == 0 then StreamEnd else Ok)
      ensures (ret == Ok ==> s.out.availOut == 0)
    {
      hide ReadyFor, FullHeader, InHeader, Ended, Trailed, State.Sent, Output.Clear;
      AppendTrailer();
      trailed := true;
      FlushRest();
      ret := if s.out.pending != 0 then Ok else StreamEnd;
    }

    /** What a block_done is followed by: the marker of the flush, and forgetting history if asked to. */
    method FinishFlush(flush: Flush)
      requires Inv() && status == BusyState && s.out.Clear() && AllInBlocks(Kind(), s)
      modifies s, s.head, s.out, s.out.buf
      ensures Inv() && (s.out.availOut == 0 || s.out.Clear()) && AllInBlocks(Kind(), s)
      ensures s.S == old(s.S) && s.input == old(s.input) && s.given == old(s.given) && s.room == old(s.room)
      ensures s.blocks == old(s.blocks) + if flush == BlockFlush then [] else [Marker(flush == PartialFlush)]
      ensures flush == FullFlush ==> s.ins == {} && s.strstart == 0
      ensures s.cuts.marks == old(s.cuts.marks) + if flush == FullFlush then [MarkNow(s)] else []
      ensures Aligns(flush) ==> s.out.biValid == 0
    {
      hide Inv, Output.Clear, AllInBlocks, Marker, MarkNow, StreamBits;
      if flush != BlockFlush {
        PutMarker(flush);
      }
      FlushBusy();
      if Aligns(flush) {
        NoBitsLeft();
      }
      ClearIfRoom();
    }

    method PutMarker(flush: Flush)
      requires Inv() && status == BusyState && s.out.Clear() && AllInBlocks(Kind(), s) && flush != BlockFlush
      modifies s, s.head, s.out, s.out.buf
      ensures Inv() && AllInBlocks(Kind(), s)
      ensures s.S == old(s.S) && s.input == old(s.input) && s.given == old(s.given) && s.room == old(s.room)
      ensures s.blocks == old(s.blocks) + [Marker(flush == PartialFlush)]
      ensures flush == FullFlush ==> s.ins == {} && s.strstart == 0
      ensures s.cuts.marks == old(s.cuts.marks) + if flush == FullFlush then [MarkNow(s)] else []
      ensures Aligns(flush) ==> |StreamBits(s.kit.fixed, s.blocks)| % 8 == 0
    {
      hide ReadyFor, FullHeader, Output.Clear, AllInBlocks, Marker, MarkNow, StreamBits;
      Mark(Kind(), s, flush);
      if Aligns(flush) {
        MarkerAligned(old(s.blocks));
      }
      if flush == FullFlush {
        Forget(Kind(), s);
      }
    }

    /** After the empty stored block the output is at a byte boundary. */
    lemma MarkerAligned(before: seq<Block>)
      requires s.blocks == before + [Marker(false)]
      ensures |StreamBits(s.kit.fixed, s.blocks)| % 8 == 0
    {
      hide StreamBits;
      StreamMore(s.kit.fixed, before, Marker(false));
      StoredAligned(|StreamBits(s.kit.fixed, before)|, [], false);
    }

    lemma NoBitsLeft()
      requires Inv() && status == BusyState && |StreamBits(s.kit.fixed, s.blocks)| % 8 == 0
      ensures s.out.biValid == 0
    {
      hide FullHeader, ExistsBody, HeaderPut, Pow2, StreamBits, Output.BitStream, Covers, MarksPlaced;
      ReadyParts(Kind(), s);
      s.out.UnfinishedByte();
    }

    lemma ClearIfRoom()
      requires s.out.Flushed()
      ensures s.out.availOut == 0 || s.out.Clear()
    {
    }

    /** The part of a call that compresses, entered unless there is nothing to do. */
    method RunBlock(flush: Flush) returns (goOn: bool)
      requires Inv() && status == BusyState && s.out.Clear()
      modifies this, s, s.window, s.head, s.prev, s.out, s.out.buf
      ensures Inv() && !trailed && s.given == old(s.given) && s.room == old(s.room) && old(s.cuts.marks) <= s.cuts.marks
      ensures goOn && Flushes(flush) ==> UpToDate(flush)
      ensures s.S + s.input == old(s.S + s.input) && old(s.S) <= s.S
      ensures goOn ==> s.out.Clear() && s.input == [] && (flush == Finish <==> status == FinishState)
      ensures !goOn ==> s.out.availOut == 0 || (s.input == [] && flush == NoFlush)
      ensures goOn || s.out.availOut > 0 ==> lastFlush == old(lastFlush)
      ensures status == FinishState ==> s.input == [] && flush == Finish
      ensures status == FinishState || (status == BusyState
          && (flush == Finish ==> Work(Kind(), s) < old(Work(Kind(), s))))
    {
      hide ReadyFor, FullHeader, Output.Clear, AllInBlocks, State.Finished, State.Sent, State.Checked, Work, MarkNow;
      var r := Compress(Kind(), s, flush);
      if r == FinishStarted || r == FinishDone {
        SentMarks();
        status := FinishState;
      }
      if r == NeedMore || r == FinishStarted {
        if s.out.availOut == 0 {
          lastFlush := -1;
        }
        return false;
      }
      if r == BlockDone {
        FinishFlush(flush);
        if s.out.availOut == 0 {
          lastFlush := -1;
          return false;
        }
      }
      goOn := true;
    }

    // A call.

    /** Everything read so far is in the blocks, and these have been delivered: up to a byte boundary after a
        sync flush, and otherwise but for less than a byte. What follows a full flush will not refer to anything
        before. */
    ghost predicate UpToDate(flush: Flush)
      reads `status, `gzindex, `trailed, s, s.window, s.head, s.prev, s.out, s.out.buf
    {
      && Inv() && status == BusyState && s.input == [] && AllInBlocks(Kind(), s) && s.out.Clear()
      && (Aligns(flush) ==> s.out.biValid == 0) && (flush == FullFlush ==> JustMarked())
      && (flush == PartialFlush ==> |s.blocks| > 0 && s.blocks[|s.blocks| - 1] == Marker(true))
    }

    ghost predicate JustMarked()
      reads s`cuts, s`blocks, s`S
    {
      |s.cuts.marks| > 0 && s.cuts.marks[|s.cuts.marks| - 1] == MarkNow(s)
    }

    /** The stream is complete: what was delivered is the header, the blocks as bits, and the trailer. */
    ghost predicate Complete()
      reads `status, `gzindex, `trailed, s, s.window, s.head, s.prev, s.out, s.out.buf
    {
      Inv() && status == FinishState && (trailed <==> s.wrap != Raw) && s.out.pending == 0 && s.out.biValid == 0
    }

    /** The calls that are refused: after the end only Z_FINISH is allowed, without input; there must be
        output space, and something to do. */
    ghost predicate Refused(flush: Flush)
      reads this, s, s.out
    {
      || (status == FinishState && flush != Finish)
      || s.out.availOut == 0
      || (s.out.pending == 0 && s.input == [] && Rank(Code(flush)) <= Rank(lastFlush) && flush != Finish)
      || (status == FinishState && s.input != [] && s.out.pending < s.out.availOut)
    }

    /** The same, before the input and the output space are handed over. */
    ghost predicate Rejects(more: seq<byte>, avail: nat, flush: Flush)
      reads this, s, s.out
    {
      || (status == FinishState && flush != Finish)
      || avail == 0
      || (s.out.pending == 0 && s.input + more == [] && Rank(Code(flush)) <= Rank(lastFlush) && flush != Finish)
      || (status == FinishState && s.input + more != [] && s.out.pending < avail)
    }

    lemma Refusing(flush: Flush, rejected: bool)
      requires rejected == Rejects([], s.out.availOut, flush)
      ensures Refused(flush) == rejected
    {
      assert s.input + [] == s.input;
    }

    lemma InvParts()
      requires Inv()
      ensures s.out.Rest() && (s.out.pending == 0 ==> s.out.Clear())
    {
      hide FullHeader, ExistsBody, HeaderPut, Pow2;
      if status == BusyState {
        ReadyParts(Kind(), s);
      }
    }

    lemma RestParts()
      requires s.out.Flushed()
      ensures s.out.availOut > 0 ==> s.out.Clear()
    {
    }

    /** Everything up to the start of compression: refusing a call, and flushing what the last one left. */
    method Enter(flush: Flush) returns (ret: Option<Return>)
      requires Inv()
      modifies `lastFlush, s.out, s.out.buf
      ensures Inv() && (ret == None ==> s.out.Clear() && (status == FinishState ==> flush == Finish && s.input == []))
      ensures ret == None || ret == Some(Ok) || ret == Some(StreamError) || ret == Some(BufError)
      ensures old(Refused(flush)) <==> ret == Some(StreamError) || ret == Some(BufError)
      ensures ret == Some(StreamError) <==> status == FinishState && flush != Finish
      ensures ret == Some(Ok) ==> s.out.availOut == 0 && s.out.pending < old(s.out.pending)
      ensures ret == None || (ret == Some(BufError) && s.out.availOut > 0) ==> lastFlush == Code(flush)
    {
      hide Inv, Output.Clear, Output.Flushed;
      InvParts();
      if status == FinishState && flush != Finish {
        return Some(StreamError);
      }
      if s.out.availOut == 0 {
        return Some(BufError);
      }
      var oldFlush := lastFlush;
      SetFlush(Code(flush));
      if s.out.pending != 0 {
        FlushFirst();
        RestParts();
        if s.out.availOut == 0 {
          SetFlush(-1);
          return Some(Ok);
        }
      } else if s.input == [] && Rank(Code(flush)) <= Rank(oldFlush) && flush != Finish {
        return Some(BufError);
      }
      if status == FinishState && s.input != [] {
        return Some(BufError);
      }
      ret := None;
    }

    method SetFlush(flush: int)
      requires Inv()
      modifies `lastFlush
      ensures Inv() && lastFlush == flush
    {
      hide ReadyFor, FullHeader, InHeader, Ended, Trailed;
      lastFlush := flush;
    }

    /** The header, if it is not yet complete. */
    method Preface() returns (suspended: bool)
      requires Inv() && s.out.Clear()
      modifies `status, `gzindex, `lastFlush, s`adler, s`lead, s.out, s.out.buf
      ensures Inv() && (!suspended ==> s.out.Clear() && (status == BusyState || status == FinishState))
      ensures old(status == FinishState) ==> !suspended && unchanged(`status)
      ensures old(status != FinishState) ==> status != FinishState
      ensures suspended ==> s.out.availOut == 0 && old(status != BusyState)
      ensures old(status == BusyState) ==> status == BusyState
      ensures !suspended ==> lastFlush == old(lastFlush)
    {
      hide InHeader, FullHeader, ReadyFor, Ended, Trailed, State.Initial, State.Sent, State.Checked;
      suspended := false;
      if status != BusyState && status != FinishState {
        suspended := WriteHeader();
        HeaderStatus();
        if status == BusyState {
          BegunReady();
        }
      }
    }

    lemma BegunReady()
      requires Begun()
      ensures ReadyFor(Kind(), s)
    {
      InitialReady(Kind(), s);
    }

    lemma HeaderStatus()
      ensures InHeader() ==> status != FinishState && status != BusyState && Shape()
      ensures Begun() ==> status == BusyState && Shape() && s.lead == FullHeader()
    {
    }

    lemma InvOutput()
      requires Inv()
      ensures s.given <= s.out.delivered && |s.out.delivered| + s.out.availOut == s.room
    {
      hide FullHeader, ExistsBody, HeaderPut, Pow2;
      if status == BusyState {
        ReadyParts(Kind(), s);
      }
    }

    // How far there is to go.

    /** Until the header is complete: how much of it has not been delivered. */
    ghost function HeaderLeft(): nat
      reads `status, s.out`delivered
    {
      if 9 <= wBits <= 15 && status != BusyState && status != FinishState && |s.out.delivered| <= |FullHeader()|
      then |FullHeader()| + 1 - |s.out.delivered| else 0
    }

    /** The data is to be compressed; then the trailer is due, unless there is none; then nothing is. */
    function Stage(): nat
      reads `status, `trailed
    {
      if status != FinishState then 2 else if trailed || s.wrap == Raw then 0 else 1
    }

    /** There is less to compress than before. */
    ghost predicate Working(work: int, before: Status)
      reads `status, `trailed, s`S, s`input, s`base, s`blockStart, s`lookahead
    {
      before == BusyState && status == BusyState && Work(Kind(), s) < work
    }

    ghost function Ahead(): Distance
      reads `status, `trailed, s`S, s`input, s`base, s`blockStart, s`lookahead, s.out`delivered, s.out`pending
    {
      Distance(HeaderLeft(), Stage(), if status == BusyState then Work(Kind(), s) else 0, s.out.pending)
    }

    lemma HeaderWithin()
      requires Inv() && status != BusyState && status != FinishState
      ensures 9 <= wBits <= 15 && |s.out.delivered| <= |FullHeader()|
    {
      hide State.Initial, CrcSpec.Update, Pow2, GzipHeader.GoodFields;
      if InFields(status) {
        FieldsWithin(s.out.put, head.value, status, gzindex);
      }
    }

    lemma FieldsWithin(put: seq<byte>, h: GzipHeader.Fields, status: Status, gzindex: nat)
      requires InFields(status) && FieldsPut(put, h, status, gzindex)
      ensures |put| <= |GzipHeader.Header(h, ExtraFlags())|
    {
    }

    /** Everything after the header: compressing what there is, and the trailer after the end. */
    method Continue(flush: Flush) returns (ret: Return)
      requires Inv() && s.out.Clear()
      requires (status == BusyState || (status == FinishState && flush == Finish && s.input == []))
      modifies this, s, s.window, s.head, s.prev, s.out, s.out.buf
      ensures Inv() && s.given == old(s.given) && s.room == old(s.room) && old(s.cuts.marks) <= s.cuts.marks
      ensures Flushes(flush) && s.out.availOut > 0 ==> UpToDate(flush)
      ensures s.S + s.input == old(s.S + s.input) && old(s.S) <= s.S
      ensures ret == Ok || ret == StreamEnd
      ensures ret == StreamEnd ==> Complete() && s.input == [] && flush == Finish
      ensures ret == Ok ==> s.out.availOut == 0 || (s.input == [] && flush != Finish)
      ensures s.out.availOut > 0 ==> lastFlush == old(lastFlush)
      ensures ret == Ok && flush == Finish ==> Stage() < old(Stage()) || Working(old(Work(Kind(), s)), old(status))
      ensures if old(status == FinishState) then s.input == old(s.input)
          else status == FinishState ==> s.input == [] && flush == Finish
    {
      hide InHeader, FullHeader, ReadyFor, Trailed, State.Finished, State.Sent, State.Checked, UpToDate;
      if |s.input| != 0 || s.lookahead != 0 || (flush != NoFlush && status != FinishState) {
        var goOn := RunBlock(flush);
        if !goOn {
          return Ok;
        }
      }
      if flush != Finish {
        return Ok;
      }
      if s.wrap == Raw || trailed {
        EndOfStream();
        return StreamEnd;
      }
      ret := WriteTrailer();
      if ret == StreamEnd {
        EndOfStream();
      }
    }

    lemma EndOfStream()
      requires Inv() && status == FinishState && s.out.pending == 0 && (s.wrap == Raw || trailed)
      ensures Complete()
    {
      hide FullHeader, ExistsBody, ReadyFor, HeaderPut, Pow2;
      if !trailed {
        EndsAligned();
      }
    }

    /** deflate(), called with more input and some output space. Nothing of the input is lost, whatever
        has been delivered stays, and the end is reported only when everything has been delivered. */
    method Deflate(more: seq<byte>, avail: nat, flush: Flush) returns (ret: Return)
      requires Inv()
      modifies this, s, s.window, s.head, s.prev, s.out, s.out.buf
      ensures Inv() && old(s.cuts.marks) <= s.cuts.marks
      ensures s.S + s.input == old(s.S + s.input) + more && old(s.S) <= s.S
      ensures old(s.out.delivered) <= s.out.delivered
      ensures |s.out.delivered| + s.out.availOut == old(|s.out.delivered|) + avail
      ensures ret == StreamError || ret == BufError ==> s.S == old(s.S) && status == old(status)
      ensures ret == StreamError || ret == BufError <==> old(Rejects(more, avail, flush))
      ensures ret != StreamError && s.out.availOut > 0 ==> lastFlush == Code(flush)
      ensures ret == StreamError <==> old(status == FinishState) && flush != Finish
      ensures ret == StreamEnd ==> Complete() && s.input == [] && flush == Finish
      ensures ret == Ok ==> s.out.availOut == 0 || (s.input == [] && flush != Finish)
      ensures ret == Ok && Flushes(flush) && s.out.availOut > 0 ==> UpToDate(flush)
      ensures ret == Ok && flush == Finish && more == [] ==> Closer(Ahead(), old(Ahead()))
      ensures if old(status == FinishState) then s.input == old(s.input) + more
          else status == FinishState ==> s.input == [] && flush == Finish
    {
      hide Inv, Output.Clear, Refused, FullHeader, Complete, UpToDate;
      ghost var before, rejected := s.S + s.input, Rejects(more, avail, flush);
      Supply(more, avail);
      assert s.S + s.input == before + more;
      Refusing(flush, rejected);
      ret := Serve(flush);
      InvOutput();
    }

    /** The call itself, the input and the output space being there. */
    method Serve(flush: Flush) returns (ret: Return)
      requires Inv() && s.given == s.out.delivered && s.room == |s.given| + s.out.availOut
      modifies this, s, s.window, s.head, s.prev, s.out, s.out.buf
      ensures Inv() && s.given == old(s.given) && s.room == old(s.room) && old(s.cuts.marks) <= s.cuts.marks
      ensures ret == Ok && Flushes(flush) && s.out.availOut > 0 ==> UpToDate(flush)
      ensures s.S + s.input == old(s.S + s.input) && old(s.S) <= s.S
      ensures ret == StreamError || ret == BufError ==> s.S == old(s.S) && status == old(status)
      ensures ret == StreamError || ret == BufError <==> old(Refused(flush))
      ensures ret != StreamError && s.out.availOut > 0 ==> lastFlush == Code(flush)
      ensures ret == StreamError <==> old(status == FinishState) && flush != Finish
      ensures ret == StreamEnd ==> Complete() && s.input == [] && flush == Finish
      ensures ret == Ok ==> s.out.availOut == 0 || (s.input == [] && flush != Finish)
      ensures ret == Ok && flush == Finish ==> Closer(Ahead(), old(Ahead()))
      ensures if old(status == FinishState) then s.input == old(s.input)
          else status == FinishState ==> s.input == [] && flush == Finish
    {
      hide Inv, Output.Clear, Refused, FullHeader, Work, Complete, UpToDate;
      WithinHeader();
      SpaceOffered(flush);
      var early := Enter(flush);
      if early.Some? {
        InvOutput();
        WithinHeader();
        return early.value;
      }
      var suspended := Preface();
      if suspended {
        InvOutput();
        WithinHeader();
        return Ok;
      }
      ret := Continue(flush);
    }

    lemma SpaceOffered(flush: Flush)
      ensures !Refused(flush) ==> s.out.availOut > 0
    {
    }

    lemma AheadBounds()
      requires Inv()
      ensures Ahead().work >= 0
    {
      hide FullHeader, ReadyFor, InHeader, Ended, Trailed, Work;
      if status == BusyState {
        WorkLeft(Kind(), s);
      }
    }

    lemma WithinHeader()
      requires Inv()
      ensures status != BusyState && status != FinishState ==> 9 <= wBits <= 15 && |s.out.delivered| <= |FullHeader()|
    {
      hide Inv;
      if status != BusyState && status != FinishState {
        HeaderWithin();
      }
    }
  }

  /** How far there is to go to the end of the stream: first the header, then the data, then the trailer,
      and all that is pending. */
  datatype Distance = Distance(header: nat, stage: nat, work: int, pending: nat)

  predicate Closer(a: Distance, b: Distance) {
    || a.header < b.header
    || (a.header == b.header && a.stage < b.stage)
    || (a.header == b.header && a.stage == b.stage && a.work < b.work)
    || (a.header == b.header && a.stage == b.stage && a.work == b.work && a.pending < b.pending)
  }

  /** Z_SYNC_FLUSH and Z_FULL_FLUSH. */
  predicate Aligns(flush: Flush) {
    flush == SyncFlush || flush == FullFlush
  }

  predicate Flushes(flush: Flush) {
    flush != NoFlush && flush != Finish
  }

  function Code(flush: Flush): int {
    match flush
    case NoFlush => 0
    case PartialFlush => 1
    case SyncFlush => 2
    case FullFlush => 3
    case Finish => 4
    case BlockFlush => 5
  }

  /** Z_BLOCK ranks between no flush and a partial flush. */
  function Rank(code: int): int {
    2 * code - if code > 4 then 9 else 0
  }

  /** How much a flush asks for: the more of the output it forces out, the more. */
  function Demand(flush: Flush): nat {
    match flush
    case NoFlush => 0
    case BlockFlush => 1
    case PartialFlush => 2
    case SyncFlush => 3
    case FullFlush => 4
    case Finish => 5
  }

  /** The ranks are in that order, and what marks a call that ran out of space, or none at all, is below them. */
  lemma RanksInOrder(a: Flush, b: Flush)
    ensures Rank(Code(a)) <= Rank(Code(b)) <==> Demand(a) <= Demand(b)
    ensures Rank(-1) < Rank(Code(a)) && Rank(-2) < Rank(Code(a))
  {
  }

  /** A call is refused exactly when the stream has ended and another flush than Z_FINISH is asked for, or input
      given; when there is no output space; and when there is nothing to do: no input, nothing pending, and no more
      asked for than by the call before. */
  lemma RefusedWhen(st: Stream, more: seq<byte>, avail: nat, flush: Flush, before: Flush)
    requires st.lastFlush == Code(before)
    ensures st.Rejects(more, avail, flush) <==>
      || (st.status == FinishState && flush != Finish)
      || avail == 0
      || (flush != Finish && Demand(flush) <= Demand(before) && st.s.input + more == [] && st.s.out.pending == 0)
      || (st.status == FinishState && st.s.input + more != [] && st.s.out.pending < avail)
  {
    RanksInOrder(flush, before);
  }

  /** The trailer: nothing, the Adler-32 of the input (RFC 1950), or its CRC-32 and length (RFC 1952). */
  ghost function TrailerOf(w: Wrap, S: seq<byte>): seq<byte> {
    match w
    case Raw => []
    case Zlib => BigEndian(CheckOf(Zlib, S))
    case Gzip => GzipHeader.LittleEndian(CheckOf(Gzip, S), 4) + GzipHeader.LittleEndian(|S|, 4)
  }

  function BigEndian(v: u32): seq<byte> {
    [v / 0x100_0000, v / 0x1_0000 % 256, v / 256 % 256, v % 256]
  }
}
