/** gzread.c and the reading side of gzlib.c: a buffered reader over read() calls that may return less than
    asked for, and an inflater that may stop anywhere. */
module GzReader {
  import opened Bits
  import opened Lz77
  import opened GzFile

  datatype How = Look | Copy | Gzip
  datatype Whence = Set | Cur
  datatype Err = NoError | BufError | DataError | Fatal

  class Reader {
    const f: File
    const size: nat
    const inBuf: array<byte>
    const outBuf: array<byte>

    // x.have, x.next and x.pos, and the other fields of gz_state used for reading.
    var have: nat
    var next: nat
    var pos: int
    var how: How
    var direct: bool
    var eof: bool
    var past: bool
    var err: Err
    var skip: int
    var seek: bool

    // The input of the inflate stream and its room for output, how far the file has been read, and the state
    // of the inflater: the start of its member and what it has consumed and produced of it.
    var nextIn: nat
    var availIn: nat
    var availOut: nat
    var fpos: nat
    var member: nat
    var consumed: nat
    var produced: nat

    // What the file is going to read as: all it holds, unless the end was found inside a member and some of
    // that member could not be recovered. And whether the rest, if any, has been given up.
    ghost var all: seq<byte>
    ghost var ended: bool

    /** Everything the file reads as. */
    ghost function All(): seq<byte> {
      Content(f, 0, true)
    }

    /** What is still to come after the output buffer. */
    ghost function Rest(): seq<byte>
      requires availIn <= fpos && (how == Gzip ==> member <= |f.bytes|)
      reads `how, `ended, `fpos, `availIn, `direct, `member, `produced
    {
      if ended then []
      else match how
      case Look => if fpos - availIn > |f.bytes| then [] else Content(f, fpos - availIn, direct)
      case Copy => Drop(f.bytes, fpos)
      case Gzip => Drop(Plain(f, member), produced) + AfterMember(f, member)
    }

    ghost predicate Shape() {
      size >= 8 && inBuf.Length == size && outBuf.Length == 2 * size && inBuf != outBuf
    }

    /** The input buffer holds the bytes just before the position reached in the file. */
    ghost predicate InputHolds()
      reads `nextIn, `availIn, `fpos, inBuf
    {
      && nextIn + availIn <= inBuf.Length && availIn <= fpos && (availIn > 0 ==> fpos <= |f.bytes|)
      && (availIn > 0 ==> inBuf[nextIn..nextIn + availIn] == f.bytes[fpos - availIn..fpos])
    }

    /** In a file without cut members there is none from here on either. */
    predicate Sound(p: nat) {
      Unbroken(f, 0) ==> Unbroken(f, p)
    }

    /** The three modes. Raw bytes are only ever read from the start of the file, so positions in the file
        and in what it reads as are the same then. */
    ghost predicate Mode()
      reads `how, `ended, `all, `eof, `fpos, `availIn, `direct, `member, `consumed, `produced
    {
      && (eof ==> ended || fpos >= |f.bytes|)
      && (ended ==> eof && availIn == 0 && !direct)
      && (!direct ==> Magic(f, 0)) && (how != Copy ==> fpos <= |f.bytes|)
      && match how
         case Look => (direct ==> fpos == availIn) && (!ended && availIn <= fpos ==> Sound(fpos - availIn))
         case Copy => availIn == 0 && direct && Raw(f) && all == f.bytes == All()
         case Gzip =>
           && !direct && member <= |f.bytes| && Magic(f, member) && Sound(member) && availIn <= fpos
           && member + consumed == fpos - availIn
           && produced <= |Plain(f, member)| && (eof ==> fpos == |f.bytes|) && fpos <= |f.bytes|
           && (MemberEnd(f, member).Some? ==> !ended && member + consumed < MemberEnd(f, member).value)
    }

    ghost predicate Valid()
      reads `have, `next, `pos, `how, `direct, `eof, `nextIn, `availIn, `fpos, `member, `consumed, `produced, `all
      reads `ended, inBuf, outBuf
    {
      && Shape() && InputHolds() && Mode() && next + have <= 2 * size
      && pos + have >= 0 && Rest() == Drop(all, pos + have) && all <= All() && (all == All() || TornEnd())
      && (if how == Copy then fpos == pos + have else pos + have <= |all|)
      && (how == Look && direct && have > 0 ==> |f.bytes| == 0)
    }

    /** The bytes to be delivered next, pushed-back ones included. */
    ghost function View(): seq<byte>
      requires Valid()
      reads `have, `next, `pos, `how, `direct, `eof, `nextIn, `availIn, `fpos, `member, `consumed, `produced, `all
      reads `ended, inBuf, outBuf
    {
      outBuf[next..next + have] + Rest()
    }

    predicate Failed()
      reads `err
    {
      err != NoError && err != BufError
    }

    /** Nothing is left of the file, inside a member. */
    predicate Spent()
      reads `how, `eof, `availIn
    {
      how == Gzip && eof && availIn == 0
    }

    /** The end of the file inside a member is noted if and only if the inflater had room left when the input
        was used up. */
    ghost predicate Noted()
      reads `err, `how, `eof, `availIn, `availOut
    {
      !Failed() ==> (err == BufError <==> Spent() && availOut > 0)
    }

    /** gz_open() and gz_reset(). */
    constructor (f: File, size: nat)
      requires size >= 8
      ensures Valid() && View() == All() == all && this.f == f && this.size == size && pos == 0 && !seek
      ensures err == NoError && Noted()
      ensures fresh(inBuf) && fresh(outBuf) && how == Look && have == 0 && direct
    {
      this.f, this.size := f, size;
      inBuf := new byte[size];
      outBuf := new byte[2 * size];
      have, next, pos, how, direct, eof, past, err, skip, seek := 0, 0, 0, Look, true, false, false, NoError, 0, false;
      nextIn, availIn, availOut, fpos, member, consumed, produced := 0, 0, 0, 0, 0, 0, 0;
      all, ended := Content(f, 0, true), false;
    }

    /** read(): at least one byte unless at the end of the file, but not always all that was asked for. */
    method Read(dst: array<byte>, at: nat, n: nat) returns (ret: int)
      requires at + n <= dst.Length
      modifies `fpos, dst
      ensures -1 <= ret <= n && fpos == old(fpos) + if ret > 0 then ret else 0
      ensures ret == 0 ==> n == 0 || fpos >= |f.bytes|
      ensures ret > 0 ==> fpos <= |f.bytes|
      ensures Written(dst[..], old(dst[..]), at, n, Between(f, old(fpos), fpos))
    {
      if * {
        return -1;
      }
      if n == 0 || fpos >= |f.bytes| {
        return 0;
      }
      var most := if n < |f.bytes| - fpos then n else |f.bytes| - fpos;
      var k :| 1 <= k <= most;
      WriteOut(dst, at, n, f.bytes[fpos..fpos + k]);
      fpos := fpos + k;
      ret := k;
    }

    /** gz_load(): reads until the buffer is full or the end of the file is reached, which it notes. It must
        not be asked for nothing, or it would take that for the end of the file. */
    method Load(dst: array<byte>, at: nat, len: nat) returns (ok: bool, got: nat)
      requires len > 0 && at + len <= dst.Length
      modifies `fpos, `eof, `err, dst
      ensures got <= len && fpos == old(fpos) + got && (got > 0 ==> fpos <= |f.bytes|)
      ensures ok ==> err == old(err) && eof == (old(eof) || got < len) && (got < len ==> fpos >= |f.bytes|)
      ensures !ok ==> err == Fatal && eof == old(eof)
      ensures Written(dst[..], old(dst[..]), at, len, Between(f, old(fpos), fpos))
    {
      hide Written, Between;
      got := 0;
      var ret: int := 1;
      NoneWritten(dst[..], at, len, fpos);
      while got < len
        invariant got <= len && fpos == old(fpos) + got && (got > 0 ==> fpos <= |f.bytes|)
        invariant Written(dst[..], old(dst[..]), at, len, Between(f, old(fpos), fpos))
        invariant ret > 0 && eof == old(eof) && err == old(err)
        decreases len - got
      {
        var get := if len - got > 0x4000_0000 then 0x4000_0000 else len - got;
        ghost var mid, from := dst[..], fpos;
        BetweenLength(old(fpos), fpos);
        ret := Read(dst, at + got, get);
        BetweenMore(f, old(fpos), from, fpos);
        WrittenMore(dst[..], mid, old(dst[..]), at, len, Between(f, old(fpos), from), get, Between(f, from, fpos));
        if ret <= 0 {
          break;
        }
        got := got + ret;
      }
      if ret < 0 {
        err := Fatal;
        return false, got;
      }
      if ret == 0 {
        eof := true;
      }
      ok := true;
    }

    lemma NoneWritten(s: seq<byte>, at: nat, len: nat, p: nat)
      requires at + len <= |s|
      ensures Written(s, s, at, len, Between(f, p, p))
    {
    }

    lemma BetweenLength(a: nat, b: nat)
      requires a <= b && (a < b ==> b <= |f.bytes|)
      ensures |Between(f, a, b)| == b - a
    {
    }

    /** The unused input moves to the start of the input buffer. */
    method MoveToStart()
      requires nextIn + availIn <= inBuf.Length
      modifies inBuf
      ensures inBuf[..availIn] == old(inBuf[nextIn..nextIn + availIn])
    {
      var i := 0;
      while i < availIn
        invariant 0 <= i <= availIn
        invariant forall k :: 0 <= k < i ==> inBuf[k] == old(inBuf[nextIn + k])
        invariant forall k :: i <= k < inBuf.Length ==> inBuf[k] == old(inBuf[k])
      {
        inBuf[i] := inBuf[nextIn + i];
        i := i + 1;
      }
    }

    /** gz_avail(): never called with a full buffer, so the end of the file is not noted too early. */
    method Avail() returns (ok: bool)
      requires Shape() && InputHolds() && availIn < size
      modifies `nextIn, `availIn, `fpos, `eof, `err, inBuf
      ensures ok ==> InputHolds() && fpos - availIn == old(fpos - availIn) && availIn >= old(availIn) && err == old(err)
      ensures ok ==> if old(eof) then eof && availIn == old(availIn)
          else (eof <==> availIn < size) && (eof ==> fpos >= |f.bytes|)
      ensures ok && availIn == 0 ==> fpos == old(fpos)
      ensures !ok ==> err != NoError && err != BufError
    {
      if err != NoError && err != BufError {
        return false;
      }
      if eof {
        return true;
      }
      Gather();
      ok := LoadInput();
    }

    method Gather()
      requires Shape() && InputHolds()
      modifies `nextIn, inBuf
      ensures InputHolds() && (availIn > 0 ==> nextIn == 0)
    {
      if availIn > 0 {
        MoveToStart();
        nextIn := 0;
        assert inBuf[0..availIn] == inBuf[..availIn];
      }
    }

    method LoadInput() returns (ok: bool)
      requires Shape() && InputHolds() && availIn < size && (availIn > 0 ==> nextIn == 0)
      modifies `nextIn, `availIn, `fpos, `eof, `err, inBuf
      ensures ok ==> InputHolds() && fpos - availIn == old(fpos - availIn) && availIn >= old(availIn) && err == old(err)
      ensures ok ==> (eof == (old(eof) || availIn < size)) && (availIn < size ==> fpos >= |f.bytes|)
      ensures ok && availIn == 0 ==> fpos == old(fpos)
      ensures !ok ==> err == Fatal
    {
      hide Written, Between;
      ghost var before := inBuf[..];
      assert availIn > 0 ==> before[..availIn] == inBuf[nextIn..nextIn + availIn];
      var got;
      ok, got := Load(inBuf, availIn, size - availIn);
      if !ok {
        return;
      }
      LoadedAfter(inBuf[..], before, availIn, size - availIn, old(fpos), fpos);
      availIn := availIn + got;
      nextIn := 0;
      assert inBuf[0..availIn] == inBuf[..][..availIn];
    }

    lemma LoadedAfter(now: seq<byte>, before: seq<byte>, n: nat, len: nat, a: nat, b: nat)
      requires n <= a <= b && (a < b ==> b <= |f.bytes|) && n + len <= |before| && (n > 0 ==> a <= |f.bytes|)
      requires Written(now, before, n, len, Between(f, a, b)) && (n > 0 ==> before[..n] == f.bytes[a - n..a])
      ensures n + (b - a) <= |now| && (n + (b - a) > 0 ==> b <= |f.bytes| && now[..n + (b - a)] == f.bytes[a - n..b])
    {
      if a < b {
        assert now[..n + (b - a)] == now[..n] + now[n..n + (b - a)];
      }
    }

    lemma ContentAt(p: nat, direct: bool)
      requires p < |f.bytes|
      ensures Magic(f, p) ==> Content(f, p, direct) == Drop(Plain(f, p), 0) + AfterMember(f, p)
      ensures !Magic(f, p) ==> Content(f, p, direct) == if direct then f.bytes[p..] else []
    {
    }

    /** A header was found: the inflater starts on it. */
    method StartMember()
      requires Valid() && how == Look && have == 0 && availIn > 1 && Magic(f, fpos - availIn)
      modifies `how, `direct, `member, `consumed, `produced
      ensures Valid() && how == Gzip && View() == old(View())
    {
      hide Content, AfterMember, MemberEnd, Plain, Sound, Drop;
      ContentAt(fpos - availIn, direct);
      EndLater(fpos - availIn);
      if direct {
        SameMagic();
      }
      member, consumed, produced := fpos - availIn, 0, 0;
      how := Gzip;
      direct := false;
    }

    lemma SameMagic()
      requires Mode() && how == Look && direct && Magic(f, fpos - availIn)
      ensures Magic(f, 0)
    {
    }

    lemma EndLater(p: nat)
      requires p <= |f.bytes|
      ensures MemberEnd(f, p).Some? ==> MemberEnd(f, p).value >= p + 2
    {
    }

    /** What follows the last member is given up. */
    method Ignore()
      requires Valid() && how == Look && have == 0 && availIn > 0 && !direct && !Magic(f, fpos - availIn)
      modifies `availIn, `eof, `have, `ended
      ensures Valid() && how == Look && have == 0 && eof && availIn == 0 && View() == old(View()) && Rest() == []
    {
      hide Content, AfterMember, MemberEnd, Plain;
      ContentAt(fpos - availIn, direct);
      ended := true;
      availIn := 0;
      eof := true;
      have := 0;
    }

    /** The file is not compressed: the input read so far is output, and so will be the rest. */
    method StartCopy()
      requires Valid() && how == Look && have == 0 && availIn > 0 && direct && !Magic(f, fpos - availIn)
      modifies `availIn, `next, `have, `how, `direct, outBuf
      ensures Valid() && how == Copy && have > 0 && availIn == 0 && View() == old(View()) && pos + have <= |all|
    {
      hide Content, AfterMember, MemberEnd, Plain, Magic;
      ContentAt(0, true);
      next := 0;
      CopyInput();
      have := availIn;
      availIn := 0;
      how := Copy;
      direct := true;
      assert outBuf[0..have] == f.bytes[..fpos];
    }

    method CopyInput()
      requires Shape() && InputHolds() && availIn > 0
      modifies outBuf
      ensures outBuf[..availIn] == f.bytes[fpos - availIn..fpos] && InputHolds()
    {
      var data := inBuf[nextIn..nextIn + availIn];
      forall i | 0 <= i < availIn {
        outBuf[i] := data[i];
      }
      assert inBuf[nextIn..nextIn + availIn] == data;
      assert outBuf[..availIn] == data;
    }

    lemma FirstTwo()
      requires Shape() && InputHolds() && availIn > 1
      ensures Magic(f, fpos - availIn) <==> inBuf[nextIn] == 31 && inBuf[nextIn + 1] == 139
    {
      var s := inBuf[nextIn..nextIn + availIn];
      assert s[0] == inBuf[nextIn] && s[1] == inBuf[nextIn + 1];
      assert s[0] == f.bytes[fpos - availIn] && s[1] == f.bytes[fpos - availIn + 1];
    }

    /** The first look needs two bytes, if the file has them. */
    method LookAhead() returns (ok: bool)
      requires Valid() && how == Look && have == 0
      modifies `nextIn, `availIn, `fpos, `eof, `err, inBuf
      ensures ok ==> Valid() && View() == old(View()) && err == old(err)
      ensures ok ==> (availIn == 0 ==> eof && Rest() == []) && (availIn == 1 ==> fpos == |f.bytes|)
      ensures ok ==> fpos - availIn == old(fpos - availIn)
      ensures !ok ==> err != NoError && err != BufError
    {
      hide Content, AfterMember, MemberEnd, Plain, Magic;
      ok := true;
      if availIn < 2 {
        ok := Avail();
        if ok && availIn == 0 {
          NothingAt(fpos, direct);
        }
      }
    }

    lemma NothingAt(p: nat, direct: bool)
      ensures p == |f.bytes| ==> Content(f, p, direct) == []
    {
    }

    /** gz_look(). */
    method LookHeader() returns (ok: bool)
      requires Valid() && how == Look && have == 0 && Noted()
      modifies `nextIn, `availIn, `fpos, `eof, `err, `how, `direct, `member, `consumed, `produced, `have, `next
      modifies `ended, inBuf, outBuf
      ensures ok ==> Noted()
      ensures ok ==> Valid() && View() == old(View()) && err == old(err)
      ensures ok && how == Look ==> have == 0 && eof && availIn == 0 && Rest() == []
      ensures ok ==> (have > 0 <==> how == Copy) && (how == Gzip ==> fpos - availIn == old(fpos - availIn))
      ensures ok ==> fpos - availIn >= old(fpos - availIn) && (how == Copy ==> pos + have <= |all|)
      ensures !ok ==> err != NoError && err != BufError
    {
      hide Valid, View, Rest;
      ok := LookAhead();
      if ok && availIn != 0 {
        Decide();
      }
    }

    /** With input at hand: a member, something to be ignored, or a file to be copied. */
    method Decide()
      requires Valid() && how == Look && have == 0 && availIn > 0 && (availIn == 1 ==> fpos == |f.bytes|)
      modifies `availIn, `eof, `how, `direct, `member, `consumed, `produced, `have, `next, `ended, outBuf
      ensures Valid() && View() == old(View())
      ensures how == Look ==> have == 0 && eof && availIn == 0 && Rest() == []
      ensures (have > 0 <==> how == Copy) && (how == Gzip ==> availIn == old(availIn)) && availIn <= old(availIn)
      ensures how == Copy ==> pos + have <= |all|
    {
      hide Valid, View, Rest, Content, AfterMember, MemberEnd, Plain, Magic;
      InputParts();
      if availIn > 1 && inBuf[nextIn] == 31 && inBuf[nextIn + 1] == 139 {
        FirstTwo();
        StartMember();
        return;
      }
      if availIn > 1 {
        FirstTwo();
      } else {
        LastByte(fpos - availIn);
      }
      if !direct {
        Ignore();
      } else {
        StartCopy();
      }
    }

    lemma InputParts()
      requires Valid()
      ensures Shape() && InputHolds()
    {
    }

    lemma LastByte(p: nat)
      ensures p + 1 == |f.bytes| ==> !Magic(f, p)
    {
    }

    /** The inflater is inside a member, which it has not finished. */
    ghost predicate InMember()
      reads `eof, `ended, `fpos, `availIn, `direct, `member, `consumed, `produced
    {
      InMemberOrDone() && !Ends(f, member, consumed, produced)
    }

    ghost predicate InMemberOrDone()
      reads `eof, `ended, `fpos, `availIn, `direct, `member, `consumed, `produced
    {
      && !direct && Magic(f, 0) && member <= |f.bytes| && Magic(f, member) && Sound(member)
      && availIn <= fpos <= |f.bytes| && member + consumed == fpos - availIn
      && produced <= |Plain(f, member)| && (eof ==> fpos == |f.bytes|) && (ended ==> eof && availIn == 0)
      && (MemberEnd(f, member).Some? ==> !ended && member + consumed <= MemberEnd(f, member).value)
      && (MemberEnd(f, member) == Some(member + consumed) ==> produced == |Plain(f, member)|)
    }

    /** inflate(), given some input and some room. */
    method Inflate(dst: array<byte>, at: nat, n: nat) returns (end: bool, got: nat)
      requires Shape() && InputHolds() && InMember() && availIn > 0 && n > 0 && at + n <= dst.Length && dst != inBuf
      modifies `nextIn, `availIn, `consumed, `produced, dst
      ensures InputHolds() && InMemberOrDone() && got <= n && produced == old(produced) + got
      ensures end <==> Ends(f, member, consumed, produced)
      ensures availIn < old(availIn) || (got > 0 && availIn == old(availIn))
      ensures Written(dst[..], old(dst[..]), at, n, Plain(f, member)[old(produced)..produced])
      ensures got < n && !end ==> availIn == 0
    {
      hide MemberEnd, Plain, Written;
      InflateCan(f, member, consumed, produced, availIn, n);
      var k, g :| 0 <= k <= availIn && 0 <= g <= n && InflateStep(f, member, consumed, produced, availIn, n, k, g);
      got := g;
      WriteOut(dst, at, n, Plain(f, member)[produced..produced + g]);
      Consume(k);
      produced := produced + g;
      end := Ends(f, member, consumed, produced);
    }

    method WriteOut(dst: array<byte>, at: nat, n: nat, data: seq<byte>)
      requires at + n <= dst.Length && |data| <= n
      modifies dst
      ensures Written(dst[..], old(dst[..]), at, n, data)
    {
      forall i | 0 <= i < |data| {
        dst[at + i] := data[i];
      }
      assert dst[..][at..at + |data|] == data;
    }

    method Consume(k: nat)
      requires InputHolds() && k <= availIn
      modifies `nextIn, `availIn, `consumed
      ensures InputHolds() && availIn == old(availIn) - k && consumed == old(consumed) + k
    {
      assert availIn > k ==> inBuf[nextIn + k..nextIn + availIn] == inBuf[nextIn..nextIn + availIn][k..];
      nextIn := nextIn + k;
      availIn := availIn - k;
      consumed := consumed + k;
    }

    /** What remains, in a member of which `o` bytes have been produced. */
    ghost function FromMember(o: nat): seq<byte>
      requires member <= |f.bytes|
      reads `member
    {
      Drop(Plain(f, member), o) + AfterMember(f, member)
    }

    lemma MemberShrinks(o: nat, o': nat)
      requires member <= |f.bytes| && o <= o' <= |Plain(f, member)|
      ensures FromMember(o) == Plain(f, member)[o..o'] + FromMember(o')
    {
      var all := Plain(f, member);
      assert Drop(all, o) == all[o..o'] + Drop(all, o');
    }

    /** The loop of gz_decomp(): until the room is used up, the member ends, or the file does. */
    method DecompLoop(dst: array<byte>, at: nat, n: nat) returns (ok: bool, got: nat, end: bool)
      requires Shape() && InputHolds() && InMember() && n > 0 && at + n <= dst.Length && dst != inBuf
      modifies `nextIn, `availIn, `fpos, `eof, `err, `consumed, `produced, inBuf, dst
      ensures !ok ==> err != NoError && err != BufError
      ensures ok ==> InputHolds() && InMemberOrDone() && got <= n && produced == old(produced) + got
      ensures ok ==> (end <==> Ends(f, member, consumed, produced))
      ensures ok ==> Written(dst[..], old(dst[..]), at, n, Plain(f, member)[old(produced)..produced])
      ensures ok ==> fpos - availIn >= old(fpos - availIn) && (got == 0 && end ==> fpos - availIn > old(fpos - availIn))
      ensures ok && got < n && !end ==> err == BufError && eof && availIn == 0
      ensures ok && (got == n || end) ==> err == old(err)
      ensures ok ==> err == old(err) || err == BufError
      ensures ok && old(eof && availIn == 0) ==> got == 0 && !end
    {
      hide Plain, Written, Ends, MemberEnd, Sound, Magic;
      got, end, ok := 0, false, true;
      NothingWritten(dst[..], at, n, Plain(f, member), produced);
      while got < n && !end
        invariant InputHolds() && InMemberOrDone() && got <= n && produced == old(produced) + got
        invariant end <==> Ends(f, member, consumed, produced)
        invariant Written(dst[..], old(dst[..]), at, n, Plain(f, member)[old(produced)..produced])
        invariant fpos - availIn >= old(fpos - availIn) && (got == 0 && end ==> fpos - availIn > old(fpos - availIn))
        invariant err == old(err) && (old(eof && availIn == 0) ==> got == 0 && !end && eof && availIn == 0)
        decreases n - got + |f.bytes| - (fpos - availIn)
      {
        if availIn == 0 {
          ok := Avail();
          if !ok {
            return;
          }
        }
        if availIn == 0 {
          err := BufError;
          break;
        }
        if * {
          err := DataError;
          return false, got, end;
        }
        ghost var before, from := dst[..], produced;
        var g;
        end, g := Inflate(dst, at + got, n - got);
        PlainMore(dst[..], before, old(dst[..]), at, n, Plain(f, member), old(produced), from, produced);
        got := got + g;
      }
    }

    lemma NothingWritten(s: seq<byte>, at: nat, n: nat, all: seq<byte>, o: nat)
      requires at + n <= |s| && o <= |all|
      ensures Written(s, s, at, n, all[o..o])
    {
    }

    lemma PlainMore(now: seq<byte>, mid: seq<byte>, before: seq<byte>, at: nat, n: nat, all: seq<byte>, a: nat,
        b: nat, c: nat)
      requires a <= b <= c <= |all| && b - a <= n && Written(mid, before, at, n, all[a..b])
      requires Written(now, mid, at + (b - a), n - (b - a), all[b..c])
      ensures Written(now, before, at, n, all[a..c])
    {
      hide Written;
      WrittenMore(now, mid, before, at, n, all[a..b], n - (b - a), all[b..c]);
      assert all[a..b] + all[b..c] == all[a..c];
    }

    /** gz_decomp(): the bytes decompressed are the next of what remains. If the file ends inside a member
        there is nothing more. */
    method Decomp(dst: array<byte>, at: nat, n: nat) returns (ok: bool, got: nat)
      requires Valid() && how == Gzip && have == 0 && n > 0 && at + n <= dst.Length && dst != inBuf && Noted()
      modifies `nextIn, `availIn, `availOut, `fpos, `eof, `err, `consumed, `produced, `how, `all, `ended, inBuf, dst
      ensures ok ==> Noted()
      ensures !ok ==> err != NoError && err != BufError
      ensures ok ==> InputHolds() && Mode() && how != Copy && got <= n && Rest() == Drop(all, pos + got)
      ensures ok ==> got <= |Drop(old(all), pos)| && Written(dst[..], old(dst[..]), at, n, Drop(old(all), pos)[..got])
      ensures ok ==> Cut(old(all), got) && pos + got <= |all|
      ensures ok && got == 0 ==> (eof && availIn == 0) || (how == Look && fpos - availIn > old(fpos - availIn))
      ensures ok ==> fpos - availIn >= old(fpos - availIn)
      ensures ok && how == Gzip && got < n ==> ended
      ensures ok ==> err == if how == Gzip && got < n then BufError else old(err)
      ensures ok && old(ended) ==> how == Gzip && ended
      ensures ok ==> all == All() || TornEnd()
    {
      hide Plain, Written, Ends, MemberEnd, Content, AfterMember, Drop, Mode, Sound;
      var end;
      EmptyHere();
      StartsInMember();
      ok, got, end := DecompLoop(dst, at, n);
      if !ok {
        return;
      }
      availOut := n - got;
      TakenHere(old(produced), got);
      FinishDecomp(n, got, end);
    }

    /** The end of gz_decomp(). */
    method FinishDecomp(n: nat, got: nat, end: bool)
      requires InMemberOrDone() && how == Gzip && got <= n && pos >= 0 && (end <==> Ends(f, member, consumed, produced))
      requires got < n && !end ==> err == BufError && eof && availIn == 0
      requires got <= |Drop(all, pos)| && Drop(all, pos + got) == if ended then [] else FromMember(produced)
      requires (ended ==> !end) && pos + got <= |all|
      modifies `how, `all, `ended
      ensures how == Gzip <==> !end
      ensures Mode() && how != Copy && Rest() == Drop(all, pos + got) && Cut(old(all), got) && pos + got <= |all|
      ensures end ==> how == Look
      ensures how == Gzip && got < n ==> ended
      ensures old(ended) ==> how == Gzip && ended
    {
      hide Plain, MemberEnd, Content, AfterMember, Drop;
      if end {
        EndedAt();
        how := Look;
      } else if got < n {
        ended := true;
        CutShort(all, pos, got);
        all := all[..pos + got];
      }
    }

    lemma TakenHere(o: nat, got: nat)
      requires member <= |f.bytes| && o + got == produced <= |Plain(f, member)| && pos >= 0
      requires Drop(all, pos) == if ended then [] else FromMember(o)
      requires ended ==> got == 0
      ensures got <= |Drop(all, pos)| && Plain(f, member)[o..produced] == Drop(all, pos)[..got]
      ensures Drop(all, pos + got) == if ended then [] else FromMember(produced)
      ensures pos <= |all| ==> pos + got <= |all|
    {
      hide Plain, AfterMember;
      DropDrop(all, pos, got);
      DropLength(all, pos);
      if !ended {
        MemberShrinks(o, produced);
        Taken(Drop(all, pos), Plain(f, member)[o..produced], FromMember(produced), got);
      }
    }

    /** The file has been found to end inside a member. */
    ghost predicate TornEnd()
      reads `how, `ended, `member
    {
      how == Gzip && ended && member <= |f.bytes| && MemberEnd(f, member) == None
    }

    /** Nothing has been lost; or the file ends inside a member, after `got` more bytes, and there is no more. */
    ghost predicate Cut(before: seq<byte>, got: nat)
      reads `all, `pos, `how, `ended, `member
    {
      all == before || (TornEnd() && 0 <= pos + got <= |before| && all == before[..pos + got])
    }

    lemma StartsInMember()
      requires Valid() && how == Gzip
      ensures InMember() && Rest() == if ended then [] else FromMember(produced)
    {
    }

    lemma EndedAt()
      requires InMemberOrDone() && Ends(f, member, consumed, produced)
      ensures Content(f, fpos - availIn, false) == FromMember(produced)
    {
      hide MemberEnd, Plain;
      var e := member + consumed;
      assert Drop(Plain(f, member), produced) == [];
      assert AfterMember(f, member) == Content(f, e, false);
      assert [] + Content(f, e, false) == Content(f, e, false);
    }

    lemma Taken(before: seq<byte>, data: seq<byte>, after: seq<byte>, got: nat)
      requires before == data + after && |data| == got
      ensures before[..got] == data && Drop(before, got) == after
    {
    }

    /** Nothing has been lost, unless the file was found to end inside a member. */
    ghost predicate Whole(before: seq<byte>)
      reads `all, `how, `ended, `member
    {
      all <= before && (all == before || TornEnd())
    }

    lemma BufferedNext(before: seq<byte>, got: nat)
      requires Shape() && InputHolds() && Mode() && how != Copy && before <= All()
      requires got <= |Drop(before, pos)| && pos >= 0 && Cut(before, got)
      requires next == 0 && have == got <= 2 * size && outBuf[..have] == Drop(before, pos)[..got]
      requires Rest() == Drop(all, pos + got) && (all == All() || TornEnd()) && pos <= |before| && !direct
      ensures Valid() && View() == Drop(all, pos) && Whole(before)
    {
      hide Rest, Drop, Content;
      assert outBuf[0..have] == outBuf[..have];
      DropLength(before, pos);
      if all == before {
        DropSplit(before, pos, got);
      } else {
        DropCut(before, all, pos, got);
        Prefix(before[..pos + got], before, All());
      }
    }

    lemma Prefix(a: seq<byte>, b: seq<byte>, c: seq<byte>)
      requires a <= b <= c
      ensures a <= c
    {
    }

    lemma AtEnd()
      requires Mode() && how == Look && eof && availIn == 0
      ensures Rest() == []
    {
      if !ended {
        NothingAt(fpos, direct);
      }
    }

    lemma EmptyHere()
      requires Valid() && have == 0
      ensures pos >= 0 && all <= All() && Shape() && (ended ==> Drop(all, pos) == []) && (how != Copy ==> pos <= |all|)
      ensures how == Gzip ==> !direct
    {
    }

    lemma FrontWritten(now: seq<byte>, before: seq<byte>, n: nat, data: seq<byte>)
      requires Written(now, before, 0, n, data)
      ensures |data| <= |now| && now[..|data|] == data
    {
      assert now[0..|data|] == now[..|data|];
    }

    /** The step of gz_fetch() that decompresses into the output buffer. */
    method FetchMember() returns (ok: bool)
      requires Valid() && how == Gzip && have == 0 && Noted()
      modifies `nextIn, `availIn, `availOut, `fpos, `eof, `err, `consumed, `produced, `how, `all, `ended, `have, `next
      modifies inBuf, outBuf
      ensures ok ==> Noted()
      ensures !ok ==> err != NoError && err != BufError
      ensures ok ==> Valid() && View() == Drop(all, pos) && Whole(old(all))
      ensures ok && have == 0 && eof && availIn == 0 ==> Rest() == []
      ensures ok && have == 0 && !(eof && availIn == 0) ==>
        all == old(all) && how == Look && fpos - availIn > old(fpos - availIn)
      ensures ok ==> how != Copy && fpos - availIn >= old(fpos - availIn)
      ensures ok ==> err == if how == Gzip && have < 2 * size then BufError else old(err)
      ensures ok && how == Gzip && have < 2 * size ==> TornEnd()
      ensures ok && old(TornEnd()) ==> TornEnd() && have == 0 && eof && availIn == 0
    {
      hide Plain, Content, AfterMember, Ends, MemberEnd, Drop, InputHolds, Mode, Rest, Written;
      var got;
      EmptyHere();
      ok, got := Decomp(outBuf, 0, 2 * size);
      if !ok {
        return;
      }
      have := got;
      next := 0;
      FrontWritten(outBuf[..], old(outBuf[..]), 2 * size, Drop(old(all), pos)[..got]);
      BufferedNext(old(all), got);
      if how == Look && eof && availIn == 0 {
        AtEnd();
      }
      if ended {
        EndedParts();
      }
    }

    lemma EndedParts()
      requires Mode() && ended
      ensures eof && availIn == 0 && Rest() == [] && (how == Gzip ==> TornEnd())
    {
    }

    /** The step of gz_fetch() that reads into the output buffer. */
    method FetchCopy() returns (ok: bool)
      requires Valid() && how == Copy && have == 0
      modifies `fpos, `eof, `err, `have, `next, outBuf
      ensures !ok ==> err == Fatal
      ensures ok ==> Valid() && View() == Drop(all, pos) && err == old(err)
      ensures ok && have == 0 ==> Rest() == [] && eof && availIn == 0
      ensures fpos >= old(fpos)
    {
      hide Written, Valid, View, Rest;
      CopyParts();
      var got;
      ok, got := Load(outBuf, 0, 2 * size);
      have := got;
      if !ok {
        return;
      }
      next := 0;
      LoadedFront(outBuf[..], old(outBuf[..]), got, old(fpos));
      CopyLoaded(got);
    }

    lemma LoadedFront(now: seq<byte>, before: seq<byte>, got: nat, from: nat)
      requires Written(now, before, 0, 2 * size, Between(f, from, from + got)) && (got > 0 ==> from + got <= |f.bytes|)
      ensures got <= |now| && now[..got] + Drop(f.bytes, from + got) == Drop(f.bytes, from)
    {
      if got > 0 {
        assert now[0..got] == f.bytes[from..from + got];
        assert now[..got] == now[0..got];
      }
    }

    /** gz_fetch(): fills the empty output buffer, looking for a header where one is due. If the buffer stays
        empty, everything has been delivered. */
    method Fetch() returns (ok: bool)
      requires Valid() && have == 0 && Noted()
      modifies `nextIn, `availIn, `availOut, `fpos, `eof, `err, `consumed, `produced, `how, `all, `ended, `have, `next
      modifies `direct, `member, inBuf, outBuf
      ensures ok ==> Noted()
      ensures !ok ==> err != NoError && err != BufError
      ensures ok ==> Valid() && View() == Drop(all, pos) && Whole(old(all))
      ensures ok ==> err == if how == Gzip && have < 2 * size then BufError else old(err)
      ensures ok && how == Gzip && have < 2 * size ==> TornEnd()
      ensures ok && have == 0 ==> Rest() == [] && eof && availIn == 0
      ensures ok ==> fpos - availIn >= old(fpos - availIn)
      ensures ok && old(TornEnd()) ==> TornEnd()
    {
      hide Valid, View, Rest, Drop;
      InView();
      while true
        invariant Valid() && have == 0 && View() == Drop(all, pos) && all == old(all)
        invariant err == old(err) && Noted()
        invariant fpos - availIn >= old(fpos - availIn) && (old(TornEnd()) ==> TornEnd())
        decreases |f.bytes| - (fpos - availIn), how == Look
      {
        Bounds();
        match how {
          case Look =>
            ok := LookHeader();
            if !ok {
              return;
            }
            if how == Look {
              InView();
              return;
            }
            if have > 0 {
              return;
            }
            Bounds();
          case Copy =>
            ok := FetchCopy();
            return;
          case Gzip =>
            ok := FetchMember();
            if !ok {
              return;
            }
            Bounds();
            if have > 0 || (eof && availIn == 0) {
              return;
            }
            InView();
        }
      }
    }

    lemma Bounds()
      requires Valid()
      ensures availIn <= fpos && (how != Copy ==> fpos - availIn <= |f.bytes|)
    {
    }

    /** With an empty buffer, what is to come is what remains from the position on. */
    lemma InView()
      requires Valid() && have == 0
      ensures View() == Drop(all, pos) == Rest() && Clean()
    {
    }

    /** Whether the file begins with a member has been found out, if it is not empty. */
    ghost predicate Looked()
      reads `how, `direct
    {
      how == Look && direct ==> |f.bytes| == 0
    }

    lemma LookedWell()
      requires Valid()
      ensures how == Copy ==> Raw(f)
      ensures Looked() ==> (how == Copy <==> Raw(f)) && (direct <==> !Magic(f, 0))
    {
    }

    lemma HasLooked()
      requires Valid() && (have > 0 || how != Look || (eof && availIn == 0))
      ensures Looked() && (how == Gzip ==> !direct)
    {
    }

    // Delivering data.

    /** Nothing pushed back is waiting: what is to come is what the file reads as from the position on. */
    ghost predicate Clean()
      requires Valid()
      reads `have, `next, `pos, `how, `direct, `eof, `nextIn, `availIn, `fpos, `member, `consumed, `produced, `all
      reads `ended, inBuf, outBuf
    {
      pos >= 0 && View() == Drop(all, pos)
    }

    /** What is to come is v; or rather its beginning, if the file ends inside a member. */
    ghost predicate Leaves(v: seq<byte>, before: seq<byte>)
      requires Valid()
      reads `have, `next, `pos, `how, `direct, `eof, `nextIn, `availIn, `fpos, `member, `consumed, `produced, `all
      reads `ended, inBuf, outBuf
    {
      if all == before then View() == v else TornEnd() && all <= before && View() <= v && Clean()
    }

    /** Moving on in the output buffer. */
    method Take(n: nat)
      requires Valid() && n <= have
      modifies `have, `next, `pos
      ensures Valid() && View() == old(View())[n..] && pos == old(pos) + n && have == old(have) - n
      ensures n <= |old(View())|
    {
      hide Rest, Drop, Content;
      have := have - n;
      next := next + n;
      pos := pos + n;
      assert outBuf[next..next + have] == old(outBuf[next..next + have])[n..];
    }

    /** At the end of the file with nothing buffered, nothing more comes; if that is inside a member, what
        the inflater still held back is lost. */
    ghost method ReachEnd()
      requires Valid() && have == 0 && eof && availIn == 0
      modifies `ended, `all
      ensures Valid() && View() == [] && Leaves(old(View()), old(all)) && (how == Gzip ==> TornEnd())
    {
      hide Content, AfterMember, Plain, Magic;
      if how == Look {
        AtEnd();
      } else if how == Gzip {
        ended := true;
        CutShort(all, pos, 0);
        all := all[..pos];
      }
    }

    lemma NotTornYet()
      requires Valid() && !(eof && availIn == 0)
      ensures !ended && !TornEnd()
    {
    }

    /** Filling the buffer changes nothing about what is to come, unless it finds the file torn. */
    method Refill() returns (ok: bool)
      requires Valid() && have == 0 && Noted()
      modifies `nextIn, `availIn, `availOut, `fpos, `eof, `err, `consumed, `produced, `how, `all, `ended, `have, `next
      modifies `direct, `member, inBuf, outBuf
      ensures ok ==> Noted()
      ensures !ok ==> err != NoError && err != BufError
      ensures ok && old(TornEnd()) ==> TornEnd()
      ensures ok ==> Valid() && Leaves(old(View()), old(all)) && Looked()
      ensures ok ==> err == if how == Gzip && have < 2 * size then BufError else old(err)
      ensures ok && how == Gzip && have < 2 * size ==> TornEnd()
      ensures ok ==> (have == 0 ==> View() == [] && eof && availIn == 0) && fpos - availIn >= old(fpos - availIn)
    {
      hide Valid, View, Rest, Drop;
      InView();
      ok := Fetch();
      if ok {
        HasLooked();
        DropPrefix(all, old(all), pos);
        if have == 0 {
          InView();
        }
      }
    }

    lemma DropPrefix(a: seq<byte>, b: seq<byte>, n: int)
      requires a <= b
      ensures Drop(a, n) <= Drop(b, n)
    {
    }

    /** Delivering from the output buffer. */
    method FromBuffer(buf: array<byte>, at: nat, n: nat)
      requires Valid() && n <= have && at + n <= buf.Length && buf != inBuf && buf != outBuf
      modifies `have, `next, `pos, buf
      ensures Valid() && n <= |old(View())| && pos == old(pos) + n && View() == old(View())[n..]
      ensures have == old(have) - n
      ensures Written(buf[..], old(buf[..]), at, n, old(View())[..n])
    {
      hide Rest, Drop, Content, Written;
      ghost var data := outBuf[next..next + n];
      assert data == View()[..n];
      WriteOut(buf, at, n, outBuf[next..next + n]);
      SameView(n);
      Take(n);
    }

    lemma SameView(n: nat)
      requires Valid() && n <= have
      ensures n <= |View()|
    {
    }

    /** A large request on an uncompressed file is read straight into the caller's buffer. */
    method DirectCopy(buf: array<byte>, at: nat, n: nat) returns (ok: bool, k: nat)
      requires Valid() && how == Copy && have == 0 && n > 0 && at + n <= buf.Length && buf != inBuf && buf != outBuf
      modifies `fpos, `eof, `err, `pos, buf
      ensures !ok ==> err == Fatal
      ensures ok ==> Valid() && k <= n && k <= |old(View())| && pos == old(pos) + k && View() == old(View())[k..]
      ensures ok ==> err == old(err)
      ensures ok ==> Written(buf[..], old(buf[..]), at, n, old(View())[..k])
      ensures ok && k == 0 ==> eof && availIn == 0
      ensures fpos >= old(fpos)
    {
      hide Valid, View, Rest, Written, Drop, Between;
      Copying();
      ok, k := Load(buf, at, n);
      if !ok {
        return;
      }
      CopiedFrom(old(fpos), k);
      pos := pos + k;
      StillCopying();
    }

    lemma Copying()
      requires Valid() && how == Copy && have == 0
      ensures View() == Drop(f.bytes, fpos) && pos == fpos && availIn == 0 && direct && all == f.bytes == All()
      ensures Shape() && nextIn <= size && next <= 2 * size && (eof ==> fpos >= |f.bytes|) && !ended && Raw(f)
    {
    }

    lemma CopyLoaded(got: nat)
      requires Shape() && how == Copy && have == got <= 2 * size && next == 0 && availIn == 0 && nextIn <= size
      requires !ended && direct && Raw(f) && all == f.bytes == All() && fpos == pos + got && pos >= 0
      requires (eof ==> fpos >= |f.bytes|) && (got == 0 ==> eof)
      requires outBuf[..][..got] + Drop(f.bytes, fpos) == Drop(f.bytes, pos)
      ensures Valid() && View() == Drop(all, pos)
      ensures have == 0 ==> Rest() == []
    {
      hide Content, AfterMember, Plain, MemberEnd, Sound, Magic;
      assert outBuf[0..got] == outBuf[..][..got];
    }

    lemma StillCopying()
      requires Shape() && how == Copy && have == 0 && pos == fpos && availIn == 0 && direct && all == f.bytes == All()
      requires nextIn <= size && next <= 2 * size && (eof ==> fpos >= |f.bytes|) && !ended && Raw(f)
      ensures Valid() && View() == Drop(f.bytes, fpos)
    {
    }

    lemma CopiedFrom(from: nat, k: nat)
      requires k > 0 ==> from + k <= |f.bytes|
      ensures k <= |Drop(f.bytes, from)| && Between(f, from, from + k) == Drop(f.bytes, from)[..k]
      ensures Drop(f.bytes, from)[k..] == Drop(f.bytes, from + k)
    {
    }

    /** A large request inside a member is decompressed straight into the caller's buffer. */
    method DirectDecomp(buf: array<byte>, at: nat, n: nat) returns (ok: bool, k: nat)
      requires Valid() && Noted() && how == Gzip && have == 0 && n > 0 && at + n <= buf.Length
      requires buf != inBuf && buf != outBuf
      modifies `nextIn, `availIn, `availOut, `fpos, `eof, `err, `consumed, `produced, `how, `all, `ended, `pos, inBuf
      modifies buf
      ensures ok ==> Noted()
      ensures !ok ==> err != NoError && err != BufError
      ensures ok ==>
        Valid() && k <= n && k <= |old(View())| && pos == old(pos) + k && Leaves(old(View())[k..], old(all))
      ensures ok ==> Written(buf[..], old(buf[..]), at, n, old(View())[..k]) && (err == old(err) || err == BufError)
      ensures ok && k == 0 ==> (eof && availIn == 0) || fpos - availIn > old(fpos - availIn)
      ensures ok ==> fpos - availIn >= old(fpos - availIn) && how != Copy
    {
      hide Written, Content, AfterMember, Plain, Ends, MemberEnd, Drop, Rest, Mode, InputHolds;
      InView();
      ok, k := Decomp(buf, at, n);
      if !ok {
        return;
      }
      pos := pos + k;
      StillValid();
      DecompLeaves(old(all), old(pos), k);
    }

    lemma StillValid()
      requires Shape() && InputHolds() && Mode() && how != Copy && have == 0 && next <= 2 * size && 0 <= pos <= |all|
      requires all <= All()
      requires Rest() == Drop(all, pos) && (all == All() || TornEnd())
      ensures Valid() && View() == Drop(all, pos)
    {
    }

    lemma DecompLeaves(before: seq<byte>, from: nat, k: nat)
      requires Valid() && pos == from + k && View() == Drop(all, pos) && k <= |Drop(before, from)|
      requires all == before || (TornEnd() && pos <= |before| && all == before[..pos])
      ensures Leaves(Drop(before, from)[k..], before)
    {
    }

    /** gz_skip(). */
    method Skip(len: nat) returns (ok: bool, ghost skipped: nat)
      requires Valid() && Noted()
      modifies `nextIn, `availIn, `availOut, `fpos, `eof, `err, `consumed, `produced, `how, `all, `ended, `have, `next
      modifies `direct, `member, `pos, inBuf, outBuf
      ensures !ok ==> err != NoError && err != BufError
      ensures ok ==> Valid() && Noted() && skipped <= len && skipped <= |old(View())| && pos == old(pos) + skipped
      ensures ok ==> Leaves(old(View())[skipped..], old(all)) && pos + have >= old(pos + have)
      ensures ok ==> err == old(err) || err == BufError
      ensures ok ==> (skipped < len ==> View() == [] && have == 0 && eof && availIn == 0) && (len > 0 ==> Looked())
    {
      hide Valid, View, Rest, TornEnd, Noted, Looked, Leaves, Clean;
      var left: nat := len;
      skipped := 0;
      NoneSkipped();
      while left > 0
        invariant Valid() && Noted() && skipped + left == len && skipped <= |old(View())| && pos == old(pos) + skipped
        invariant Leaves(old(View())[skipped..], old(all))
        invariant pos + have >= old(pos + have) && (left < len ==> Looked()) && (err == old(err) || err == BufError)
        decreases left, !(eof && availIn == 0), have == 0
      {
        if have > 0 {
          var n := if have > left then left else have;
          HasLooked();
          SkipBuffered(old(View()), skipped, n, old(all));
          skipped := skipped + n;
          left := left - n;
        } else if eof && availIn == 0 {
          HasLooked();
          ReachEndLeaves(old(View())[skipped..], old(all));
          return true, skipped;
        } else {
          ok := RefillLeaves(old(View())[skipped..], old(all));
          if !ok {
            return;
          }
        }
      }
      ok := true;
    }

    lemma NoneSkipped()
      requires Valid()
      ensures Leaves(View()[0..], all)
    {
      hide View, Rest;
    }

    /** Passing over bytes in the output buffer. */
    method SkipBuffered(ghost v: seq<byte>, ghost skipped: nat, n: nat, ghost before: seq<byte>)
      requires Valid() && 0 < n <= have && skipped <= |v| && Leaves(v[skipped..], before)
      modifies `have, `next, `pos
      ensures Valid() && pos == old(pos) + n && have == old(have) - n
      ensures skipped + n <= |v| && Leaves(v[skipped + n..], before)
    {
      hide Valid, View, TornEnd;
      SameView(n);
      PrefixSlice(View(), v[skipped..], n);
      TakeLeaves(n);
      assert v[skipped..][n..] == v[skipped + n..];
    }

    /** Reaching the end, after some bytes have been taken. */
    ghost method ReachEndLeaves(v: seq<byte>, before: seq<byte>)
      requires Valid() && have == 0 && eof && availIn == 0 && Leaves(v, before)
      modifies `ended, `all
      ensures Valid() && View() == [] && Leaves(v, before) && (how == Gzip ==> TornEnd()) && all <= old(all)
    {
      hide Valid, View, TornEnd;
      ghost var mid, now := all, View();
      TornIsGzip();
      ReachEnd();
      assert all <= mid && View() <= now;
      assert all == before ==> |mid| == |all|;
    }

    /** Filling the buffer, after some bytes have been taken. */
    method RefillLeaves(ghost v: seq<byte>, ghost before: seq<byte>) returns (ok: bool)
      requires Valid() && have == 0 && Noted() && Leaves(v, before)
      modifies `nextIn, `availIn, `availOut, `fpos, `eof, `err, `consumed, `produced, `how, `all, `ended, `have, `next
      modifies `direct, `member, inBuf, outBuf
      ensures !ok ==> err != NoError && err != BufError
      ensures ok ==> Valid() && Noted() && Leaves(v, before) && Looked() && all <= old(all) && View() <= old(View())
      ensures ok ==> err == if how == Gzip && have < 2 * size then BufError else old(err)
      ensures ok && how == Gzip && have < 2 * size ==> TornEnd()
      ensures ok ==> (have == 0 ==> View() == [] && eof && availIn == 0) && fpos - availIn >= old(fpos - availIn)
    {
      hide Valid, View, TornEnd, Noted, Looked;
      ghost var mid, now := all, View();
      ok := Refill();
      if ok {
        assert all <= mid && View() <= now;
        assert all == before ==> |mid| == |all|;
      }
    }

    /** Moving on keeps a torn file torn. */
    method TakeLeaves(n: nat)
      requires Valid() && n <= have
      modifies `have, `next, `pos
      ensures Valid() && View() == old(View())[n..] && pos == old(pos) + n && have == old(have) - n
      ensures n <= |old(View())|
      ensures TornEnd() == old(TornEnd())
    {
      hide Valid, View;
      Take(n);
    }

    lemma PrefixSlice(a: seq<byte>, b: seq<byte>, n: nat)
      requires a <= b && n <= |a|
      ensures n <= |b| && a[n..] <= b[n..]
    {
    }

    /** gztell64(). */
    function Tell(): int
      reads `pos, `seek, `skip
    {
      pos + if seek then skip else 0
    }

    /** What the caller is to get next: what is to come, after a seek that is still pending. */
    ghost function Next(): seq<byte>
      requires Valid()
      reads `seek, `skip
      reads `have, `next, `pos, `how, `direct, `eof, `nextIn, `availIn, `fpos, `member, `consumed, `produced, `all
      reads `ended, inBuf, outBuf
    {
      if seek then Drop(View(), skip) else View()
    }

    /** The part of the file not yet taken up. */
    ghost function Left(): nat
      reads `fpos, `availIn
    {
      if 0 <= fpos - availIn <= |f.bytes| then |f.bytes| - (fpos - availIn) else 0
    }

    /** A pending seek, carried out. If the end comes first, the rest of it is forgotten. */
    method Settle() returns (ok: bool)
      requires Valid() && Due() && Noted()
      modifies `nextIn, `availIn, `availOut, `fpos, `eof, `err, `consumed, `produced, `how, `all, `ended, `have, `next
      modifies `direct, `member, `pos, `seek, inBuf, outBuf
      ensures ok ==> Noted()
      ensures !ok ==> err != NoError && err != BufError
      ensures ok ==> Valid() && !seek && Leaves(old(Next()), old(all))
      ensures !old(seek) ==> ok && unchanged(this)
      ensures ok && old(seek) ==> Looked() && pos <= |all| && (err == old(err) || err == BufError)
      ensures ok ==> pos + have >= old(pos + have) && pos <= old(Tell())
      ensures ok && pos < old(Tell()) ==> View() == [] && have == 0 && eof && availIn == 0 && pos == |all|
    {
      hide Valid, View, Rest, TornEnd;
      ok := true;
      if seek {
        seek := false;
        ghost var skipped;
        ViewLength();
        ok, skipped := Skip(skip);
        if ok {
          SkipLeaves(old(View()), skipped, skip, old(all));
          ViewLength();
        }
      }
    }

    lemma ViewLength()
      requires Valid()
      ensures |View()| == if pos + have <= |all| then |all| - pos else have
      ensures all <= All() && (how == Copy ==> all == All()) && (how != Copy ==> pos + have <= |all|) && pos + have >= 0
    {
      DropLength(all, pos + have);
    }

    /** Where a seek to `target` ends up: a pending one stops at the end of the data. */
    static function Landed(pending: bool, target: int, end: nat): int {
      if pending && target > end then end else target
    }

    /** A pending seek goes on from a place within the data. */
    ghost predicate Due()
      reads `seek, `skip, `pos, `have, `all
    {
      seek ==> skip > 0 && pos + have <= |all|
    }

    lemma SkipLeaves(v: seq<byte>, skipped: nat, skip: nat, before: seq<byte>)
      requires Valid() && skipped <= skip && skipped <= |v| && Leaves(v[skipped..], before)
      requires (skipped < skip ==> View() == [])
      ensures Leaves(Drop(v, skip), before)
    {
      hide View, TornEnd, Valid;
    }

    /** `got` bytes of those that are to come are in buf, and the rest is to come. */
    ghost predicate Progress(buf: seq<byte>, was: seq<byte>, len: nat, v: seq<byte>, before: seq<byte>, got: nat)
      requires Valid()
      reads `have, `next, `pos, `how, `direct, `eof, `nextIn, `availIn, `fpos, `member, `consumed, `produced, `all
      reads `ended, inBuf, outBuf
    {
      got <= len && got <= |v| && Written(buf, was, 0, len, v[..got]) && Leaves(v[got..], before)
    }

    lemma StepOn(now: seq<byte>, mid: seq<byte>, was: seq<byte>, len: nat, v: seq<byte>, got: nat, n: nat, k: nat,
        from: seq<byte>)
      requires got + n <= len && got <= |v| && Written(mid, was, 0, len, v[..got])
      requires from <= v[got..] && k <= |from| && Written(now, mid, got, n, from[..k])
      ensures got + k <= |v| && Written(now, was, 0, len, v[..got + k])
    {
      hide Written;
      WrittenMore(now, mid, was, 0, len, v[..got], n, from[..k]);
      assert v[..got] + from[..k] == v[..got + k];
    }

    /** One turn of the loop of gz_read(): from the output buffer, or else straight from the file for large
        requests. Small ones have the buffer filled first. */
    method ReadSome(buf: array<byte>, len: nat, got: nat, ghost was: seq<byte>, ghost v: seq<byte>,
        ghost before: seq<byte>) returns (ok: bool, k: nat)
      requires Valid() && got < len <= buf.Length && buf != inBuf && buf != outBuf && Noted()
      requires !(have == 0 && eof && availIn == 0)
      requires Progress(buf[..], was, len, v, before, got)
      modifies `nextIn, `availIn, `availOut, `fpos, `eof, `err, `consumed, `produced, `how, `all, `ended, `have, `next
      modifies `direct, `member, `pos, inBuf, outBuf, buf
      ensures !ok ==> err != NoError && err != BufError
      ensures ok ==> Valid() && Noted() && Progress(buf[..], was, len, v, before, got + k) && pos == old(pos) + k
      ensures ok ==> Looked() && all <= old(all) && pos + have >= old(pos + have)
      ensures ok ==> err == old(err) || err == BufError
      ensures ok && k == 0 ==> Left() < old(Left()) || (Left() == old(Left()) && Stage() < old(Stage()))
    {
      hide Valid, View, Rest, Written, TornEnd, Noted, Looked, Leaves;
      ok, k := true, 0;
      var n := if len - got > 0xffff_ffff then 0xffff_ffff else len - got;
      if have > 0 {
        if have < n {
          n := have;
        }
        k := n;
        HasLooked();
        ReadBuffered(buf, len, got, n, was, v, before);
        return;
      }
      Bounds();
      if how == Look || n < 2 * size {
        ok := RefillLeaves(v[got..], before);
      } else {
        ok, k := ReadDirect(buf, len, got, n, was, v, before);
      }
      if ok {
        Bounds();
      }
    }

    method ReadBuffered(buf: array<byte>, len: nat, got: nat, n: nat, ghost was: seq<byte>, ghost v: seq<byte>,
        ghost before: seq<byte>)
      requires Valid() && n <= have && got + n <= len <= buf.Length && buf != inBuf && buf != outBuf
      requires Progress(buf[..], was, len, v, before, got)
      modifies `have, `next, `pos, buf
      ensures Valid() && Progress(buf[..], was, len, v, before, got + n) && pos == old(pos) + n && have == old(have) - n
    {
      hide Valid, View, Rest, Written, TornEnd;
      SameView(n);
      PrefixSlice(View(), v[got..], n);
      ghost var mid, from := buf[..], View();
      FromBuffer(buf, got, n);
      StepOn(buf[..], mid, was, len, v, got, n, n, from);
      assert v[got..][n..] == v[got + n..];
    }

    /** A large request goes straight to the caller's buffer. */
    method ReadDirect(buf: array<byte>, len: nat, got: nat, n: nat, ghost was: seq<byte>, ghost v: seq<byte>,
        ghost before: seq<byte>) returns (ok: bool, k: nat)
      requires Valid() && how != Look && have == 0 && !(eof && availIn == 0) && n > 0 && got + n <= len <= buf.Length
      requires buf != inBuf && buf != outBuf && Noted()
      requires Progress(buf[..], was, len, v, before, got)
      modifies `nextIn, `availIn, `availOut, `fpos, `eof, `err, `consumed, `produced, `how, `all, `ended, `pos, inBuf
      modifies buf
      ensures ok ==> Noted()
      ensures !ok ==> err != NoError && err != BufError
      ensures ok ==> Valid() && Progress(buf[..], was, len, v, before, got + k) && pos == old(pos) + k
      ensures ok ==> Looked() && all <= old(all) && (err == old(err) || err == BufError)
      ensures ok && k == 0 ==> (eof && availIn == 0) || (how != Copy && fpos - availIn > old(fpos - availIn))
      ensures ok ==> fpos - availIn >= old(fpos - availIn)
    {
      hide Valid, View, Rest, Written, TornEnd;
      ghost var mid, from := buf[..], View();
      HasLooked();
      NotTornYet();
      if how == Copy {
        ok, k := DirectCopy(buf, got, n);
      } else {
        ok, k := DirectDecomp(buf, got, n);
      }
      if ok {
        StepOn(buf[..], mid, was, len, v, got, n, k, from);
        assert v[got..][k..] == v[got + k..];
      }
    }

    /** Is there something to be fetched? */
    ghost function Stage(): nat
      reads `have, `eof, `availIn
    {
      if have == 0 && !(eof && availIn == 0) then 1 else 0
    }

    /** gz_read(): the next `len` bytes, or all there are. */
    method ReadBytes(buf: array<byte>, len: nat) returns (ok: bool, got: nat)
      requires Valid() && Due() && Noted() && len <= buf.Length && buf != inBuf && buf != outBuf
      modifies `nextIn, `availIn, `availOut, `fpos, `eof, `err, `consumed, `produced, `how, `all, `ended, `have, `next
      modifies `direct, `member, `pos, `seek, `past, inBuf, outBuf, buf
      ensures !ok ==> err != NoError && err != BufError
      ensures ok && len > 0 ==> Valid() && !seek && Progress(buf[..], old(buf[..]), len, old(Next()), old(all), got)
      ensures ok && len > 0 ==> Noted() && Looked() && pos + have >= old(pos + have)
      ensures ok ==> err == old(err) || err == BufError
      ensures ok && len > 0 ==> pos == Landed(old(seek), old(Tell()), |all|) + got
      ensures ok && got < len ==> View() == [] && past && have == 0 && eof && availIn == 0
      ensures ok && got < len ==> (how == Gzip <==> TornEnd())
      ensures ok && got < len && !Failed() ==> (err == BufError <==> TornEnd() && availOut > 0)
      ensures ok && len == 0 ==> got == 0 && unchanged(this, inBuf, outBuf)
      ensures old(!seek && have == 0 && eof && availIn == 0) ==> ok && got == 0 && err == old(err) && how == old(how)
    {
      hide Valid, View, Rest, TornEnd, Written, Noted, Looked, Leaves;
      ok, got := true, 0;
      if len == 0 {
        return;
      }
      ok := Settle();
      if !ok {
        return;
      }
      ViewLength();
      Unread(buf[..], len, old(Next()), old(all));
      ok, got := ReadOn(buf, len, old(buf[..]), old(Next()), old(all));
      if ok {
        ViewLength();
        NotedEnd();
      }
    }

    lemma NotedEnd()
      requires Noted()
      ensures !Failed() && eof && availIn == 0 ==> (err == BufError <==> how == Gzip && availOut > 0)
    {
    }

    /** The loop of gz_read(). */
    method ReadOn(buf: array<byte>, len: nat, ghost was: seq<byte>, ghost v: seq<byte>, ghost before: seq<byte>)
      returns (ok: bool, got: nat)
      requires Valid() && !seek && Noted() && 0 < len <= buf.Length && buf != inBuf && buf != outBuf
      requires Progress(buf[..], was, len, v, before, 0)
      modifies `nextIn, `availIn, `availOut, `fpos, `eof, `err, `consumed, `produced, `how, `all, `ended, `have, `next
      modifies `direct, `member, `pos, `past, inBuf, outBuf, buf
      ensures !ok ==> err != NoError && err != BufError
      ensures ok ==> Valid() && Noted() && Progress(buf[..], was, len, v, before, got) && pos == old(pos) + got
      ensures ok ==> Looked() && all <= old(all) && pos + have >= old(pos + have)
      ensures ok ==> err == old(err) || err == BufError
      ensures ok && got < len ==> View() == [] && past && have == 0 && eof && availIn == 0
      ensures ok && got < len ==> (how == Gzip <==> TornEnd())
      ensures old(have == 0 && eof && availIn == 0) ==> ok && got == 0 && err == old(err) && how == old(how)
    {
      hide Valid, View, Rest, TornEnd, Written, Noted, Looked, Leaves;
      ok, got := true, 0;
      while got < len
        invariant got <= len && Valid() && Noted() && Progress(buf[..], was, len, v, before, got)
        invariant pos == old(pos) + got && all <= old(all) && pos + have >= old(pos + have) && (got > 0 ==> Looked())
        invariant err == old(err) || err == BufError
        invariant old(have == 0 && eof && availIn == 0) ==>
          got == 0 && have == 0 && eof && availIn == 0 && err == old(err) && how == old(how)
        decreases len - got, Left(), Stage()
      {
        if have == 0 && eof && availIn == 0 {
          past := true;
          HasLooked();
          ReachEndLeaves(v[got..], before);
          TornIsGzip();
          return;
        }
        var k;
        ok, k := ReadSome(buf, len, got, was, v, before);
        if !ok {
          return;
        }
        got := got + k;
      }
    }

    lemma TornIsGzip()
      ensures TornEnd() ==> how == Gzip
    {
    }

    lemma Unread(s: seq<byte>, len: nat, v: seq<byte>, before: seq<byte>)
      requires Valid() && len <= |s| && Leaves(v, before)
      ensures Progress(s, s, len, v, before, 0)
    {
      hide Valid, View, TornEnd;
      assert v[0..] == v && v[..0] == [] && s[0..0] == [];
    }

    /** gzgetc(): from the output buffer, without regard to a pending seek, or else by reading one byte. */
    method GetC() returns (c: int)
      requires Valid() && Due() && Noted()
      modifies `nextIn, `availIn, `availOut, `fpos, `eof, `err, `consumed, `produced, `how, `all, `ended, `have, `next
      modifies `direct, `member, `pos, `seek, `past, inBuf, outBuf
      ensures -1 <= c < 256 && (old(Failed()) ==> c == -1)
      ensures !Failed() ==> Valid() && Due() && Noted() && pos + have >= old(pos + have)
      ensures !Failed() && old(have > 0) ==> TookBuffered(c)
      ensures !Failed() && !old(have > 0) ==>
        !seek && Looked() && pos == Landed(old(seek), old(Tell()), |all|) + if c < 0 then 0 else 1
      ensures !Failed() && !old(have > 0) && c >= 0 ==>
        |old(Next())| > 0 && c == old(Next())[0] && Leaves(old(Next())[1..], old(all))
      ensures !Failed() && !old(have > 0) && c < 0 ==>
        View() == [] && Leaves(old(Next()), old(all)) && past && (how == Gzip <==> TornEnd())
    {
      hide Valid, View, Rest, TornEnd, Noted, Looked;
      if Failed() {
        return -1;
      }
      if have > 0 {
        c := FirstByte();
        Take(1);
        return;
      }
      var buf := new byte[1];
      var ok, got := ReadBytes(buf, 1);
      if !ok {
        return -1;
      }
      if got < 1 {
        assert old(Next())[0..] == old(Next());
        return -1;
      }
      assert buf[..][0..1] == old(Next())[..1];
      assert buf[..][0] == buf[0];
      c := buf[0];
    }

    /** A byte has been taken from the output buffer, and nothing else happened. */
    twostate predicate TookBuffered(c: int)
      requires old(Valid()) && Valid()
      reads this, inBuf, outBuf
    {
      && |old(View())| > 0 && c == old(View())[0] && View() == old(View())[1..]
      && seek == old(seek) && skip == old(skip) && how == old(how) && all == old(all)
      && pos == old(pos) + 1 && have == old(have) - 1
    }

    method FirstByte() returns (b: byte)
      requires Valid() && have > 0
      ensures |View()| > 0 && b == View()[0]
    {
      b := outBuf[next];
      assert outBuf[next..next + have][0] == b;
    }

    /** Room in front of the data is made by sliding it to the end of the output buffer, last byte first. */
    method SlideUp()
      requires Valid() && next == 0 && have < 2 * size
      modifies `next, outBuf
      ensures Valid() && View() == old(View()) && next == 2 * size - have
    {
      hide Rest, Drop, Content;
      hide Mode, InputHolds;
      ghost var data := outBuf[0..have];
      assert outBuf[..have] == data;
      MoveUp(outBuf, have);
      next := 2 * size - have;
      assert outBuf[next..next + have] == outBuf[outBuf.Length - have..] == data;
    }

    method MoveUp(a: array<byte>, n: nat)
      requires n <= a.Length
      modifies a
      ensures a[a.Length - n..] == old(a[..n])
    {
      var src, dest := n, a.Length;
      while src > 0
        invariant 0 <= src <= n && dest - src == a.Length - n
        invariant forall i :: 0 <= i < src ==> a[i] == old(a[i])
        invariant forall i :: dest <= i < a.Length ==> a[i] == old(a[i - (a.Length - n)])
      {
        src := src - 1;
        dest := dest - 1;
        a[dest] := a[src];
      }
    }

    /** One byte is put in front of the data. */
    method PushFront(c: byte)
      requires Valid() && have > 0 && next > 0
      modifies `have, `next, `pos, outBuf
      ensures Valid() && View() == [c] + old(View()) && pos == old(pos) - 1 && have == old(have) + 1
    {
      hide Rest, Drop, Content;
      ghost var data := outBuf[next..next + have];
      have := have + 1;
      next := next - 1;
      outBuf[next] := c;
      pos := pos - 1;
      assert outBuf[next..next + have] == [c] + data;
    }

    /** Into an empty buffer the byte goes at the end, which leaves the most room in front. */
    method PushFirst(c: byte)
      requires Valid() && have == 0 && Looked()
      modifies `have, `next, `pos, outBuf
      ensures Valid() && View() == [c] + old(View()) && pos == old(pos) - 1 && have == 1
    {
      hide Rest, Drop, Content;
      have := 1;
      next := 2 * size - 1;
      outBuf[next] := c;
      pos := pos - 1;
      assert outBuf[next..next + have] == [c];
    }

    /** gzungetc(): the byte is the next to be delivered. It fails only if the output buffer is full. */
    method UngetC(c: int) returns (r: int)
      requires Valid() && Due() && Noted() && c < 256
      modifies `nextIn, `availIn, `availOut, `fpos, `eof, `err, `consumed, `produced, `how, `all, `ended, `have, `next
      modifies `direct, `member, `pos, `seek, `past, inBuf, outBuf
      ensures r == -1 || r == c
      ensures r >= 0 ==> Valid() && Noted() && Looked() && !seek && !past && have > 0 && pos + have >= old(pos + have)
      ensures r >= 0 ==> Pushed(c, old(Next()), old(all)) && pos == Landed(old(seek), old(Tell()), |all|) - 1
      ensures r < 0 && c >= 0 ==> Failed()
      ensures r < 0 && c >= 0 && err == DataError && old(err) != DataError && old(!seek && have > 0) ==>
        old(have) == 2 * size
    {
      hide Valid, View, Rest, TornEnd, Noted, Looked, Drop;
      if how == Look && have == 0 {
        var _ := LookHeader();
      }
      if Failed() {
        return -1;
      }
      HasLooked();
      var ok := Settle();
      if !ok || c < 0 {
        return -1;
      }
      r := Push(c);
    }

    /** What is to come is c, and then what was. */
    ghost predicate Pushed(c: byte, v: seq<byte>, before: seq<byte>)
      requires Valid()
      reads `have, `next, `pos, `how, `direct, `eof, `nextIn, `availIn, `fpos, `member, `consumed, `produced, `all
      reads `ended, inBuf, outBuf
    {
      if all == before then View() == [c] + v
      else TornEnd() && all <= before && pos >= -1 && View() == [c] + Drop(all, pos + 1) && View() <= [c] + v
    }

    lemma RoomAhead()
      requires Valid()
      ensures size >= 8 && next + have <= 2 * size == outBuf.Length
    {
    }

    method Push(c: byte) returns (r: int)
      requires Valid() && !seek && Looked()
      modifies `have, `next, `pos, `past, `err, outBuf
      ensures if old(have) == 2 * size then r == -1 && err == DataError && unchanged(`pos)
          else r == c && unchanged(`err)
      ensures r >= 0 ==> Valid() && !past && View() == [c] + old(View()) && pos == old(pos) - 1
      ensures r >= 0 ==> pos + have == old(pos + have)
    {
      hide Valid, View, Rest;
      RoomAhead();
      if have == 0 {
        PushFirst(c);
        past := false;
        return c;
      }
      if have == 2 * size {
        err := DataError;
        return -1;
      }
      if next == 0 {
        SlideUp();
      }
      PushFront(c);
      past := false;
      r := c;
    }

    // Positions.

    /** gzrewind() and gz_reset(): back to the start of the file. */
    method Rewind()
      requires Valid()
      modifies `have, `eof, `past, `how, `seek, `err, `pos, `availIn, `fpos, `all, `ended
      ensures Valid() && Clean() && View() == all == All() && pos == 0 && !seek && err == NoError && have == 0
      ensures how == Look && Noted()
    {
      hide Valid, Clean, View, Content;
      DirectStays();
      fpos := 0;
      have := 0;
      eof := false;
      past := false;
      how := Look;
      seek := false;
      err := NoError;
      pos := 0;
      availIn := 0;
      all, ended := All(), false;
      AtStart();
    }

    lemma DirectStays()
      requires Valid()
      ensures Shape() && nextIn <= size && next <= 2 * size && (!direct ==> Magic(f, 0))
    {
    }

    lemma AtStart()
      requires Shape() && nextIn <= size && next <= 2 * size && (!direct ==> Magic(f, 0))
      requires fpos == availIn == have == pos == 0 && !eof && how == Look && !ended && all == All()
      ensures Valid() && Clean() && View() == all
    {
      hide AfterMember, Plain, MemberEnd;
      if !direct {
        DirectOrNot(f);
      }
    }

    /** A seek in a file that is read as it is: the file itself is positioned. */
    method SeekRaw(off: int)
      requires Valid() && how == Copy && pos + off >= 0
      modifies `have, `eof, `past, `seek, `err, `pos, `availIn, `fpos
      ensures Valid() && View() == Drop(All(), pos) && pos == old(pos) + off && !seek && err == NoError
      ensures Noted() && how == Copy && Restarted(pos, true)
    {
      hide Valid, View, Drop, Content;
      CopyParts();
      fpos := fpos + off - have;
      have := 0;
      eof := false;
      past := false;
      seek := false;
      err := NoError;
      availIn := 0;
      pos := pos + off;
      StillCopying();
    }

    lemma CopyParts()
      requires Valid() && how == Copy
      ensures Shape() && pos + have == fpos && direct && all == f.bytes == All() && nextIn <= size && next <= 2 * size
      ensures !ended && availIn == 0 && pos + have >= 0 && (eof ==> fpos >= |f.bytes|) && Raw(f)
    {
    }

    /** A seek to before the start of the data, when the position is not before that already. */
    predicate Refuses(target: int)
      reads `pos
    {
      target < 0 && target < pos
    }

    /** A seek that starts from the beginning of the data, either of the file itself or by reading on from there. */
    predicate Restarts(target: int)
      reads `pos, `how
    {
      target < pos || (how == Copy && target >= 0)
    }

    /** gzseek64(). Going forward, what is buffered is passed over and the rest left to the next read. Going
        back, and in a file that is read as it is, the position counts from the start of the data; otherwise
        from the next byte, be it one that was pushed back. A refused seek forgets one that was pending. */
    method Seek(offset: int, whence: Whence) returns (r: int)
      requires Valid() && Due() && Noted()
      modifies `have, `next, `eof, `past, `how, `seek, `skip, `err, `pos, `availIn, `fpos, `all, `ended
      ensures Valid() && Due() && Noted() && Failed() == old(Failed())
      ensures old(Failed()) ==> r == -1 && unchanged(this)
      ensures var target := if whence == Set then offset else old(Tell()) + offset;
        && (!old(Failed()) && old(Refuses(target)) ==>
              && r == -1 && !seek && View() == old(View()) && pos == old(pos) && have == old(have)
              && how == old(how) && all == old(all)
              && (Next() == old(Next()) <==> old(!seek || View() == [])))
        && (!old(Failed()) && !old(Refuses(target)) ==>
              && r == target == Tell() && (seek ==> have == 0)
              && Next() ==
                   (if old(Restarts(target)) then Drop(All(), target) else Drop(old(View()), target - old(pos))))
        && (!old(Failed()) && !old(Refuses(target)) && old(Restarts(target)) ==>
              Restarted(target, old(how) == Copy && target >= 0))
        && (!old(Failed()) && !old(Refuses(target)) && !old(Restarts(target)) ==>
              MovedOn(target - old(pos), old(View()), old(pos), old(have)) && how == old(how) && all == old(all))
    {
      hide Valid, View, Rest, Drop, Content, Noted, Clean, Restarted, MovedOn;
      if Failed() {
        return -1;
      }
      DropAfter(View(), skip);
      ViewLength();
      var off := if whence == Set then offset - pos else if seek then offset + skip else offset;
      seek := false;
      if how == Copy && pos + off >= 0 {
        SeekRaw(off);
        r := pos;
      } else if off >= 0 {
        r := SeekForward(off);
      } else if pos + off < 0 {
        r := -1;
      } else {
        r := RewindAndSkip(pos + off);
      }
    }

    method RewindAndSkip(target: nat) returns (r: int)
      requires Valid()
      modifies `have, `next, `eof, `past, `how, `seek, `skip, `err, `pos, `availIn, `fpos, `all, `ended
      ensures Valid() && Due() && Noted() && err == NoError && r == target == Tell() && Restarted(target, false)
      ensures seek ==> have == 0
      ensures Next() == Drop(All(), target)
    {
      hide Valid, View, Rest, Drop, Content;
      Rewind();
      assert View()[0..] == View();
      ViewLength();
      r := SeekForward(target);
    }

    /** After a seek that counts from the start: in the file itself, or with reading to begin anew. */
    ghost predicate Restarted(target: int, raw: bool)
      requires Valid()
      reads `have, `next, `pos, `how, `direct, `eof, `nextIn, `availIn, `fpos, `member, `consumed, `produced, `all
      reads `ended, `seek, inBuf, outBuf
    {
      have == 0 && all == All() && View() == Drop(All(), pos)
          && (if raw then how == Copy && !seek && pos == target else how == Look && pos == 0)
    }

    /** After a seek ahead: the next n of the bytes in the buffer have been passed over. */
    ghost predicate MovedOn(off: int, v: seq<byte>, from: int, had: nat)
      requires Valid()
      reads `have, `next, `pos, `how, `direct, `eof, `nextIn, `availIn, `fpos, `member, `consumed, `produced, `all
      reads `ended, `seek, inBuf, outBuf
    {
      var n := if had > off then off else had;
      0 <= n <= |v| && View() == v[n..] && pos == from + n && have == had - n && (seek <==> n < off)
    }

    lemma DropAfter(v: seq<byte>, n: int)
      ensures n > 0 ==> (Drop(v, n) == v <==> v == [])
    {
    }

    method SeekForward(off: nat) returns (r: int)
      requires Valid() && !seek
      modifies `have, `next, `seek, `skip, `pos
      ensures Valid() && r == old(pos) + off == Tell() && (seek ==> skip > 0 && have == 0)
      ensures Next() == Drop(old(View()), off) && MovedOn(off, old(View()), old(pos), old(have))
      ensures old(pos + have <= |all| || off <= have) ==> Due()
    {
      hide Valid, View, Rest;
      var n := if have > off then off else have;
      ghost var v := View();
      Take(n);
      assert n == 0 ==> v[0..] == v;
      DropTaken(v, n, off);
      if off - n > 0 {
        seek := true;
        skip := off - n;
      }
      r := pos + (off - n);
    }

    lemma DropTaken(v: seq<byte>, n: nat, off: nat)
      requires n <= |v| && n <= off
      ensures Drop(v[n..], off - n) == Drop(v, off)
    {
    }

    /** gzdirect(): looks for a header if that is yet to be done, even while a seek is pending. */
    method IsDirect() returns (d: bool)
      requires Valid() && Due() && Noted()
      modifies `nextIn, `availIn, `fpos, `eof, `err, `how, `direct, `member, `consumed, `produced, `have, `next
      modifies `ended, inBuf, outBuf
      ensures !Failed() ==> Valid() && Due() && Noted() && Looked() && View() == old(View()) && (d <==> !Magic(f, 0))
      ensures !Failed() ==> have >= old(have)
      ensures !Failed() && old(how == Look && have == 0) ==>
        (have > 0 <==> how == Copy) && (how == Copy ==> pos + have <= |all|)
      ensures !Failed() && !old(how == Look && have == 0) ==> have == old(have)
    {
      hide Valid, View, Rest, Noted;
      ghost var ok := true;
      if how == Look && have == 0 {
        ok := LookHeader();
      }
      if ok {
        HasLooked();
        LookedWell();
      }
      d := direct;
    }

    // Lines.

    /** How much of the first `k` buffered bytes is up to and with a newline; all of it if there is none. */
    method FindEol(k: nat) returns (n: nat, found: bool)
      requires 0 < k <= have && next + have <= outBuf.Length
      ensures 0 < n <= k && (found <==> outBuf[next + n - 1] == 10) && (!found ==> n == k)
      ensures forall i :: next <= i < next + n - 1 ==> outBuf[i] != 10
    {
      n := 0;
      while n < k
        invariant 0 <= n <= k
        invariant forall i :: next <= i < next + n ==> outBuf[i] != 10
      {
        n := n + 1;
        if outBuf[next + n - 1] == 10 {
          return n, true;
        }
      }
      found := false;
    }

    /** The next piece of a line from the output buffer. */
    method TakePiece(buf: array<byte>, at: nat, left: nat) returns (n: nat, found: bool)
      requires Valid() && have > 0 && left > 0 && at + left <= buf.Length && buf != inBuf && buf != outBuf
      modifies `have, `next, `pos, buf
      ensures Valid() && 0 < n <= left && n <= |old(View())| && pos == old(pos) + n && View() == old(View())[n..]
      ensures have == old(have) - n
      ensures Written(buf[..], old(buf[..]), at, left, old(View())[..n])
      ensures (found <==> old(View())[n - 1] == 10) && forall i :: 0 <= i < n - 1 ==> old(View())[i] != 10
      ensures found || n == left || have == 0
      ensures TornEnd() == old(TornEnd())
    {
      hide Valid, Rest, TornEnd, Written;
      RoomAhead();
      var k := if have > left then left else have;
      n, found := FindEol(k);
      SameView(n);
      assert forall i :: 0 <= i < n ==> View()[i] == outBuf[next + i];
      ghost var v := View();
      FromBuffer(buf, at, n);
      WrittenWider(buf[..], old(buf[..]), at, n, left, v[..n]);
    }

    lemma WrittenWider(now: seq<byte>, before: seq<byte>, at: nat, n: nat, len: nat, data: seq<byte>)
      requires Written(now, before, at, n, data) && n <= len && at + len <= |now|
      ensures Written(now, before, at, len, data)
    {
      assert now[at + len..] == now[at + n..][len - n..];
    }

    /** No newline among the first n - 1. */
    ghost predicate OneLine(v: seq<byte>, n: nat) {
      n <= |v| && forall i :: 0 <= i < n - 1 ==> v[i] != 10
    }

    lemma LineGrows(v: seq<byte>, n: nat, piece: seq<byte>, k: nat)
      requires OneLine(v, n) && (n > 0 ==> v[n - 1] != 10) && OneLine(piece, k) && piece <= v[n..] && k > 0
      ensures OneLine(v, n + k) && v[n + k - 1] == piece[k - 1]
    {
      forall i | 0 <= i < n + k - 1 ensures v[i] != 10 {
        if i >= n {
          assert v[i] == piece[i - n];
        }
      }
      assert v[n + k - 1] == v[n..][k - 1];
    }

    /** gzgets(): the next bytes up to and with a newline, but at most len - 1 of them, with a zero after
        them. Fewer, without a newline, only at the end; and then an end inside a member is always noted. */
    method Gets(buf: array<byte>, len: nat) returns (ok: bool, n: nat)
      requires Valid() && Due() && Noted() && 1 <= len <= buf.Length && buf != inBuf && buf != outBuf && !Failed()
      modifies `nextIn, `availIn, `availOut, `fpos, `eof, `err, `consumed, `produced, `how, `all, `ended, `have, `next
      modifies `direct, `member, `pos, `seek, `past, inBuf, outBuf, buf
      ensures !ok ==> Failed()
      ensures ok ==> Valid() && Noted() && !seek && n < len && n <= |old(Next())| && Leaves(old(Next())[n..], old(all))
      ensures ok ==> OneLine(old(Next()), n) && buf[..n] == old(Next())[..n] && (n > 0 ==> buf[n] == 0)
      ensures ok && n < len - 1 && (n == 0 || buf[n - 1] != 10) ==>
        View() == [] && past && (how == Gzip ==> TornEnd() && err == BufError)
      ensures ok ==> pos == Landed(old(seek), old(Tell()), |all|) + n && pos + have >= old(pos + have)
      ensures ok ==> if len > 1 || old(seek) then Looked() else how == old(how)
    {
      hide Valid, View, Rest, TornEnd, Written, Noted, Looked, Leaves;
      n := 0;
      ok := Settle();
      if !ok {
        return;
      }
      ViewLength();
      Unread(buf[..], len - 1, old(Next()), old(all));
      ghost var was := buf[..];
      ok, n := GetLine(buf, len - 1, was, old(Next()), old(all));
      if ok {
        ViewLength();
        LineWritten(buf[..], was, len - 1, old(Next()), n);
        if n > 0 {
          buf[n] := 0;
        }
      }
    }

    lemma LineWritten(now: seq<byte>, was: seq<byte>, len: nat, v: seq<byte>, n: nat)
      requires n <= |v| && Written(now, was, 0, len, v[..n])
      ensures n <= |now| && now[..n] == v[..n]
    {
      assert now[..n] == now[0..n];
    }

    /** The loop of gzgets(). */
    method GetLine(buf: array<byte>, len: nat, ghost was: seq<byte>, ghost v: seq<byte>, ghost before: seq<byte>)
      returns (ok: bool, n: nat)
      requires Valid() && Noted() && !seek && len <= buf.Length && buf != inBuf && buf != outBuf && !Failed()
      requires Progress(buf[..], was, len, v, before, 0)
      modifies `nextIn, `availIn, `availOut, `fpos, `eof, `err, `consumed, `produced, `how, `all, `ended, `have, `next
      modifies `direct, `member, `pos, `past, inBuf, outBuf, buf
      ensures !ok ==> Failed()
      ensures ok ==> Valid() && Noted() && Progress(buf[..], was, len, v, before, n) && OneLine(v, n)
      ensures ok ==> pos == old(pos) + n && all <= old(all) && pos + have >= old(pos + have)
      ensures ok && n < len && (n == 0 || v[n - 1] != 10) ==>
        View() == [] && past && (how == Gzip ==> TornEnd() && err == BufError)
      ensures ok && old(View()) == [] ==> n == 0
      ensures ok ==> if len > 0 then Looked() else how == old(how) && direct == old(direct)
    {
      hide Valid, View, Rest, TornEnd, Written, Noted, Looked, Leaves;
      ok, n := true, 0;
      var found := false;
      while n < len && !found
        invariant n <= len && Valid() && Noted() && Progress(buf[..], was, len, v, before, n) && OneLine(v, n)
        invariant pos == old(pos) + n && !Failed() && all <= old(all) && pos + have >= old(pos + have)
        invariant if n > 0 then (found <==> v[n - 1] == 10) && Looked() else !found
        invariant old(View()) == [] ==> n == 0
        invariant n == 0 ==> View() <= old(View()) && how == old(how) && direct == old(direct)
        decreases len - n
      {
        if have == 0 {
          ok := RefillLine(v[n..], before);
          if !ok {
            return;
          }
        }
        if have == 0 {
          past := true;
          return;
        }
        var k;
        HasLooked();
        SameView(have);
        k, found := NextPiece(buf, n, len, was, v, before);
        n := n + k;
      }
    }

    method RefillLine(ghost v: seq<byte>, ghost before: seq<byte>) returns (ok: bool)
      requires Valid() && have == 0 && Noted() && Leaves(v, before) && !Failed()
      modifies `nextIn, `availIn, `availOut, `fpos, `eof, `err, `consumed, `produced, `how, `all, `ended, `have, `next
      modifies `direct, `member, inBuf, outBuf
      ensures !ok ==> Failed()
      ensures ok ==> Valid() && Noted() && Leaves(v, before) && Looked() && all <= old(all) && View() <= old(View())
      ensures ok && have == 0 ==> View() == [] && (how == Gzip ==> TornEnd() && err == BufError)
      ensures ok ==> !Failed()
    {
      hide Valid, View, TornEnd, Noted, Looked, Leaves;
      RoomAhead();
      ok := RefillLeaves(v, before);
    }

    /** A line goes on with what is buffered. */
    method NextPiece(buf: array<byte>, n: nat, len: nat, ghost was: seq<byte>, ghost v: seq<byte>,
        ghost before: seq<byte>) returns (k: nat, found: bool)
      requires Valid() && have > 0 && n < len <= buf.Length && buf != inBuf && buf != outBuf
      requires Progress(buf[..], was, len, v, before, n) && OneLine(v, n) && (n > 0 ==> v[n - 1] != 10)
      modifies `have, `next, `pos, buf
      ensures Valid() && 0 < k <= len - n && Progress(buf[..], was, len, v, before, n + k) && OneLine(v, n + k)
      ensures (found <==> v[n + k - 1] == 10) && pos == old(pos) + k && have == old(have) - k
    {
      hide Valid, View, Rest, TornEnd, Written;
      ghost var now, from := buf[..], View();
      k, found := TakePiece(buf, n, len - n);
      StepOn(buf[..], now, was, len, v, n, len - n, k, from);
      LineGrows(v, n, from, k);
      PrefixSlice(from, v[n..], k);
      assert v[n..][k..] == v[n + k..];
    }
  }

  // Places where what the code does is not what its documentation says.

  /** A reader at the start of a file, as after opening it. */
  ghost predicate AtStart(r: Reader)
    reads r, r.inBuf, r.outBuf
  {
    && r.Valid() && r.how == Look && r.have == 0 && r.pos == 0 && !r.seek && r.err == NoError
    && r.all == r.View() == r.All()
  }

  /** In a file that is not cut off nothing is lost. */
  lemma NothingTorn(r: Reader)
    requires r.Valid() && Unbroken(r.f, 0)
    ensures r.all == r.All() && !r.TornEnd()
  {
  }

  /** A pending seek is forgotten about by gzgetc() if gzdirect() has filled the buffer in between: after
      seeking to the third byte of an uncompressed file, the first is returned. */
  method DirectSpoilsSeek(r: Reader) returns (c: int)
    requires AtStart(r) && r.f.bytes == [10, 20, 30] == r.All()
    modifies r, r.inBuf, r.outBuf
    ensures c == 10 || r.Failed()
  {
    hide Reader.Valid, Reader.View, Reader.Rest;
    var at := r.Seek(2, Set);
    assert at == 2 && r.Tell() == 2 && r.View() == [10, 20, 30];
    var d := r.IsDirect();
    if r.Failed() {
      return -1;
    }
    r.LookedWell();
    c := r.GetC();
  }

  /** A refused seek makes a pending one forgotten: after seeking to the third byte, and then to before the
      start in vain, the first byte is returned. */
  method RefusedSeekForgets(r: Reader) returns (c: int)
    requires AtStart(r) && r.All() == [10, 20, 30] && Unbroken(r.f, 0)
    modifies r, r.inBuf, r.outBuf
    ensures c == 10 || r.Failed()
  {
    hide Reader.Valid, Reader.View, Reader.Rest;
    var at := r.Seek(2, Set);
    assert at == 2 && r.Next() == [30];
    at := r.Seek(-1, Set);
    assert at == -1 && r.Next() == [10, 20, 30];
    c := r.GetC();
    if !r.Failed() {
      NothingTorn(r);
    }
  }

  /** A byte pushed back outlives a seek: in a compressed file of two bytes, after reading the first, pushing
      back 99 and seeking to the start, 99 is returned, and then the second byte. */
  method PushedOutlivesSeek(r: Reader) returns (c: int)
    requires AtStart(r) && r.All() == [10, 20] && Magic(r.f, 0) && Unbroken(r.f, 0)
    modifies r, r.inBuf, r.outBuf
    ensures !r.Failed() ==> c == 99 && r.Valid() && r.View() == [20]
  {
    hide Reader.Valid, Reader.View, Reader.Rest, Reader.TornEnd, Reader.All, Drop;
    c := ReadOne(r);
    if r.Failed() {
      return;
    }
    c := r.UngetC(99);
    if r.Failed() {
      return;
    }
    NothingTorn(r);
    assert r.View() == [99, 20] && r.pos == 0;
    r.LookedWell();
    var at := r.Seek(0, Set);
    assert r.View() == [99, 20][0..];
    c := r.GetC();
  }

  method ReadOne(r: Reader) returns (c: int)
    requires AtStart(r) && r.All() == [10, 20] && Unbroken(r.f, 0)
    modifies r, r.inBuf, r.outBuf
    ensures !r.Failed() ==> r.Valid() && r.Due() && r.Noted() && !r.seek && r.pos == 1 && r.View() == [20]
    ensures !r.Failed() ==> r.All() == [10, 20] == r.all
  {
    hide Reader.Valid, Reader.View, Reader.Rest, Reader.TornEnd;
    c := r.GetC();
    if !r.Failed() {
      NothingTorn(r);
    }
  }

  /** A file that ends inside its member. */
  function CutFile(): File {
    File([31, 139, 8], _ => seq(17, _ => 0), _ => None)
  }

  /** With an output buffer of sixteen bytes, the inflater may use up all of this file just as it fills the
      buffer, and hold back a byte. Then no end is noted, neither by the read that returns the sixteen bytes nor
      by the next, which returns none. */
  lemma MayEndUnnoticed()
    ensures var f := CutFile();
      && Magic(f, 0) && MemberEnd(f, 0) == None && |Plain(f, 0)| == 17
      && InflateStep(f, 0, 0, 0, 3, 16, 3, 16) && !Ends(f, 0, 3, 16)
  {
  }

  /** The end of a file inside a member goes unnoticed if the room was used up with the input, even though
      there is more to come out of the inflater. */
  method EndsUnnoticed(r: Reader) returns (got: nat)
    requires r.Valid() && r.Due() && r.Noted() && !r.seek && r.have == 0 && r.Spent() && r.availOut == 0
    requires !r.Failed() && r.produced < |Plain(r.f, r.member)|
    modifies r, r.inBuf, r.outBuf
    ensures got == 0 && r.TornEnd() && r.err == NoError
  {
    hide Reader.Valid, Reader.View, Reader.Rest, Reader.TornEnd, Written, Reader.Leaves;
    var buf := new byte[1];
    var ok;
    ok, got := r.ReadBytes(buf, 1);
  }
}
