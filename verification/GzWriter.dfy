/** gzwrite.c and the writing side of gzlib.c: input is gathered in a buffer and passed to the compressor, or
    straight to the file; forward seeks become zeros. */
module GzWriter {
  import opened Bits

  datatype Flush = NoFlush | Flushing | Finish
  datatype Err = NoError | WriteError

  function Zeros(n: nat): (z: seq<byte>)
    ensures |z| == n && forall i :: 0 <= i < n ==> z[i] == 0
  {
    seq(n, _ => 0)
  }

  function Flatten(parts: seq<seq<byte>>): seq<byte> {
    if |parts| == 0 then [] else Flatten(parts[..|parts| - 1]) + parts[|parts| - 1]
  }

  class Writer {
    const size: nat
    const direct: bool
    const inBuf: array<byte>
    const outBuf: array<byte>

    var pos: nat
    var seek: bool
    var skip: int
    var err: Err
    var reset: bool

    // The input of the compressor: in the buffer, or in that of a caller.
    var src: array<byte>
    var nextIn: nat
    var availIn: nat

    // Its output, from x.next to next_out not yet written; and what the file has received.
    var next: nat
    var nextOut: nat
    var file: seq<byte>

    // How much output the compressor still owes for what it has taken in and been asked to flush.
    var debt: nat

    // All bytes written by callers, with the zeros of seeks; those passed on, by gzip member; and all output.
    ghost var written: seq<byte>
    ghost var members: seq<seq<byte>>
    ghost var current: seq<byte>
    ghost var output: seq<byte>

    ghost predicate Shape() {
      size >= 8 && inBuf.Length == 2 * size && outBuf.Length == size && inBuf != outBuf
    }

    /** What has been passed on to the compressor, or written directly. */
    ghost function Fed(): seq<byte>
      reads `members, `current
    {
      Flatten(members) + current
    }

    ghost function Buffered(): seq<byte>
      requires nextIn + availIn <= src.Length
      reads `src, `nextIn, `availIn, src
    {
      src[nextIn..nextIn + availIn]
    }

    /** The output produced is what the file has received and what is left in the output buffer. */
    ghost predicate OutputHolds()
      reads `next, `nextOut, `file, `output, `current, `members, outBuf
    {
      next <= nextOut <= outBuf.Length && file + outBuf[next..nextOut] == (if direct then Fed() else output)
      && (direct ==> next == nextOut)
    }

    /** A finished member is followed by nothing until there is more to write. */
    ghost predicate Stream()
      reads `reset, `current, `debt, `next, `nextOut
    {
      reset ==> !direct && current == [] && debt == 0 && next == nextOut
    }

    /** Between calls: whatever is buffered is at the start of the buffer, and at most a buffer full; with
        what was passed on before it is all that was written. */
    ghost predicate Valid()
      reads `next, `nextOut, `file, `output, `current, `members, `reset, `debt, `err, `nextIn, `availIn, `src
      reads `written, `pos, outBuf, src
    {
      && Ready() && availIn <= size && (availIn > 0 ==> src == inBuf && nextIn == 0)
      && written == Fed() + Buffered() && pos == |written|
    }

    /** All that has been written, with a pending seek carried out. */
    ghost function Total(): seq<byte>
      reads `written, `seek, `skip
    {
      written + if seek && skip > 0 then Zeros(skip) else []
    }

    /** gz_open() for writing, and gz_init(). */
    constructor (size: nat, direct: bool)
      requires size >= 8
      ensures Valid() && Total() == [] && !seek && file == [] && this.size == size && this.direct == direct
      ensures fresh(inBuf) && fresh(outBuf)
    {
      this.size, this.direct := size, direct;
      var buf := new byte[2 * size];
      inBuf := buf;
      outBuf := new byte[size];
      pos, seek, skip, err, reset := 0, false, 0, NoError, false;
      src, nextIn, availIn, next, nextOut, file, debt := buf, 0, 0, 0, 0, [], 0;
      written, members, current, output := [], [], [], [];
    }

    /** write(): some of the bytes, at least one, or an error. */
    method WriteFd(data: array<byte>, at: nat, n: nat) returns (writ: int)
      requires 0 < n && at + n <= data.Length
      modifies `file
      ensures writ <= n && if writ <= 0 then writ == -1 && file == old(file)
          else file == old(file) + data[at..at + writ]
    {
      if * {
        return -1;
      }
      var k :| 1 <= k <= n;
      file := file + data[at..at + k];
      writ := k;
    }

    /** One write() of uncompressed data. */
    method PassDirectly() returns (ok: bool)
      requires Shape() && OutputHolds() && Stream() && direct && nextIn + availIn <= src.Length && availIn > 0
      modifies `err, `file, `nextIn, `availIn, `current
      ensures ok ==>
        OutputHolds() && Stream() && nextIn + availIn <= src.Length && availIn < old(availIn) && err == old(err)
      ensures ok ==> Fed() + Buffered() == old(Fed() + Buffered())
      ensures !ok ==> err == WriteError
    {
      hide Flatten, Fed;
      var put := if availIn > 0x4000_0000 then 0x4000_0000 else availIn;
      var writ := WriteFd(src, nextIn, put);
      if writ < 0 {
        err := WriteError;
        return false;
      }
      TakeIn(writ);
      ok := true;
    }

    lemma Moved(a: seq<byte>, b: seq<byte>, c: seq<byte>, d: seq<byte>)
      ensures a + b + (c + d) == a + (b + c) + d && a + b + c == a + (b + c)
    {
    }

    /** Writing without compression. */
    method CompDirect() returns (ok: bool)
      requires Shape() && OutputHolds() && Stream() && direct && nextIn + availIn <= src.Length
      modifies `err, `file, `nextIn, `availIn, `current
      ensures ok ==> OutputHolds() && Stream() && availIn == 0 && nextIn <= src.Length
      ensures ok ==> Fed() == old(Fed() + Buffered()) && err == old(err)
      ensures !ok ==> err == WriteError
    {
      hide OutputHolds, Stream, Fed;
      while availIn > 0
        invariant OutputHolds() && Stream() && nextIn + availIn <= src.Length
        invariant Fed() + Buffered() == old(Fed() + Buffered()) && err == old(err)
        decreases availIn
      {
        ok := PassDirectly();
        if !ok {
          return;
        }
      }
      assert Buffered() == [];
      ok := true;
    }

    // With compression.

    /** Writing out what the compressor has produced. */
    method WriteOut() returns (ok: bool)
      requires Shape() && OutputHolds() && !direct
      modifies `err, `file, `next
      ensures ok ==> OutputHolds() && next == nextOut && err == old(err)
      ensures !ok ==> err == WriteError
    {
      while nextOut > next
        invariant OutputHolds() && err == old(err)
        decreases nextOut - next
      {
        var put := if nextOut - next > 0x4000_0000 then 0x4000_0000 else nextOut - next;
        var writ := WriteFd(outBuf, next, put);
        if writ < 0 {
          err := WriteError;
          return false;
        }
        assert outBuf[next..nextOut] == outBuf[next..next + writ] + outBuf[next + writ..nextOut];
        next := next + writ;
      }
      ok := true;
    }

    /** deflate(): takes in some of the input and produces some output, at least something if it owes any and
        there is room. It stops for lack of room, or when it has taken in everything and owes nothing more. */
    method Deflate() returns (done: bool)
      requires Shape() && OutputHolds() && !direct && nextIn + availIn <= src.Length && src != outBuf
      modifies `nextIn, `availIn, `nextOut, `debt, `current, `output, outBuf
      ensures OutputHolds() && nextIn + availIn <= src.Length && Fed() + Buffered() == old(Fed() + Buffered())
      ensures nextOut >= old(nextOut) && availIn <= old(availIn) && next == old(next)
      ensures nextOut < size ==> availIn == 0 && debt == 0
      ensures availIn == old(availIn) ==> debt + nextOut == old(debt + nextOut)
      ensures done <==> availIn == 0 && debt == 0
      ensures old(debt > 0 && nextOut < size) ==> nextOut > old(nextOut)
    {
      hide Stream, Fed, Flatten;
      var room := size - nextOut;
      var k: nat, o: nat := *, *;
      if k > availIn || (k == 0 && debt < room) {
        k := availIn;
      }
      if o > room {
        o := room;
      }
      var owed: nat := *;
      if k == 0 {
        o := if debt < room then debt else room;
        owed := debt - o;
      } else {
        if o == 0 && room > 0 {
          o := 1;
        }
        if o < room {
          k := availIn;
          owed := 0;
        }
      }
      Produce(o);
      TakeIn(k);
      debt := owed;
      done := availIn == 0 && debt == 0;
    }

    method Produce(o: nat)
      requires Shape() && OutputHolds() && !direct && nextOut + o <= size
      modifies `nextOut, `output, outBuf
      ensures OutputHolds() && nextOut == old(nextOut) + o
    {
      hide Fed;
      AnyBytes(nextOut, o);
      assert outBuf[next..nextOut] == outBuf[..nextOut][next..];
      output := output + outBuf[nextOut..nextOut + o];
      assert outBuf[next..nextOut + o] == outBuf[next..nextOut] + outBuf[nextOut..nextOut + o];
      nextOut := nextOut + o;
    }

    method AnyBytes(at: nat, n: nat)
      requires at + n <= outBuf.Length
      modifies outBuf
      ensures outBuf[..at] == old(outBuf[..at])
    {
      for i := 0 to n
        invariant outBuf[..at] == old(outBuf[..at])
      {
        outBuf[at + i] := *;
      }
    }

    method TakeIn(k: nat)
      requires nextIn + availIn <= src.Length && k <= availIn
      modifies `nextIn, `availIn, `current
      ensures nextIn + availIn <= src.Length && availIn == old(availIn) - k
      ensures Fed() + Buffered() == old(Fed() + Buffered())
      ensures nextIn == old(nextIn) + k && Fed() == old(Fed()) + src[old(nextIn)..nextIn]
    {
      hide Flatten;
      ghost var part, rest := src[nextIn..nextIn + k], src[nextIn + k..nextIn + availIn];
      assert Buffered() == part + rest;
      Moved(Flatten(members), current, part, rest);
      current := current + part;
      nextIn := nextIn + k;
      availIn := availIn - k;
    }

    /** The loop of gz_comp(), until nothing more comes out. When flushing everything has been written by
        then; when finishing, from the moment the stream has ended. */
    method CompLoop(flush: Flush) returns (ok: bool)
      requires Shape() && OutputHolds() && !direct && nextIn + availIn <= src.Length && src != outBuf && !reset
      requires flush == Finish ==> debt > 0
      modifies `err, `file, `next, `nextIn, `availIn, `nextOut, `debt, `current, `output, outBuf
      ensures ok ==> OutputHolds() && nextIn <= src.Length && availIn == 0 && debt == 0 && err == old(err)
      ensures ok ==> Fed() == old(Fed() + Buffered()) && (flush != NoFlush ==> next == nextOut)
      ensures !ok ==> err == WriteError
    {
      hide OutputHolds, Fed;
      var end, first := false, true;
      Bounds();
      while true
        invariant OutputHolds() && next <= nextOut <= size && nextIn + availIn <= src.Length && err == old(err)
        invariant Fed() + Buffered() == old(Fed() + Buffered())
        invariant first && flush == Finish ==> debt > 0
        invariant !first && nextOut < size ==> availIn == 0 && debt == 0
        invariant end <==> !first && flush == Finish && availIn == 0 && debt == 0
        decreases availIn, debt, first
      {
        if nextOut == size || (flush != NoFlush && (flush != Finish || end)) {
          ok := WriteOut();
          if !ok {
            return;
          }
          if nextOut == size {
            EmptyOut();
          }
        }
        Bounds();
        var have := nextOut;
        var done := Deflate();
        Bounds();
        end := flush == Finish && done;
        first := false;
        if nextOut == have {
          break;
        }
      }
      assert Buffered() == [];
      ok := true;
    }

    lemma Bounds()
      requires OutputHolds()
      ensures next <= nextOut <= outBuf.Length
    {
    }

    /** The output buffer is written and starts afresh. */
    method EmptyOut()
      requires OutputHolds() && !direct && next == nextOut
      modifies `next, `nextOut
      ensures OutputHolds() && next == nextOut == 0
    {
      next, nextOut := 0, 0;
      assert outBuf[0..0] == [];
    }

    /** What gz_comp() is called with: input anywhere but in the output buffer. */
    ghost predicate Ready()
      reads `next, `nextOut, `file, `output, `current, `members, `reset, `debt, `err, `nextIn, `availIn, `src, outBuf
    {
      Shape() && OutputHolds() && Stream() && err == NoError && nextIn + availIn <= src.Length && src != outBuf
    }

    /** gz_comp(): all input is passed on. With a flush the file receives everything; finishing ends a gzip
        member, and the next begins only when there is more to write. */
    method Comp(flush: Flush) returns (ok: bool)
      requires Ready()
      modifies `err, `file, `next, `nextIn, `availIn, `nextOut, `debt, `current, `output, `members, `reset, outBuf
      ensures ok ==> Ready() && availIn == 0 && Fed() == old(Fed() + Buffered())
      ensures ok && flush != NoFlush ==> next == nextOut
      ensures ok ==> if flush == Finish && !direct then reset
          else reset == (old(reset) && (direct || old(availIn) == 0))
      ensures ok && old(reset) && old(availIn) == 0 ==>
        members == old(members) && next == old(next) && nextOut == old(nextOut)
      ensures !ok ==> err == WriteError
    {
      hide OutputHolds, Fed;
      if direct {
        ok := CompDirect();
        DirectOut();
        return;
      }
      if reset {
        if availIn == 0 {
          assert Buffered() == [];
          return true;
        }
        reset := false;
      }
      Owe(flush);
      ok := CompLoop(flush);
      if ok && flush == Finish {
        EndMember();
      }
    }

    lemma DirectOut()
      ensures direct && OutputHolds() ==> next == nextOut
    {
    }

    /** A flush makes the compressor owe some more output; finishing, a trailer at least. */
    method Owe(flush: Flush)
      modifies `debt
      ensures flush == Finish ==> debt > 0
    {
      var owed: nat := *;
      if owed < debt || (flush == Finish && owed == 0) {
        owed := debt + 1;
      }
      debt := owed;
    }

    method EndMember()
      requires OutputHolds() && !direct && debt == 0 && next == nextOut
      modifies `members, `current, `reset
      ensures OutputHolds() && Stream() && reset && Fed() == old(Fed()) && members == old(members) + [old(current)]
      ensures current == []
    {
      assert (members + [current])[..|members|] == members;
      members := members + [current];
      current := [];
      reset := true;
    }

    /** Zeros for a forward seek, a buffer full at a time. */
    method Zero(len: nat) returns (ok: bool)
      requires Valid()
      modifies `err, `file, `next, `nextIn, `availIn, `nextOut, `debt, `current, `output, `members, `reset, `src, `pos
      modifies `written, inBuf, outBuf
      ensures ok ==> Valid() && availIn == 0 && written == old(written) + Zeros(len)
      ensures !ok ==> err == WriteError
    {
      hide OutputHolds, Fed, Stream;
      ok := true;
      if availIn > 0 {
        ok := Drain();
        if !ok {
          return;
        }
      }
      var left, first := len, true;
      assert written == old(written) + Zeros(0);
      while left > 0
        invariant 0 <= left <= len && Valid() && availIn == 0 && written == old(written) + Zeros(len - left)
        invariant !first ==> forall i :: 0 <= i < size && i < left ==> inBuf[i] == 0
      {
        var n := if size > left then left else size;
        if first {
          ClearInput(n);
          first := false;
        }
        assert inBuf[0..n] == Zeros(n);
        ok := PassOn(inBuf, 0, n);
        if !ok {
          return;
        }
        assert Zeros(len - left) + Zeros(n) == Zeros(len - (left - n));
        left := left - n;
      }
    }

    /** Whatever is buffered is passed on. */
    method Drain() returns (ok: bool)
      requires Valid()
      modifies `err, `file, `next, `nextIn, `availIn, `nextOut, `debt, `current, `output, `members, `reset, outBuf
      ensures ok ==> Valid() && availIn == 0
      ensures !ok ==> err == WriteError
    {
      hide OutputHolds, Stream, Fed;
      ok := Comp(NoFlush);
      if ok {
        assert Buffered() == [];
      }
    }

    method ClearInput(n: nat)
      requires Valid() && availIn == 0 && n <= inBuf.Length
      modifies inBuf
      ensures Valid() && forall i :: 0 <= i < n ==> inBuf[i] == 0
    {
      hide Fed;
      forall i | 0 <= i < n {
        inBuf[i] := 0;
      }
      assert Buffered() == [];
    }

    /** Bytes at the start of a buffer are taken as written and passed on at once. */
    method PassOn(from: array<byte>, at: nat, n: nat) returns (ok: bool)
      requires Valid() && availIn == 0 && at + n <= from.Length && from != outBuf
      modifies `err, `file, `next, `nextIn, `availIn, `nextOut, `debt, `current, `output, `members, `reset, `src, `pos
      modifies `written, outBuf
      ensures ok ==> Valid() && availIn == 0 && written == old(written) + from[at..at + n]
      ensures !ok ==> err == WriteError
    {
      hide OutputHolds, Stream, Fed;
      assert Buffered() == [];
      availIn := n;
      src := from;
      nextIn := at;
      pos := pos + n;
      written := written + from[at..at + n];
      ok := Comp(NoFlush);
      if ok {
        assert Buffered() == [];
      }
    }

    /** A pending seek becomes zeros. */
    method Settle() returns (ok: bool)
      requires Valid() && (seek ==> skip >= 0)
      modifies `err, `file, `next, `nextIn, `availIn, `nextOut, `debt, `current, `output, `members, `reset, `src, `pos
      modifies `written, `seek, inBuf, outBuf
      ensures ok ==> Valid() && !seek && written == old(Total())
      ensures !ok ==> err == WriteError
    {
      hide Valid;
      ok := true;
      if seek {
        seek := false;
        assert Zeros(0) == [];
        ok := Zero(skip);
      }
    }

    /** As much as fits goes into the input buffer, behind what is there. */
    method Gather(buf: array<byte>, at: nat, n: nat) returns (copy: nat)
      requires Valid() && at + n <= buf.Length && buf != inBuf && buf != outBuf
      modifies `nextIn, `availIn, `src, `pos, `written, inBuf
      ensures Valid() && copy <= n && written == old(written) + buf[at..at + copy]
      ensures copy < n ==> availIn == size
      ensures old(availIn) == 0 && n > 0 ==> copy > 0
    {
      hide Valid;
      AtFront();
      FullBuffer();
      copy := size - (nextIn + availIn);
      if copy > n {
        copy := n;
      }
      Append(buf, at, copy);
    }

    /** An empty buffer is filled from the front. */
    method AtFront()
      requires Valid()
      modifies `nextIn, `src
      ensures Valid() && src == inBuf && nextIn == 0 && availIn <= size
    {
      hide OutputHolds, Stream, Fed;
      if availIn == 0 {
        assert Buffered() == [];
        src, nextIn := inBuf, 0;
        assert Buffered() == [];
      }
    }

    method Append(buf: array<byte>, at: nat, copy: nat)
      requires Valid() && src == inBuf && nextIn == 0 && availIn + copy <= size && at + copy <= buf.Length
      requires buf != inBuf
      modifies `availIn, `pos, `written, inBuf
      ensures Valid() && written == old(written) + buf[at..at + copy] && availIn == old(availIn) + copy
    {
      hide OutputHolds, Stream, Fed;
      GatherJoin(Fed(), Buffered(), buf[at..at + copy]);
      CopyIn(buf, at, copy);
      availIn := availIn + copy;
      pos := pos + copy;
      written := written + buf[at..at + copy];
    }

    method CopyIn(buf: array<byte>, at: nat, copy: nat)
      requires Shape() && nextIn == 0 && availIn + copy <= size && src == inBuf && at + copy <= buf.Length
      requires buf != inBuf
      modifies inBuf
      ensures inBuf[0..availIn + copy] == old(Buffered()) + buf[at..at + copy]
    {
      forall i | 0 <= i < copy {
        inBuf[availIn + i] := buf[at + i];
      }
      assert inBuf[0..availIn] == old(inBuf[0..availIn]);
      assert inBuf[availIn..availIn + copy] == buf[at..at + copy];
    }

    lemma GatherJoin(a: seq<byte>, b: seq<byte>, c: seq<byte>)
      ensures a + b + c == a + (b + c)
    {
    }

    lemma Slices(buf: array<byte>, n: nat, k: nat)
      requires n + k <= buf.Length
      ensures buf[0..n] + buf[n..n + k] == buf[0..n + k]
    {
    }

    /** Small writes are gathered until the buffer is full. */
    method WriteSmall(buf: array<byte>, len: nat) returns (ok: bool)
      requires Valid() && 0 < len < size && len <= buf.Length && buf != inBuf && buf != outBuf
      modifies `err, `file, `next, `nextIn, `availIn, `nextOut, `debt, `current, `output, `members, `reset, `src, `pos
      modifies `written, inBuf, outBuf
      ensures ok ==> Valid() && written == old(written) + buf[0..len]
      ensures !ok ==> err == WriteError
    {
      hide Valid;
      var done: nat := 0;
      while done < len
        invariant done <= len && Valid() && written == old(written) + buf[0..done] && buf[..] == old(buf[..])
        decreases len - done, availIn
      {
        var copy := Gather(buf, done, len - done);
        Slices(buf, done, copy);
        done := done + copy;
        if done < len {
          FullBuffer();
          ok := Drain();
          if !ok {
            return;
          }
        }
      }
      ok := true;
    }

    lemma FullBuffer()
      requires Valid()
      ensures size >= 8
    {
    }

    /** Large writes go to the compressor straight from the caller's buffer. */
    method WriteLarge(buf: array<byte>, len: nat) returns (ok: bool)
      requires Valid() && len > 0 && len <= buf.Length && buf != inBuf && buf != outBuf
      modifies `err, `file, `next, `nextIn, `availIn, `nextOut, `debt, `current, `output, `members, `reset, `src, `pos
      modifies `written, inBuf, outBuf
      ensures ok ==> Valid() && written == old(written) + buf[0..len]
      ensures !ok ==> err == WriteError
    {
      hide Valid;
      ok := true;
      if availIn > 0 {
        ok := Drain();
        if !ok {
          return;
        }
      }
      var done: nat := 0;
      while done < len
        invariant done <= len && Valid() && availIn == 0 && written == old(written) + buf[0..done]
      {
        var n := if len - done > 0xffff_ffff then 0xffff_ffff else len - done;
        ok := PassOn(buf, done, n);
        if !ok {
          return;
        }
        Slices(buf, done, n);
        done := done + n;
      }
    }

    /** gz_write(): all of the data, after the zeros of a pending seek. */
    method Write(buf: array<byte>, len: nat) returns (put: nat)
      requires Valid() && (seek ==> skip >= 0) && len <= buf.Length && buf != inBuf && buf != outBuf
      modifies `err, `file, `next, `nextIn, `availIn, `nextOut, `debt, `current, `output, `members, `reset, `src, `pos
      modifies `written, `seek, inBuf, outBuf
      ensures put == 0 || put == len
      ensures put == len && len > 0 ==> Valid() && !seek && written == old(Total()) + buf[0..len]
      ensures put == 0 && len > 0 ==> err == WriteError
      ensures len == 0 ==> Valid() && Total() == old(Total())
    {
      hide Valid;
      if len == 0 {
        return 0;
      }
      var ok := Settle();
      if !ok {
        return 0;
      }
      if len < size {
        ok := WriteSmall(buf, len);
      } else {
        ok := WriteLarge(buf, len);
      }
      put := if ok then len else 0;
    }

    /** gzputc(): into the input buffer if there is room. */
    method PutC(c: byte) returns (r: int)
      requires Valid() && (seek ==> skip >= 0)
      modifies `err, `file, `next, `nextIn, `availIn, `nextOut, `debt, `current, `output, `members, `reset, `src, `pos
      modifies `written, `seek, inBuf, outBuf
      ensures r == c || r == -1
      ensures if r == -1 then err == WriteError else Valid() && !seek && written == old(Total()) + [c]
    {
      hide Valid;
      var ok := Settle();
      if !ok {
        return -1;
      }
      var fast := PutFast(c);
      if fast {
        return c;
      }
      var buf := new byte[1];
      buf[0] := c;
      assert buf[0..1] == [c];
      var put := Write(buf, 1);
      r := if put != 1 then -1 else c;
    }

    method PutFast(c: byte) returns (fast: bool)
      requires Valid()
      modifies `nextIn, `availIn, `src, `pos, `written, inBuf
      ensures Valid() && written == if fast then old(written) + [c] else old(written)
    {
      hide OutputHolds, Stream, Fed;
      AtFront();
      var have := nextIn + availIn;
      fast := have < size;
      if fast {
        GatherJoin(Fed(), Buffered(), [c]);
        inBuf[have] := c;
        assert inBuf[0..availIn + 1] == old(inBuf[0..availIn]) + [c];
        availIn := availIn + 1;
        pos := pos + 1;
        written := written + [c];
      }
    }

    /** gzflush(): with a flush everything written so far, and the zeros of a pending seek, has reached the file. */
    method FlushAll(flush: Flush) returns (ok: bool)
      requires Valid() && (seek ==> skip >= 0)
      modifies `err, `file, `next, `nextIn, `availIn, `nextOut, `debt, `current, `output, `members, `reset, `src, `pos
      modifies `written, `seek, inBuf, outBuf
      ensures if ok then Valid() && !seek && availIn == 0 && written == old(Total()) == Fed()
          && (flush != NoFlush ==> next == nextOut) else err == WriteError
    {
      hide OutputHolds, Stream, Fed;
      ok := Settle();
      if !ok {
        return;
      }
      ok := Comp(flush);
      if ok {
        assert Buffered() == [];
      }
    }

    /** gzvprintf() with the text it has formatted, which must fit in a buffer with its terminating zero. */
    method Printf(text: seq<byte>) returns (len: int)
      requires Valid() && (seek ==> skip >= 0)
      modifies `err, `file, `next, `nextIn, `availIn, `nextOut, `debt, `current, `output, `members, `reset, `src, `pos
      modifies `written, `seek, inBuf, outBuf
      ensures len < 0 ==> err == WriteError
      ensures len >= 0 ==> Valid() && !seek && len == if |text| < size then |text| else 0
      ensures len >= 0 ==> written == old(Total()) + if |text| < size then text else []
    {
      hide Valid;
      var ok := Settle();
      if !ok {
        return -1;
      }
      Print(text);
      if |text| == 0 || |text| >= size {
        assert |text| == 0 ==> text == [];
        return 0;
      }
      Count(text);
      len := |text|;
      if availIn >= size {
        ok := SplitHalves();
        if !ok {
          return -1;
        }
      } else {
        NotFull();
      }
    }

    /** The buffer, which has twice the size for this, may be filled past its half for a moment. */
    ghost predicate Overfull()
      reads `next, `nextOut, `file, `output, `current, `members, `reset, `debt, `err, `nextIn, `availIn, `src
      reads `written, `pos, outBuf, src
    {
      Ready() && availIn < 2 * size && src == inBuf && nextIn == 0 && written == Fed() + Buffered() && pos == |written|
    }

    lemma NotFull()
      requires Overfull() && availIn < size
      ensures Valid()
    {
    }

    /** vsnprintf() behind what is buffered. */
    method Print(text: seq<byte>)
      requires Valid()
      modifies `nextIn, `src, inBuf
      ensures Valid() && src == inBuf && nextIn == 0
      ensures |text| < size ==> inBuf[availIn..availIn + |text|] == text
    {
      hide OutputHolds, Stream, Fed;
      AtFront();
      var n := if |text| < size then |text| else size - 1;
      ghost var data := Buffered();
      forall i | 0 <= i <= n {
        inBuf[availIn + i] := if i < n then text[i] else 0;
      }
      assert inBuf[0..availIn] == data;
    }

    method Count(text: seq<byte>)
      requires Valid() && src == inBuf && nextIn == 0 && 0 < |text| < size && inBuf[availIn..availIn + |text|] == text
      modifies `availIn, `pos, `written
      ensures Overfull() && written == old(written) + text
    {
      hide OutputHolds, Stream, Fed;
      GatherJoin(Fed(), Buffered(), text);
      assert inBuf[0..availIn + |text|] == inBuf[0..availIn] + text;
      availIn := availIn + |text|;
      pos := pos + |text|;
      written := written + text;
    }

    /** The first half of an overfull buffer is passed on, and the rest moved down. */
    method SplitHalves() returns (ok: bool)
      requires Overfull() && availIn >= size
      modifies `err, `file, `next, `nextIn, `availIn, `nextOut, `debt, `current, `output, `members, `reset, inBuf
      modifies outBuf
      ensures ok ==> Valid() && availIn == old(availIn) - size
      ensures !ok ==> err == WriteError
    {
      hide Ready, Overfull, Valid, Fed;
      var left := availIn - size;
      ok := PassHalf(left);
      if ok {
        MoveDown(left);
        Rest(left);
      }
    }

    /** The first half of the buffer is passed on. */
    method PassHalf(left: nat) returns (ok: bool)
      requires Overfull() && availIn == size + left
      modifies `err, `file, `next, `nextIn, `availIn, `nextOut, `debt, `current, `output, `members, `reset, outBuf
      ensures ok ==> Ready() && availIn == 0 && left <= size && written == Fed() + inBuf[size..size + left]
      ensures ok ==> src == inBuf && pos == |written|
      ensures !ok ==> err == WriteError
    {
      hide OutputHolds, Stream, Fed;
      ghost var first, second := inBuf[0..size], inBuf[size..size + left];
      assert Buffered() == first + second;
      GatherJoin(Fed(), first, second);
      availIn := size;
      ok := Comp(NoFlush);
    }

    /** The second half becomes the buffered input. */
    method Rest(left: nat)
      requires Ready() && availIn == 0 && left <= size && src == inBuf && written == Fed() + inBuf[0..left]
      requires pos == |written|
      modifies `nextIn, `availIn
      ensures Valid() && availIn == left
    {
      hide OutputHolds, Stream, Fed;
      nextIn := 0;
      availIn := left;
    }

    method MoveDown(left: nat)
      requires Ready() && left <= size
      modifies inBuf
      ensures Ready() && left <= inBuf.Length - size && inBuf[0..left] == old(inBuf[size..size + left])
    {
      hide OutputHolds, Stream, Fed;
      forall i | 0 <= i < left {
        inBuf[i] := inBuf[size + i];
      }
    }

    // Positions.

    /** gztell64() when writing. */
    function Tell(): int
      reads `pos, `seek, `skip
    {
      pos + if seek then skip else 0
    }

    /** gzseek64() when writing: forward only, and nothing is written until something follows. A refused seek
        forgets one that was pending. */
    method SeekTo(offset: int, absolute: bool) returns (r: int)
      requires Valid() && (seek ==> skip >= 0)
      modifies `seek, `skip
      ensures Valid() && (seek ==> skip > 0)
      ensures var target := if absolute then offset else old(Tell()) + offset;
        if target < pos then r == -1 && !seek && (Total() == old(Total()) <==> old(!seek || skip == 0))
        else r == target == Tell() && Total() == written + Zeros(target - pos)
    {
      hide Valid;
      var off := if absolute then offset - pos else if seek then offset + skip else offset;
      seek := false;
      if off < 0 {
        return -1;
      }
      if off != 0 {
        seek := true;
        skip := off;
      }
      assert off == 0 ==> Zeros(off) == [];
      r := pos + off;
    }
  }
}
