/** Any mix of reading, pushing back, seeking and asking, against a sequence of bytes with a cursor in it. */
module GzCursor {
  import opened Bits
  import opened GzFile
  import opened GzReader

  datatype Op =
    | Read(len: nat)
    | GetChar
    | GetLine(len: nat)
    | Unget(c: byte)
    | SeekTo(offset: int, whence: Whence)
    | ToStart
    | AskDirect

  datatype Out = Data(data: seq<byte>) | Char(c: int) | Position(at: int) | Flag(direct: bool)

  /** What the file reads as, as far as is known; the place reached in it, and bytes pushed back in front of
      it. The next byte is at `at`, which lies further on if a seek is pending. `raw` says that the file is
      found to be read as it is; `buffered` counts the bytes gzdirect() has put before a pending seek. */
  datatype Cursor = Cursor(data: seq<byte>, base: nat, pushed: seq<byte>, at: nat, raw: bool, buffered: nat)

  /** What the caller has no say in: how a file that is cut off ends, and how far ahead has been read. */
  datatype Chance = Chance(data: seq<byte>, place: nat)

  function Ahead(c: Cursor): seq<byte> {
    c.pushed + Drop(c.data, c.at)
  }

  /** The position of the reader, before any pending seek. */
  function Pos(c: Cursor): int {
    c.base - |c.pushed|
  }

  predicate Waiting(c: Cursor) {
    c.base < c.at
  }

  predicate Fine(c: Cursor) {
    c.base <= c.at && (Waiting(c) ==> c.pushed == [] && c.base <= |c.data|)
  }

  /** A pending seek carried out; it stops at the end of the data. */
  function Settled(c: Cursor): Cursor {
    if !Waiting(c) then c
    else if c.at <= |c.data| then c.(base := c.at)
    else c.(base := |c.data|, at := |c.data|)
  }

  /** The cursor n bytes further. */
  function Past(c: Cursor, n: nat): Cursor {
    if n <= |c.pushed| then c.(pushed := c.pushed[n..])
    else c.(base := c.base + n - |c.pushed|, at := c.at + n - |c.pushed|, pushed := [])
  }

  /** The length of a line: up to and with the newline, but at most `max`. */
  function LineLength(v: seq<byte>, max: nat): (n: nat)
    ensures n <= max && n <= |v|
  {
    if max == 0 || v == [] then 0 else if v[0] == 10 then 1 else 1 + LineLength(v[1..], max - 1)
  }

  function Target(c: Cursor, offset: int, whence: Whence): int {
    if whence == Set then offset else c.at - |c.pushed| + offset
  }

  /** Where a seek leads. In a file read as it is, to the place itself; back from the start of the file; and
      otherwise ahead from the next byte, so among pushed-back bytes, the later ones stay. */
  function Sought(f: File, c: Cursor, target: int, place: nat): Cursor {
    var off := target - Pos(c);
    if c.raw && target >= 0 then Cursor(c.data, target, [], target, true, 0)
    else if off < 0 && target < 0 then c.(at := c.base)
    else if off < 0 then Cursor(Content(f, 0, true), 0, [], target, false, 0)
    else if off <= |c.pushed| then c.(pushed := c.pushed[off..], at := c.base)
    else
      var at := c.base + off - |c.pushed|;
      Cursor(c.data, if place < at then place else at, [], at, c.raw, 0)
  }

  /** One operation on the cursor: the cursor after it, and what it returns. */
  function Step(f: File, c: Cursor, op: Op, ch: Chance): (Cursor, Out) {
    var s := Settled(c.(data := ch.data));
    var ahead, raw := Ahead(s), Raw(f);
    match op
    case Read(len) =>
      var n := if len < |ahead| then len else |ahead|;
      (if len == 0 then c else Past(s, n).(raw := raw), Data(if len == 0 then [] else ahead[..n]))
    case GetChar =>
      if Waiting(c) && c.buffered > 0 then
        (c.(base := c.base + 1, at := c.at + 1, buffered := c.buffered - 1),
        Char(if c.base < |c.data| then c.data[c.base] else -1))
      else if ahead == [] then (s.(raw := raw), Char(-1))
      else (Past(s, 1).(raw := raw), Char(ahead[0]))
    case GetLine(len) =>
      var n := LineLength(ahead, if len == 0 then 0 else len - 1);
      if len == 0 then (c, Data([]))
      else (Past(s, n).(raw := if len > 1 || Waiting(c) then raw else c.raw), Data(ahead[..n]))
    case Unget(b) => (s.(pushed := [b] + s.pushed, raw := raw), Char(b))
    case SeekTo(offset, whence) =>
      var target := Target(c, offset, whence);
      (Sought(f, c, target, ch.place),
      Position(if target < 0 && target < Pos(c) then -1 else target))
    case ToStart => (Cursor(Content(f, 0, true), 0, [], 0, false, 0), Position(0))
    case AskDirect =>
      (c.(raw := raw, buffered := if Waiting(c) && raw && !c.raw then ch.place else c.buffered), Flag(!Magic(f, 0)))
  }

  /** What may happen by chance: nothing, in a file none of whose members is cut off, but for the place reached
      by reading ahead. */
  predicate Possible(f: File, c: Cursor, op: Op, ch: Chance) {
    match op
    case SeekTo(_, _) =>
      && ch.data == c.data && c.base <= ch.place
      && (!c.raw ==> if Raw(f) then ch.place == c.base else ch.place <= |c.data|)
    case ToStart => true
    case AskDirect => ch.data == c.data && (Waiting(c) && Raw(f) && !c.raw ==> 0 < ch.place <= |c.data| - c.base)
    case _ => ch.data == c.data || (ch.data <= c.data && c.base <= |ch.data| && !Unbroken(f, 0))
  }

  /** The reader stands where the cursor does. */
  ghost predicate StandsAt(r: Reader, c: Cursor)
    reads r, r.inBuf, r.outBuf
  {
    && r.Valid() && r.Due() && r.Noted() && r.all == c.data && r.View() == c.pushed + Drop(c.data, c.base)
    && r.pos == Pos(c) && c.base <= r.pos + r.have && Fine(c) && (r.seek <==> Waiting(c))
    && (r.seek ==> r.skip == c.at - c.base && r.have == c.buffered) && (r.how == Copy <==> c.raw)
  }

  /** What came out is what may come out at the cursor, and the reader stands where the cursor does then. */
  ghost predicate Agrees(r: Reader, c: Cursor, op: Op, ch: Chance, out: Out)
    reads r, r.inBuf, r.outBuf
  {
    Possible(r.f, c, op, ch) && Step(r.f, c, op, ch).1 == out && StandsAt(r, Step(r.f, c, op, ch).0)
  }

  // Taking bytes.

  lemma AheadPast(c: Cursor, n: nat)
    requires n <= |Ahead(c)| && c.base == c.at
    ensures Ahead(Past(c, n)) == Ahead(c)[n..] && Pos(Past(c, n)) == Pos(c) + n
  {
    if n > |c.pushed| {
      DropDrop(c.data, c.at, n - |c.pushed|);
    }
  }

  lemma StandsNext(r: Reader, c: Cursor)
    requires StandsAt(r, c)
    ensures r.Next() == Ahead(c) && r.Tell() == c.at - |c.pushed|
  {
    hide Reader.Valid, Reader.View;
    if Waiting(c) {
      DropDrop(c.data, c.base, c.at - c.base);
    }
  }

  /** After n bytes have been taken, and perhaps the end has turned out to come earlier. */
  lemma Taken(c: Cursor, data: seq<byte>, view: seq<byte>, n: nat, pos: int, front: int)
    requires Fine(c) && n <= |Ahead(c)| && c.base <= front && pos <= front
    requires pos == Reader.Landed(Waiting(c), c.at - |c.pushed|, |data|) + n
    requires if data == c.data then view == Ahead(c)[n..]
      else data <= c.data && view <= Ahead(c)[n..] && view == Drop(data, pos) && 0 <= pos && front <= |data|
    ensures var s := Settled(c.(data := data)); var v, d := Ahead(s), Past(s, n);
      && n <= |v| && v[..n] == Ahead(c)[..n] && view == v[n..] == Ahead(d) && pos == Pos(d)
      && d.base == d.at <= front && s.base == s.at
  {
    var s := Settled(c.(data := data));
    var v := Ahead(s);
    DropLength(c.data, c.at);
    DropLength(data, s.at);
    if data == c.data {
      assert v == Ahead(c);
    } else {
      DropPrefixes(data, c.data, c.at);
      assert v <= Ahead(c);
      DropLength(data, pos);
      assert |view| == |v| - n;
      PrefixesAgree(view, v[n..], Ahead(c)[n..]);
    }
    AheadPast(s, n);
  }

  lemma DropPrefixes(a: seq<byte>, b: seq<byte>, n: nat)
    requires a <= b
    ensures Drop(a, n) <= Drop(b, n) && (n > |a| ==> Drop(a, n) == Drop(a, |a|))
  {
  }

  lemma PrefixesAgree(a: seq<byte>, b: seq<byte>, c: seq<byte>)
    requires a <= c && b <= c && |a| == |b|
    ensures a == b
  {
    assert a == c[..|a|];
  }

  /** The cursor at which the reader stands after an operation that took n bytes. */
  lemma Standing(r: Reader, c: Cursor, n: nat, raw: bool)
    requires Fine(c) && n <= |Ahead(c)| && r.Valid() && r.Noted() && !r.seek && c.data <= r.All()
    requires raw <==> r.how == Copy
    requires r.Leaves(Ahead(c)[n..], c.data) && c.base <= r.pos + r.have
    requires r.pos == Reader.Landed(Waiting(c), c.at - |c.pushed|, |r.all|) + n
    ensures r.all == c.data || (r.all <= c.data && c.base <= |r.all| && !Unbroken(r.f, 0))
    ensures var s := Settled(c.(data := r.all)); var v := Ahead(s);
      && n <= |v| && v[..n] == Ahead(c)[..n] && r.View() == v[n..]
      && StandsAt(r, Past(s, n).(raw := raw))
  {
    hide Reader.Valid, Reader.View, Reader.Clean, Reader.All, Settled, Past, Ahead, Reader.TornEnd, Reader.Noted;
    ShorterOnlyIfTorn(r, c);
    Taken(c, r.all, r.View(), n, r.pos, r.pos + r.have);
    SettledKeeps(c, r.all, n);
  }

  lemma ShorterOnlyIfTorn(r: Reader, c: Cursor)
    requires r.Valid() && c.data <= r.All() && c.base <= r.pos + r.have
    ensures r.Clean() ==> 0 <= r.pos && r.View() == Drop(r.all, r.pos)
    ensures r.TornEnd() ==> !Unbroken(r.f, 0) && r.pos + r.have <= |r.all| && r.how == Gzip
  {
    hide Content;
    if Unbroken(r.f, 0) {
      NothingTorn(r);
    }
  }

  lemma SettledKeeps(c: Cursor, data: seq<byte>, n: nat)
    ensures var d := Past(Settled(c.(data := data)), n); d.data == data && Drop(data, d.at) == Drop(d.data, d.at)
    ensures var d := Past(Settled(c.(data := data)), n); Ahead(d) == d.pushed + Drop(data, d.at)
  {
  }

  // Each operation.

  lemma BufStart(now: seq<byte>, before: seq<byte>, len: nat, data: seq<byte>)
    requires Written(now, before, 0, len, data)
    ensures |data| <= len <= |now| && now[..|data|] == data
  {
    assert now[0..|data|] == now[..|data|];
  }

  lemma StandsParts(r: Reader, c: Cursor)
    requires StandsAt(r, c)
    ensures r.Valid() && r.Due() && r.Noted() && Fine(c) && c.data == r.all <= r.All() && c.base <= r.pos + r.have
    ensures r.Next() == Ahead(c) && r.Tell() == c.at - |c.pushed| && (r.seek <==> Waiting(c)) && r.pos == Pos(c)
    ensures r.have > 0 ==> r.Looked() && r.View() != []
    ensures (c.raw <==> r.how == Copy) && r.View() == c.pushed + Drop(c.data, c.base)
    ensures r.seek ==> r.skip == c.at - c.base && r.have == c.buffered
  {
    hide Content;
    StandsNext(r, c);
    if r.have > 0 {
      r.HasLooked();
    }
  }

  /** gzread(). */
  method DoRead(r: Reader, len: nat, ghost c: Cursor) returns (out: Out, ghost ch: Chance)
    requires StandsAt(r, c)
    modifies r, r.inBuf, r.outBuf
    ensures !r.Failed() ==> Agrees(r, c, Read(len), ch, out)
  {
    hide StandsAt, Reader.Valid, Reader.View, Reader.Rest, Reader.All, Reader.TornEnd, Written, Unbroken, Drop, Past;
    hide Settled, Ahead, Fine, Waiting, Reader.Leaves, Reader.Due, Reader.Noted, Reader.Looked;
    StandsParts(r, c);
    ch := Chance(c.data, 0);
    if len == 0 {
      return Data([]), ch;
    }
    var buf := new byte[len];
    ghost var was := buf[..];
    var ok, got := r.ReadBytes(buf, len);
    if !ok {
      return Data([]), ch;
    }
    BufStart(buf[..], was, len, Ahead(c)[..got]);
    r.LookedWell();
    Standing(r, c, got, Raw(r.f));
    ch := Chance(r.all, 0);
    out := Data(buf[..got]);
  }

  /** gzgetc(). */
  method DoGetChar(r: Reader, ghost c: Cursor) returns (out: Out, ghost ch: Chance)
    requires StandsAt(r, c)
    modifies r, r.inBuf, r.outBuf
    ensures !r.Failed() ==> Agrees(r, c, GetChar, ch, out)
  {
    hide StandsAt, Reader.Valid, Reader.View, Reader.Rest, Reader.All, Reader.TornEnd, Unbroken, Drop, Past;
    hide Settled, Ahead, Fine, Waiting, Reader.Leaves, Reader.Due, Reader.Noted, Reader.Looked, Reader.TookBuffered;
    StandsParts(r, c);
    if r.have > 0 {
      out, ch := GetBuffered(r, c);
      return;
    }
    NotBuffered(r, c);
    var b := r.GetC();
    out := Char(b);
    ch := Chance(r.all, 0);
    if !r.Failed() {
      r.LookedWell();
      Standing(r, c, if b < 0 then 0 else 1, Raw(r.f));
      PastNone(Settled(c.(data := r.all)));
    }
  }

  lemma PastNone(c: Cursor)
    ensures Past(c, 0) == c && Ahead(c)[0..] == Ahead(c)
  {
  }

  lemma NotBuffered(r: Reader, c: Cursor)
    requires StandsAt(r, c) && r.have == 0
    ensures !(Waiting(c) && c.buffered > 0) && Ahead(c)[0..] == Ahead(c)
  {
  }

  /** A byte from the buffer, whether or not a seek is pending. */
  method GetBuffered(r: Reader, ghost c: Cursor) returns (out: Out, ghost ch: Chance)
    requires StandsAt(r, c) && r.have > 0
    modifies r, r.inBuf, r.outBuf
    ensures !r.Failed() ==> Agrees(r, c, GetChar, ch, out)
  {
    hide StandsAt, Reader.Valid, Reader.View, Reader.Rest, Reader.All, Reader.TornEnd, Unbroken, Drop, Past, Ahead;
    hide Settled, Reader.Noted, Reader.Looked;
    StandsParts(r, c);
    r.LookedWell();
    var b := r.GetC();
    out := Char(b);
    ch := Chance(r.all, 0);
    if !r.Failed() {
      BufferedStands(r, c, c.pushed + Drop(c.data, c.base), b);
    }
  }

  lemma BufferedStands(r: Reader, c: Cursor, v: seq<byte>, b: int)
    requires Fine(c) && r.Valid() && r.Due() && r.Noted() && r.all == c.data && v == c.pushed + Drop(c.data, c.base)
    requires |v| > 0 && b == v[0] && r.View() == v[1..] && r.pos == Pos(c) + 1 && c.base <= r.pos + r.have
    requires (r.seek <==> Waiting(c)) && (r.seek ==> r.skip == c.at - c.base && r.have == c.buffered - 1)
    requires (c.raw <==> r.how == Copy) && c.raw == Raw(r.f)
    ensures Agrees(r, c, GetChar, Chance(r.all, 0), Char(b))
  {
    hide Reader.Valid, Reader.View, Reader.All, Reader.Noted, Drop, Content;
    if Waiting(c) {
      FirstDropped(c.data, c.base);
      assert c.pushed == [] && v == Drop(c.data, c.base);
    } else {
      var ch := Chance(r.all, 0);
      assert c.(data := ch.data) == c && v == Ahead(c);
      AheadPast(c, 1);
      assert Step(r.f, c, GetChar, ch) == (Past(c, 1), Char(b));
      StandsTaken(r, Past(c, 1));
    }
  }

  lemma FirstDropped(s: seq<byte>, n: nat)
    requires Drop(s, n) != []
    ensures n < |s| && Drop(s, n)[0] == s[n] && Drop(s, n)[1..] == Drop(s, n + 1) == [] + Drop(s, n + 1)
  {
  }

  lemma StandsTaken(r: Reader, d: Cursor)
    requires r.Valid() && r.Due() && r.Noted() && r.all == d.data && r.View() == Ahead(d) && r.pos == Pos(d)
    requires d.base == d.at <= r.pos + r.have && !r.seek && (d.raw <==> r.how == Copy)
    ensures StandsAt(r, d)
  {
    hide Reader.Valid, Reader.View, Reader.Noted;
  }

  /** gzgets(). */
  method DoGetLine(r: Reader, len: nat, ghost c: Cursor) returns (out: Out, ghost ch: Chance)
    requires StandsAt(r, c) && !r.Failed()
    modifies r, r.inBuf, r.outBuf
    ensures !r.Failed() ==> Agrees(r, c, GetLine(len), ch, out)
  {
    hide StandsAt, Reader.Valid, Reader.View, Reader.Rest, Reader.All, Reader.TornEnd, Unbroken, Drop, Past;
    hide Settled, Ahead, Fine, Waiting, Reader.Leaves, Reader.Due, Reader.Noted, Reader.Looked;
    StandsParts(r, c);
    ch := Chance(c.data, 0);
    if len == 0 {
      return Data([]), ch;
    }
    var buf := new byte[len];
    var ok, n := r.Gets(buf, len);
    if !ok {
      return Data([]), ch;
    }
    ch := Chance(r.all, 0);
    out := Data(buf[..n]);
    r.LookedWell();
    Standing(r, c, n, r.how == Copy);
    LineIs(Ahead(Settled(c.(data := r.all))), len - 1, n);
  }

  /** There is only one length a line can have. */
  lemma {:induction false} LineIs(v: seq<byte>, max: nat, n: nat)
    requires n <= max && n <= |v| && (forall i :: 0 <= i < n - 1 ==> v[i] != 10)
    requires n < max && (n == 0 || v[n - 1] != 10) ==> n == |v|
    ensures n == LineLength(v, max)
    decreases max
  {
    if n > 1 {
      assert forall i :: 0 <= i < n - 2 ==> v[1..][i] == v[i + 1];
      LineIs(v[1..], max - 1, n - 1);
    } else if n == 1 && v[0] != 10 {
      LineIs(v[1..], max - 1, 0);
    }
  }

  /** gzungetc(). */
  method DoUnget(r: Reader, b: byte, ghost c: Cursor) returns (out: Out, ghost ch: Chance)
    requires StandsAt(r, c)
    modifies r, r.inBuf, r.outBuf
    ensures !r.Failed() ==> Agrees(r, c, Unget(b), ch, out)
  {
    hide StandsAt, Reader.Valid, Reader.View, Reader.Rest, Reader.All, Reader.TornEnd, Unbroken, Drop, Past;
    hide Settled, Ahead, Fine, Waiting, Reader.Leaves, Reader.Due, Reader.Noted, Reader.Looked;
    StandsParts(r, c);
    var x := r.UngetC(b);
    out := Char(x);
    ch := Chance(r.all, 0);
    if !r.Failed() {
      StandsPushed(r, c, b);
    }
  }

  lemma StandsPushed(r: Reader, c: Cursor, b: byte)
    requires Fine(c) && r.Valid() && r.Noted() && r.Looked() && !r.seek && c.data <= r.All() && r.have > 0
    requires r.Pushed(b, Ahead(c), c.data) && c.base <= r.pos + r.have
    requires r.pos == Reader.Landed(Waiting(c), c.at - |c.pushed|, |r.all|) - 1
    ensures Agrees(r, c, Unget(b), Chance(r.all, 0), Char(b))
  {
    hide Reader.Valid, Reader.View, Reader.All, Settled, Past, Ahead, Reader.TornEnd, Reader.Noted, Drop;
    ShorterOnlyIfTorn(r, c);
    FirstOff(r.View(), b, if r.all == c.data then Ahead(c) else Drop(r.all, r.pos + 1), Ahead(c));
    Taken(c, r.all, r.View()[1..], 0, r.pos + 1, r.pos + r.have);
    SettledKeeps(c, r.all, 0);
    PastNone(Settled(c.(data := r.all)));
    r.LookedWell();
    PushedFront(Settled(c.(data := r.all)), b);
  }

  lemma FirstOff(view: seq<byte>, b: byte, v: seq<byte>, w: seq<byte>)
    requires view == [b] + v
    ensures view[1..] == v && (view <= [b] + w ==> v <= w) && w[0..] == w
  {
    if view <= [b] + w {
      assert ([b] + w)[1..] == w;
    }
  }

  lemma PushedFront(s: Cursor, b: byte)
    requires s.base == s.at
    ensures [b] + Ahead(s) == [b] + s.pushed + Drop(s.data, s.base)
  {
  }

  /** gzseek(). */
  method DoSeek(r: Reader, offset: int, whence: Whence, ghost c: Cursor) returns (out: Out, ghost ch: Chance)
    requires StandsAt(r, c) && !r.Failed()
    modifies r, r.inBuf, r.outBuf
    ensures !r.Failed() ==> Agrees(r, c, SeekTo(offset, whence), ch, out)
  {
    hide StandsAt, Reader.Valid, Reader.View, Reader.Rest, Reader.All, Reader.TornEnd, Unbroken, Drop, Ahead;
    hide Reader.Noted, Reader.Looked, Reader.MovedOn, Reader.Restarted, Fine, Waiting, Reader.Due;
    StandsParts(r, c);
    Unlooked(r);
    r.ViewLength();
    ghost var target, had, v := Target(c, offset, whence), r.have, r.View();
    var at := r.Seek(offset, whence);
    out := Position(at);
    ch := Chance(c.data, Reached(c, r.pos));
    if old(r.Refuses(target)) {
      StandsRefused(r, c, offset, whence);
    } else if old(r.Restarts(target)) {
      StandsRestarted(r, c, offset, whence);
    } else {
      StandsAhead(r, c, offset, whence, had);
    }
  }

  function Reached(c: Cursor, pos: int): nat {
    if pos < c.base then c.base else pos
  }

  lemma StandsRefused(r: Reader, c: Cursor, offset: int, whence: Whence)
    requires Fine(c) && r.Valid() && r.Due() && r.Noted() && !r.seek && r.all == c.data && r.pos == Pos(c)
    requires c.base <= r.pos + r.have && (c.raw <==> r.how == Copy) && r.View() == c.pushed + Drop(c.data, c.base)
    requires Target(c, offset, whence) < 0 && Target(c, offset, whence) < Pos(c)
    ensures Agrees(r, c, SeekTo(offset, whence), Chance(c.data, Reached(c, r.pos)), Position(-1))
  {
    hide Reader.View, Reader.All, Reader.Noted;
    r.ViewLength();
  }

  lemma StandsRestarted(r: Reader, c: Cursor, offset: int, whence: Whence)
    requires Fine(c) && r.Valid() && r.Due() && r.Noted() && (!c.raw ==> c.base <= |c.data|)
    requires r.Tell() == Target(c, offset, whence) && (c.raw ==> c.data == r.All())
    requires Target(c, offset, whence) >= 0 && (c.raw || Target(c, offset, whence) < Pos(c))
    requires r.Restarted(Target(c, offset, whence), c.raw)
    ensures Agrees(r, c, SeekTo(offset, whence), Chance(c.data, Reached(c, r.pos)), Position(Target(c, offset, whence)))
  {
    hide Reader.View, Reader.Noted, Reader.Rest, Content;
  }

  lemma StandsAhead(r: Reader, c: Cursor, offset: int, whence: Whence, had: nat)
    requires Fine(c) && r.Valid() && r.Due() && r.Noted() && r.all == c.data && (c.raw <==> r.how == Copy)
    requires r.Tell() == Target(c, offset, whence) >= Pos(c) && (c.raw ==> Target(c, offset, whence) < 0)
    requires Raw(r.f) && !c.raw ==> had == 0
    requires c.base <= Pos(c) + had && (!c.raw ==> Pos(c) + had <= |c.data|) && (r.seek ==> r.have == 0)
    requires r.MovedOn(Target(c, offset, whence) - Pos(c), c.pushed + Drop(c.data, c.base), Pos(c), had)
    ensures Agrees(r, c, SeekTo(offset, whence), Chance(c.data, Reached(c, r.pos)), Position(Target(c, offset, whence)))
  {
    hide Reader.View, Reader.Noted, Reader.Valid, Drop;
    PassedOver(c, Target(c, offset, whence) - Pos(c), had);
    assert c.pushed + Drop(c.data, c.base) == c.pushed[0..] + Drop(c.data, c.base);
  }

  lemma PassedOver(c: Cursor, off: nat, had: nat)
    requires c.base <= Pos(c) + had
    ensures var n, v := if had > off then off else had, c.pushed + Drop(c.data, c.base);
      && (off <= |c.pushed| ==> n == off && n <= |v| && v[n..] == c.pushed[off..] + Drop(c.data, c.base))
      && (off > |c.pushed| && n <= |v| ==> n >= |c.pushed| && v[n..] == [] + Drop(c.data, Pos(c) + n))
  {
    hide Drop;
    var n := if had > off then off else had;
    if n <= |c.pushed + Drop(c.data, c.base)| {
      SliceSum(c.pushed, Drop(c.data, c.base), n);
    }
    if off > |c.pushed| && n <= |c.pushed + Drop(c.data, c.base)| {
      DropSlice(c.data, c.base, n - |c.pushed|);
    }
  }

  lemma SliceSum(a: seq<byte>, b: seq<byte>, n: nat)
    requires n <= |a + b|
    ensures (a + b)[n..] == if n <= |a| then a[n..] + b else b[n - |a|..]
    ensures n == |a| ==> (a + b)[n..] == b[0..]
  {
  }

  lemma DropSlice(s: seq<byte>, a: nat, n: nat)
    requires n <= |Drop(s, a)|
    ensures Drop(s, a)[n..] == Drop(s, a + n) == [] + Drop(s, a + n)
  {
  }

  /** gzrewind(). */
  method DoRewind(r: Reader, ghost c: Cursor) returns (out: Out, ghost ch: Chance)
    requires StandsAt(r, c) && !r.Failed()
    modifies r, r.inBuf, r.outBuf
    ensures Agrees(r, c, ToStart, ch, out)
  {
    hide Reader.Valid, Reader.View, Reader.Rest, Reader.Noted, Content;
    r.Rewind();
    out := Position(0);
    ch := Chance(c.data, 0);
  }

  /** gzdirect(). */
  method DoDirect(r: Reader, ghost c: Cursor) returns (out: Out, ghost ch: Chance)
    requires StandsAt(r, c)
    modifies r, r.inBuf, r.outBuf
    ensures !r.Failed() ==> Agrees(r, c, AskDirect, ch, out)
  {
    hide Reader.Valid, Reader.View, Reader.Rest, Reader.All, Reader.Noted, Reader.Looked, Content;
    StandsParts(r, c);
    r.LookedWell();
    Unlooked(r);
    var d := r.IsDirect();
    out := Flag(d);
    ch := Chance(c.data, r.have);
    if !r.Failed() {
      r.LookedWell();
    }
  }

  lemma Unlooked(r: Reader)
    requires r.Valid()
    ensures Raw(r.f) && r.how != Copy ==> r.how == Look && r.have == 0
  {
  }

  method Do(r: Reader, op: Op, ghost c: Cursor) returns (out: Out, ghost ch: Chance)
    requires StandsAt(r, c) && !r.Failed()
    modifies r, r.inBuf, r.outBuf
    ensures !r.Failed() ==> Agrees(r, c, op, ch, out)
  {
    hide *;
    match op
    case Read(len) => out, ch := DoRead(r, len, c);
    case GetChar => out, ch := DoGetChar(r, c);
    case GetLine(len) => out, ch := DoGetLine(r, len, c);
    case Unget(b) => out, ch := DoUnget(r, b, c);
    case SeekTo(offset, whence) => out, ch := DoSeek(r, offset, whence, c);
    case ToStart => out, ch := DoRewind(r, c);
    case AskDirect => out, ch := DoDirect(r, c);
  }

  // Runs.

  /** The cursors a sequence of operations leads through, and what comes out. */
  ghost predicate Goes(f: File, cs: seq<Cursor>, ops: seq<Op>, chs: seq<Chance>, outs: seq<Out>) {
    && |cs| == |ops| + 1 && |chs| == |outs| == |ops|
    && forall i :: 0 <= i < |ops| ==>
         && Possible(f, cs[i], ops[i], chs[i]) && cs[i + 1] == Step(f, cs[i], ops[i], chs[i]).0
         && outs[i] == Step(f, cs[i], ops[i], chs[i]).1
  }

  /** Any sequence of operations. However much each read() of the file returns and however the inflater
      stops, what comes out is what comes out of the cursor. */
  method Run(r: Reader, ops: seq<Op>, ghost c: Cursor) returns (outs: seq<Out>, ghost cs: seq<Cursor>,
      ghost chs: seq<Chance>)
    requires StandsAt(r, c) && !r.Failed()
    modifies r, r.inBuf, r.outBuf
    ensures !r.Failed() ==> Goes(r.f, cs, ops, chs, outs) && cs[0] == c && StandsAt(r, cs[|ops|])
  {
    hide *;
    outs, cs, chs := [], [c], [];
    NoSteps(r.f, c, ops);
    for i := 0 to |ops|
      invariant Goes(r.f, cs, ops[..i], chs, outs) && |cs| == i + 1 && cs[0] == c && StandsAt(r, cs[i]) && !r.Failed()
    {
      var out;
      ghost var ch;
      out, ch := Do(r, ops[i], cs[i]);
      if r.Failed() {
        return;
      }
      AgreesParts(r, cs[i], ops[i], ch, out);
      OneMore(r.f, cs, ops[..i], chs, outs, ops[i], ch);
      assert ops[..i + 1] == ops[..i] + [ops[i]];
      cs := cs + [Step(r.f, cs[i], ops[i], ch).0];
      outs, chs := outs + [out], chs + [ch];
    }
    assert ops[..|ops|] == ops;
  }

  lemma NoSteps(f: File, c: Cursor, ops: seq<Op>)
    ensures Goes(f, [c], ops[..0], [], [])
  {
  }

  lemma AgreesParts(r: Reader, c: Cursor, op: Op, ch: Chance, out: Out)
    requires Agrees(r, c, op, ch, out)
    ensures Possible(r.f, c, op, ch) && Step(r.f, c, op, ch).1 == out && StandsAt(r, Step(r.f, c, op, ch).0)
  {
    hide Possible, Step, StandsAt;
  }

  lemma OneMore(f: File, cs: seq<Cursor>, ops: seq<Op>, chs: seq<Chance>, outs: seq<Out>, op: Op, ch: Chance)
    requires Goes(f, cs, ops, chs, outs) && Possible(f, cs[|ops|], op, ch)
    ensures var (d, out) := Step(f, cs[|ops|], op, ch);
      Goes(f, cs + [d], ops + [op], chs + [ch], outs + [out])
  {
    hide Possible, Step;
  }

  /** A file just opened stands at its start. */
  lemma StandsAtStart(r: Reader)
    requires AtStart(r)
    ensures StandsAt(r, Cursor(r.All(), 0, [], 0, false, 0))
  {
  }

  // What the operations mean for the caller.

  /** Two cursors that differ only in how far ahead has been read. */
  predicate Alike(f: File, a: Cursor, b: Cursor) {
    && a.data == b.data == Content(f, 0, true) && a.at == b.at && a.pushed == b.pushed && a.raw == b.raw
    && Unspoilt(a) && Unspoilt(b) && (a.raw ==> Raw(f)) && (Raw(f) && !a.raw ==> a.base == b.base == 0)
  }

  predicate Unspoilt(c: Cursor) {
    Fine(c) && c.buffered == 0 && (if c.raw then c.base == c.at else c.base <= |c.data|)
  }

  predicate Refused(c: Cursor, op: Op) {
    op.SeekTo? && Target(c, op.offset, op.whence) < 0 && Target(c, op.offset, op.whence) < Pos(c)
  }

  lemma SettledAlike(f: File, a: Cursor, b: Cursor)
    requires Alike(f, a, b)
    ensures Settled(a) == Settled(b) && Unspoilt(Settled(a)) && Settled(a).base <= Settled(a).at
    ensures Raw(f) ==> Waiting(a) == Waiting(b)
  {
  }

  lemma PastUnspoilt(s: Cursor, n: nat, raw: bool)
    requires Unspoilt(s) && s.base == s.at && n <= |Ahead(s)| && (s.raw ==> raw)
    ensures Unspoilt(Past(s, n).(raw := raw)) && Past(s, n).data == s.data
  {
  }

  /** In a file none of whose members is cut off, chance has no say in what comes out, unless a seek is refused
      or gzdirect() called. */
  lemma StepAlike(f: File, a: Cursor, b: Cursor, op: Op, ch: Chance, dh: Chance)
    requires Alike(f, a, b) && Unbroken(f, 0) && Possible(f, a, op, ch) && Possible(f, b, op, dh)
    requires op != AskDirect && !Refused(a, op)
    ensures Step(f, a, op, ch).1 == Step(f, b, op, dh).1 && Alike(f, Step(f, a, op, ch).0, Step(f, b, op, dh).0)
  {
    hide Content, Unbroken, Settled, Sought, Past, Ahead, Unspoilt, LineLength;
    match op
    case SeekTo(offset, whence) => SoughtAlike(f, a, b, offset, whence, ch.place, dh.place);
    case ToStart => StartUnspoilt(f);
    case _ =>
      SettledAlike(f, a, b);
      ReadAlike(f, a, b, op, ch, dh);
  }

  lemma StartUnspoilt(f: File)
    ensures Unspoilt(Cursor(Content(f, 0, true), 0, [], 0, false, 0))
  {
    hide Content;
  }

  lemma ReadAlike(f: File, a: Cursor, b: Cursor, op: Op, ch: Chance, dh: Chance)
    requires Alike(f, a, b) && ch.data == dh.data == a.data && !op.SeekTo? && !op.ToStart? && !op.AskDirect?
    ensures Step(f, a, op, ch).1 == Step(f, b, op, dh).1 && Alike(f, Step(f, a, op, ch).0, Step(f, b, op, dh).0)
  {
    hide Content, Unbroken, Past, Ahead, LineLength;
    SettledAlike(f, a, b);
    var s := Settled(a);
    forall n: nat, raw: bool | n <= |Ahead(s)| && (s.raw ==> raw)
      ensures Unspoilt(Past(s, n).(raw := raw)) && Past(s, n).data == s.data
    {
      PastUnspoilt(s, n, raw);
    }
    PastNone(s);
    assert a.(data := ch.data) == a && b.(data := dh.data) == b;
  }

  lemma SoughtAlike(f: File, a: Cursor, b: Cursor, offset: int, whence: Whence, place: nat, place': nat)
    requires Alike(f, a, b) && !Refused(a, SeekTo(offset, whence))
    requires Possible(f, a, SeekTo(offset, whence), Chance(a.data, place))
    requires Possible(f, b, SeekTo(offset, whence), Chance(b.data, place'))
    ensures var target := Target(a, offset, whence);
      && target == Target(b, offset, whence) && !(target < 0 && target < Pos(b))
      && Alike(f, Sought(f, a, target, place), Sought(f, b, target, place'))
  {
    hide Content;
  }

  /** What comes out of any run is determined by the operations: two runs from the same place return the same,
      however differently the file was read and decompressed. */
  lemma {:induction false} Determined(f: File, ops: seq<Op>, cs: seq<Cursor>, chs: seq<Chance>, outs: seq<Out>,
      ds: seq<Cursor>, dhs: seq<Chance>, outs': seq<Out>)
    requires Goes(f, cs, ops, chs, outs) && Goes(f, ds, ops, dhs, outs') && Alike(f, cs[0], ds[0]) && Unbroken(f, 0)
    requires forall i :: 0 <= i < |ops| ==> ops[i] != AskDirect && !Refused(cs[i], ops[i])
    ensures outs == outs' && Alike(f, cs[|ops|], ds[|ops|])
    decreases |ops|
  {
    hide Possible, Step, Alike, Unbroken, Refused;
    if |ops| > 0 {
      var n := |ops| - 1;
      Determined(f, ops[..n], cs[..n + 1], chs[..n], outs[..n], ds[..n + 1], dhs[..n], outs'[..n]);
      StepAlike(f, cs[n], ds[n], ops[n], chs[n], dhs[n]);
      assert outs == outs[..n] + [outs[n]];
      assert outs' == outs'[..n] + [outs'[n]];
    }
  }

  /** A seek that is not refused leads to its target, but for bytes pushed back, of which some are still to come
      exactly when the file is not read as it is and the target lies among them. */
  lemma SeekKeepsPushed(f: File, c: Cursor, offset: int, whence: Whence, ch: Chance)
    requires Fine(c) && Possible(f, c, SeekTo(offset, whence), ch) && !Refused(c, SeekTo(offset, whence))
    requires c.data == Content(f, 0, true)
    ensures var target, d := Target(c, offset, whence), Step(f, c, SeekTo(offset, whence), ch).0;
      && (d.pushed != [] <==> !(c.raw && target >= 0) && Pos(c) <= target < Pos(c) + |c.pushed|)
      && (d.pushed == [] ==> target >= 0 && Ahead(d) == Drop(Content(f, 0, true), target))
      && (d.pushed != [] ==> Ahead(d) == Ahead(c.(at := c.base))[target - Pos(c)..])
  {
    hide Content;
    var target := Target(c, offset, whence);
    var off := target - Pos(c);
    if 0 <= off < |c.pushed| {
      assert (c.pushed + Drop(c.data, c.base))[off..] == c.pushed[off..] + Drop(c.data, c.base);
    }
  }

  /** A refused seek leaves what is to come as it was if and only if no seek was pending, or nothing was to come
      anyway. */
  lemma RefusedForgets(f: File, c: Cursor, offset: int, whence: Whence, ch: Chance)
    requires Fine(c) && Refused(c, SeekTo(offset, whence)) && Possible(f, c, SeekTo(offset, whence), ch)
    ensures var d := Step(f, c, SeekTo(offset, whence), ch).0;
      Ahead(d) == Ahead(c) <==> !Waiting(c) || c.base == |c.data|
  {
    DropLength(c.data, c.base);
    DropLength(c.data, c.at);
  }
}
