/** A file read through the gz layer: its bytes, what they decompress to, and the inflater. */
module GzFile {
  import opened Bits
  import opened Lz77

  /** The file, and the inflater as functions of the bytes from a member on: everything the first member
      yields, as far as it is there, and the length of that member if it is complete. */
  datatype File = File(bytes: seq<byte>, inflated: seq<byte> -> seq<byte>, memberLength: seq<byte> -> Option<nat>)

  function Drop<T>(s: seq<T>, n: int): seq<T> {
    if n <= 0 then s else if n >= |s| then [] else s[n..]
  }

  predicate Magic(f: File, p: nat) {
    p + 1 < |f.bytes| && f.bytes[p] == 31 && f.bytes[p + 1] == 139
  }

  /** A file that does not begin with a member is read as it is. */
  predicate Raw(f: File) {
    |f.bytes| > 0 && !Magic(f, 0)
  }

  /** The output of the member that starts at p. */
  function Plain(f: File, p: nat): seq<byte>
    requires p <= |f.bytes|
  {
    f.inflated(f.bytes[p..])
  }

  /** Where the member that starts at p ends, if it is complete. */
  function MemberEnd(f: File, p: nat): (e: Option<nat>)
    requires p <= |f.bytes|
    ensures e.Some? ==> p + 2 <= e.value <= |f.bytes|
  {
    match f.memberLength(f.bytes[p..])
    case None => None
    case Some(n) => if 2 <= n <= |f.bytes| - p then Some(p + n) else None
  }

  /** What the file from p on reads as. Members follow each other; what follows the last is ignored. A
      file that does not start with a member is read as it is. */
  function Content(f: File, p: nat, direct: bool): seq<byte>
    requires p <= |f.bytes|
    decreases |f.bytes| - p
  {
    if p == |f.bytes| then []
    else if Magic(f, p) then Plain(f, p) + AfterMember(f, p)
    else if direct then f.bytes[p..]
    else []
  }

  function AfterMember(f: File, p: nat): seq<byte>
    requires p <= |f.bytes|
    decreases |f.bytes| - p, 0
  {
    match MemberEnd(f, p)
    case None => []
    case Some(e) => Content(f, e, false)
  }

  /** From p on, no member of the file is cut off. */
  predicate Unbroken(f: File, p: nat)
    decreases |f.bytes| - p
  {
    Magic(f, p) ==> MemberEnd(f, p).Some? && Unbroken(f, MemberEnd(f, p).value)
  }

  /** One step of inflate() within the member at p: from `c` bytes consumed and `o` produced, given
      `avail` bytes of input and room for `n` of output, it consumes `k` and produces `g`. It stops for
      lack of input or room, or at the end of the member, whose last bytes, the trailer, it consumes only
      when all output has been produced. */
  predicate InflateStep(f: File, p: nat, c: nat, o: nat, avail: nat, n: nat, k: nat, g: nat)
    requires p + c + avail <= |f.bytes|
  {
    var e, all := MemberEnd(f, p), |Plain(f, p)|;
    && k <= avail && g <= n && o + g <= all
    && (e.Some? ==> p + c + k <= e.value && (p + c + k == e.value ==> o + g == all))
    && (k + g > 0 || Ends(f, p, c + k, o + g))
    && (g < n && !Ends(f, p, c + k, o + g) ==> k == avail)
  }

  /** Is the member at p used up? */
  predicate Ends(f: File, p: nat, c: nat, o: nat)
    requires p <= |f.bytes|
  {
    MemberEnd(f, p) == Some(p + c) && o == |Plain(f, p)|
  }

  /** There is always such a step. */
  lemma InflateCan(f: File, p: nat, c: nat, o: nat, avail: nat, n: nat)
    requires p + c + avail <= |f.bytes| && avail > 0 && n > 0 && o <= |Plain(f, p)|
    requires MemberEnd(f, p).Some? ==> p + c < MemberEnd(f, p).value
    ensures exists k, g :: 0 <= k <= avail && 0 <= g <= n && InflateStep(f, p, c, o, avail, n, k, g)
  {
    var e, left := MemberEnd(f, p), |Plain(f, p)| - o;
    var k := if e.Some? && e.value - p - c <= avail then e.value - p - c - (if left <= n then 0 else 1) else avail;
    var g := if left < n then left else n;
    assert InflateStep(f, p, c, o, avail, n, k, g);
  }

  /** Reading a whole file that begins with a member does not depend on what a file without one reads as. */
  lemma DirectOrNot(f: File)
    requires Magic(f, 0)
    ensures Content(f, 0, false) == Content(f, 0, true)
  {
  }

  /** The bytes of the file between two positions. */
  function Between(f: File, a: nat, b: nat): seq<byte> {
    if a < b <= |f.bytes| then f.bytes[a..b] else []
  }

  lemma BetweenMore(f: File, a: nat, b: nat, c: nat)
    requires a <= b <= c && (a < b ==> b <= |f.bytes|) && (b < c ==> c <= |f.bytes|)
    ensures Between(f, a, c) == Between(f, a, b) + Between(f, b, c)
  {
  }

  /** In the `len` places from `at` on the data has been written, and nothing elsewhere. */
  ghost predicate Written(now: seq<byte>, before: seq<byte>, at: nat, len: nat, data: seq<byte>) {
    && |now| == |before| && at + len <= |now| && |data| <= len
    && now[..at] == before[..at] && now[at..at + |data|] == data && now[at + len..] == before[at + len..]
  }

  lemma WrittenMore(now: seq<byte>, mid: seq<byte>, before: seq<byte>, at: nat, len: nat, data: seq<byte>, n: nat,
      more: seq<byte>)
    requires Written(mid, before, at, len, data) && |data| + n <= len && Written(now, mid, at + |data|, n, more)
    ensures Written(now, before, at, len, data + more)
  {
    var a, b := at + |data|, at + |data| + |more|;
    assert now[..at] == now[..a][..at];
    assert now[at..a] == now[..a][at..] == mid[..a][at..] == mid[at..a];
    assert now[at..b] == now[at..a] + now[a..b];
    assert now[at + len..] == now[a + n..][at + len - a - n..];
  }

  lemma DropLength<T>(s: seq<T>, n: nat)
    ensures |Drop(s, n)| == if n <= |s| then |s| - n else 0
  {
  }

  lemma DropDrop<T>(s: seq<T>, a: nat, b: nat)
    ensures Drop(Drop(s, a), b) == Drop(s, a + b)
  {
  }

  /** Cutting off what comes later leaves the same next bytes, and nothing after them. */
  lemma CutShort<T>(s: seq<T>, a: nat, b: nat)
    requires b <= |Drop(s, a)|
    ensures b > 0 ==> a + b <= |s|
    ensures a + b <= |s| ==> Drop(s[..a + b], a + b) == []
    ensures a + b > |s| ==> Drop(s, a + b) == []
  {
  }

  lemma DropSplit<T>(s: seq<T>, a: nat, b: nat)
    requires b <= |Drop(s, a)|
    ensures Drop(s, a) == Drop(s, a)[..b] + Drop(s, a + b)
  {
  }

  lemma DropCut<T>(s: seq<T>, t: seq<T>, a: nat, b: nat)
    requires b <= |Drop(s, a)| && a + b <= |s| && t == s[..a + b]
    ensures Drop(t, a) == Drop(s, a)[..b] + Drop(t, a + b)
  {
  }
}
