/** The member header of RFC 1952, section 2.3: as it is to be written, and a parser for it. */
module GzipHeader {
  import opened Bits
  import opened Lz77
  import CrcSpec

  /** gz_header. The strings are given without their terminating zero. */
  datatype Fields = Fields(text: bool, time: nat, os: nat, extra: Option<seq<byte>>,
                           name: Option<seq<byte>>, comment: Option<seq<byte>>, hcrc: bool)

  predicate NoZero(s: seq<byte>) {
    forall i :: 0 <= i < |s| ==> s[i] != 0
  }

  predicate GoodText(t: Option<seq<byte>>) {
    t.Some? ==> NoZero(t.value)
  }

  predicate GoodFields(h: Fields) {
    GoodText(h.name) && GoodText(h.comment)
  }

  function Flag(b: bool, v: byte): byte {
    if b then v else 0
  }

  function Flags(h: Fields): byte {
    Flag(h.text, 1) + Flag(h.hcrc, 2) + Flag(h.extra.Some?, 4) + Flag(h.name.Some?, 8) + Flag(h.comment.Some?, 16)
  }

  /** The low n bytes of a number, the least significant first. */
  function LittleEndian(v: nat, n: nat): (r: seq<byte>)
    ensures |r| == n
  {
    if n == 0 then [] else [v % 256] + LittleEndian(v / 256, n - 1)
  }

  /** The ten fixed bytes, and the length of the extra field. */
  function Fixed(h: Fields, xfl: byte): seq<byte> {
    [31, 139, 8, Flags(h)] + LittleEndian(h.time, 4) + [xfl, h.os % 256] + if h.extra.Some?
        then LittleEndian(|h.extra.value|, 2) else []
  }

  /** The extra field as far as its sixteen-bit length goes. */
  function Extra(h: Fields): seq<byte> {
    if h.extra.Some? then h.extra.value[..|h.extra.value| % 0x1_0000] else []
  }

  /** A zero-terminated string. */
  function Text(t: Option<seq<byte>>): seq<byte> {
    if t.Some? then t.value + [0] else []
  }

  function BeforeCrc(h: Fields, xfl: byte): seq<byte> {
    Fixed(h, xfl) + Extra(h) + Text(h.name) + Text(h.comment)
  }

  /** The two low bytes of the CRC-32 of all bytes before. */
  function Crc16(data: seq<byte>): seq<byte> {
    LittleEndian(CrcSpec.Update(0, data), 2)
  }

  function Header(h: Fields, xfl: byte): seq<byte> {
    BeforeCrc(h, xfl) + if h.hcrc then Crc16(BeforeCrc(h, xfl)) else []
  }

  // The parser.

  /** A field that may be absent, and where it ends. */
  datatype Part = Part(value: Option<seq<byte>>, end: nat)

  datatype Parsed = Parsed(fields: Fields, xfl: byte, end: nat)

  function Number(data: seq<byte>): nat {
    if |data| == 0 then 0 else data[0] + 256 * Number(data[1..])
  }

  /** Where the first zero byte from `at` on is, or the end. */
  function FindZero(data: seq<byte>, at: nat): (r: nat)
    requires at <= |data|
    ensures at <= r <= |data|
    decreases |data| - at
  {
    if at == |data| || data[at] == 0 then at else FindZero(data, at + 1)
  }

  function ParseExtra(data: seq<byte>, at: nat, flag: bool): (r: Option<Part>)
    requires at <= |data|
    ensures r.Some? ==> at <= r.value.end <= |data|
  {
    if !flag then Some(Part(None, at))
    else if at + 2 > |data| then None
    else
      var n := Number(data[at..at + 2]);
      if at + 2 + n > |data| then None else Some(Part(Some(data[at + 2..at + 2 + n]), at + 2 + n))
  }

  function ParseText(data: seq<byte>, at: nat, flag: bool): (r: Option<Part>)
    requires at <= |data|
    ensures r.Some? ==> at <= r.value.end <= |data|
  {
    if !flag then Some(Part(None, at))
    else
      var z := FindZero(data, at);
      if z == |data| then None else Some(Part(Some(data[at..z]), z + 1))
  }

  predicate FlagSet(flags: byte, v: nat)
    requires v > 0
  {
    flags / v % 2 == 1
  }

  /** Reads a header at the start of the data; None if it is malformed or its CRC does not match. */
  function Parse(data: seq<byte>): Option<Parsed> {
    if |data| < 10 || data[0] != 31 || data[1] != 139 || data[2] != 8 || data[3] >= 32 then None
    else
      var flags := data[3];
      match ParseExtra(data, 10, FlagSet(flags, 4))
      case None => None
      case Some(extra) =>
        match ParseText(data, extra.end, FlagSet(flags, 8))
        case None => None
        case Some(name) =>
          match ParseText(data, name.end, FlagSet(flags, 16))
          case None => None
          case Some(comment) =>
            var end := comment.end;
            var h := Fields(FlagSet(flags, 1), Number(data[4..8]), data[9], extra.value, name.value, comment.value,
              FlagSet(flags, 2));
            if !h.hcrc then Some(Parsed(h, data[8], end))
            else if end + 2 > |data| || Number(data[end..end + 2]) != CrcSpec.Update(0, data[..end]) % 0x1_0000
              then None
            else Some(Parsed(h, data[8], end + 2))
  }

  /** What of the fields a header can hold. */
  function Stored(h: Fields): Fields {
    h.(time := h.time % 0x1_0000_0000, os := h.os % 256, extra := if h.extra.Some? then Some(Extra(h)) else None)
  }

  ghost predicate At(data: seq<byte>, at: nat, part: seq<byte>) {
    at + |part| <= |data| && data[at..at + |part|] == part
  }

  lemma NumberOfTwo(v: nat)
    ensures Number(LittleEndian(v, 2)) == v % 0x1_0000
  {
    var a, b := v % 256, v / 256 % 256;
    LowWord(v);
    assert LittleEndian(v / 256, 1) == [b];
    assert LittleEndian(v, 2) == [a, b];
    assert [a, b][1..] == [b] && [b][1..] == [];
    assert Number([b]) == b + 256 * Number([]);
  }

  lemma LowWord(v: nat)
    ensures v % 256 + 256 * (v / 256 % 256) == v % 0x1_0000 && v / 256 / 256 == v / 0x1_0000
  {
    var q, r := v / 0x1_0000, v % 0x1_0000;
    assert v / 256 == 256 * q + r / 256;
  }

  lemma NumberOfFour(v: nat)
    ensures Number(LittleEndian(v, 4)) == v % 0x1_0000_0000
  {
    var low := LittleEndian(v, 2);
    var high := LittleEndian(v / 0x1_0000, 2);
    NumberOfTwo(v);
    NumberOfTwo(v / 0x1_0000);
    var a, b := v % 256, v / 256 % 256;
    var t := v / 256 / 256;
    assert t == v / 0x1_0000;
    assert LittleEndian(v, 4) == [a, b] + LittleEndian(t, 2);
    assert ([a, b] + LittleEndian(t, 2))[1..] == [b] + LittleEndian(t, 2);
    assert ([b] + LittleEndian(t, 2))[1..] == LittleEndian(t, 2);
    LowWord(v);
  }

  lemma {:induction false} ZeroFound(data: seq<byte>, at: nat, s: seq<byte>)
    requires NoZero(s) && At(data, at, s + [0])
    ensures FindZero(data, at) == at + |s|
    decreases |s|
  {
    var all := data[at..at + |s| + 1];
    if |s| == 0 {
      assert all[0] == data[at];
    } else {
      assert all[0] == data[at] == s[0];
      assert data[at + 1..at + 1 + |s|] == all[1..] == s[1..] + [0];
      ZeroFound(data, at + 1, s[1..]);
    }
  }

  lemma TextParses(data: seq<byte>, at: nat, t: Option<seq<byte>>)
    requires GoodText(t) && At(data, at, Text(t))
    ensures ParseText(data, at, t.Some?) == Some(Part(t, at + |Text(t)|))
  {
    if t.Some? {
      ZeroFound(data, at, t.value);
      var all := data[at..at + |t.value| + 1];
      assert all[..|t.value|] == t.value == data[at..at + |t.value|];
    }
  }

  lemma ExtraParses(data: seq<byte>, at: nat, h: Fields)
    requires At(data, at, (if h.extra.Some? then LittleEndian(|h.extra.value|, 2) else []) + Extra(h))
    ensures ParseExtra(data, at, h.extra.Some?)
        == Some(Part(Stored(h).extra, at + (if h.extra.Some? then 2 else 0) + |Extra(h)|))
  {
    if h.extra.Some? {
      var l, e := LittleEndian(|h.extra.value|, 2), Extra(h);
      NumberOfTwo(|h.extra.value|);
      AtParts(data, at, l, e);
    }
  }

  lemma AtParts(data: seq<byte>, at: nat, a: seq<byte>, b: seq<byte>)
    requires At(data, at, a + b)
    ensures At(data, at, a) && At(data, at + |a|, b)
  {
    var all := data[at..at + |a + b|];
    assert all[..|a|] == a && all[|a|..] == b;
  }

  lemma FlagsParse(h: Fields)
    ensures var f := Flags(h);
      && f < 32 && FlagSet(f, 1) == h.text && FlagSet(f, 2) == h.hcrc && FlagSet(f, 4) == h.extra.Some?
      && FlagSet(f, 8) == h.name.Some? && FlagSet(f, 16) == h.comment.Some?
  {
  }

  lemma FixedParses(data: seq<byte>, h: Fields, xfl: byte)
    requires At(data, 0, Fixed(h, xfl) + Extra(h))
    ensures |data| >= 10 && data[0] == 31 && data[1] == 139 && data[2] == 8 && data[3] == Flags(h)
    ensures Number(data[4..8]) == h.time % 0x1_0000_0000 && data[8] == xfl && data[9] == h.os % 256
    ensures ParseExtra(data, 10, h.extra.Some?) == Some(Part(Stored(h).extra, |Fixed(h, xfl)| + |Extra(h)|))
  {
    hide Flags, Number, LittleEndian, ParseExtra, Extra;
    var l := if h.extra.Some? then LittleEndian(|h.extra.value|, 2) else [];
    var id, time, two := [31, 139, 8, Flags(h)], LittleEndian(h.time, 4), [xfl, h.os % 256];
    assert Fixed(h, xfl) + Extra(h) == id + (time + (two + (l + Extra(h))));
    AtParts(data, 0, id, time + (two + (l + Extra(h))));
    AtParts(data, 4, time, two + (l + Extra(h)));
    AtParts(data, 8, two, l + Extra(h));
    NumberOfFour(h.time);
    ExtraParses(data, 10, h);
    FirstOf(data, 0, id);
    FirstOf(data, 8, two);
  }

  lemma FirstOf(data: seq<byte>, at: nat, part: seq<byte>)
    requires At(data, at, part)
    ensures forall i :: 0 <= i < |part| ==> data[at + i] == part[i]
  {
    forall i | 0 <= i < |part| ensures data[at + i] == part[i] {
      assert data[at..at + |part|][i] == data[at + i];
    }
  }

  lemma Nest(a: seq<byte>, b: seq<byte>, c: seq<byte>, d: seq<byte>, e: seq<byte>)
    ensures a + b + c + d + e == a + (b + (c + (d + e)))
    ensures At(a + b + c + d + e, 0, a + (b + (c + (d + e)))) && (a + b + c + d + e)[..|a + b + c|] == a + b + c
  {
  }

  lemma Layout(h: Fields, xfl: byte, rest: seq<byte>)
    ensures var data := Header(h, xfl) + rest; var at := |Fixed(h, xfl) + Extra(h)|; var end := |BeforeCrc(h, xfl)|;
      && At(data, 0, Fixed(h, xfl) + Extra(h)) && At(data, at, Text(h.name))
      && At(data, at + |Text(h.name)|, Text(h.comment))
      && end == at + |Text(h.name)| + |Text(h.comment)| && data[..end] == BeforeCrc(h, xfl)
      && (h.hcrc ==> At(data, end, Crc16(BeforeCrc(h, xfl))))
  {
    hide Fixed, Extra, Text, Crc16;
    var data := Header(h, xfl) + rest;
    var fe, n, c := Fixed(h, xfl) + Extra(h), Text(h.name), Text(h.comment);
    var crc := if h.hcrc then Crc16(BeforeCrc(h, xfl)) else [];
    var tail := crc + rest;
    Nest(fe, n, c, crc, rest);
    AtParts(data, 0, fe, n + (c + tail));
    AtParts(data, |fe|, n, c + tail);
    AtParts(data, |fe| + |n|, c, tail);
    AtParts(data, |fe| + |n| + |c|, crc, rest);
  }

  /** Parsing a header that was written gives back its fields, and where the compressed data starts. */
  lemma HeaderParses(h: Fields, xfl: byte, rest: seq<byte>)
    requires GoodFields(h)
    ensures Parse(Header(h, xfl) + rest) == Some(Parsed(Stored(h), xfl, |Header(h, xfl)|))
  {
    hide Fixed, Extra, Text, ParseExtra, ParseText, Flags, FlagSet, Number, BeforeCrc, GoodText, LittleEndian;
    hide CrcSpec.Update;
    var data, at := Header(h, xfl) + rest, |Fixed(h, xfl) + Extra(h)|;
    Layout(h, xfl, rest);
    FlagsParse(h);
    FixedParses(data, h, xfl);
    TextParses(data, at, h.name);
    TextParses(data, at + |Text(h.name)|, h.comment);
    NumberOfTwo(CrcSpec.Update(0, BeforeCrc(h, xfl)));
  }
}
