/** The check value kept over the input: none, Adler-32 (RFC 1950) or CRC-32 (RFC 1952). */
module CheckValue {
  import opened Bits
  import Adler32
  import CrcSpec

  datatype Wrap = Raw | Zlib | Gzip

  /** adler32(0, Z_NULL, 0) or crc32(0, Z_NULL, 0). */
  function Start(w: Wrap): u32 {
    if w == Gzip then 0 else 1
  }

  /** The check value after more data. */
  function CheckFrom(w: Wrap, a: u32, data: seq<byte>): u32 {
    match w
    case Raw => a
    case Zlib => AdlerWord(a, data); Adler32.Defined(a, data)
    case Gzip => CrcSpec.Update(a, data)
  }

  /** The check value of a whole message. */
  function CheckOf(w: Wrap, data: seq<byte>): u32 {
    CheckFrom(w, Start(w), data)
  }

  lemma AdlerWord(a: u32, data: seq<byte>)
    ensures Adler32.Defined(a, data) < 0x1_0000_0000
  {
    Adler32.ModuloTwice(Adler32.Split(a));
    Adler32.AdlerReduced(Adler32.Modulo(Adler32.Split(a)), data);
  }

  /** An Adler-32 value is its two halves again. */
  lemma SplitJoin(s: Adler32.Sums)
    requires s.s1 < Adler32.BASE && s.s2 < Adler32.BASE
    ensures Adler32.Join(s) < 0x1_0000_0000 && Adler32.Modulo(Adler32.Split(Adler32.Join(s))) == s
  {
  }

  /** Updating the value with one buffer after another is checking the whole. */
  lemma CheckConcat(w: Wrap, a: u32, x: seq<byte>, y: seq<byte>)
    ensures CheckFrom(w, a, x + y) == CheckFrom(w, CheckFrom(w, a, x), y)
  {
    match w {
      case Raw =>
      case Zlib =>
        var s := Adler32.Modulo(Adler32.Split(a));
        Adler32.ModuloTwice(Adler32.Split(a));
        Adler32.AdlerConcat(s, x, y);
        Adler32.AdlerReduced(s, x);
        SplitJoin(Adler32.Adler(s, x));
      case Gzip =>
        CrcSpec.UpdateConcat(a, x, y);
    }
  }

  lemma CheckEmpty(w: Wrap)
    ensures CheckOf(w, []) == Start(w)
  {
    if w == Gzip {
      XorZero(CrcSpec.ALL_ONES);
      XorSelf(CrcSpec.ALL_ONES);
    }
  }
}
