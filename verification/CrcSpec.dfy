/** What a CRC-32 is: the register fed bit by bit, its description as a polynomial remainder, and
    how the registers of concatenated messages combine. */
module CrcSpec {
  import opened Bits
  import opened CrcPoly

  const ALL_ONES: u32 := 0xffff_ffff

  /** The register after feeding one byte: eight single-bit steps. */
  function CrcByte(reg: u32, b: byte): u32 {
    MulXn(Xor32Of(reg, b), 8)
  }

  /** The register after feeding a message, without pre- or post-conditioning. */
  function Crc(reg: u32, data: seq<byte>): u32 {
    if |data| == 0 then reg else CrcByte(Crc(reg, data[..|data| - 1]), data[|data| - 1])
  }

  /** The checksum crc32() maintains: running value in, running value out. */
  function Update(crc: u32, data: seq<byte>): u32 {
    Xor32Of(Crc(Xor32Of(crc, ALL_ONES), data), ALL_ONES)
  }

  /** A byte as a polynomial: its low bit is the coefficient of x^7. */
  function BytePoly(b: byte): u32 {
    Pow2Values();
    ShlBound(b, 8, 24);
    Shl(b, 24)
  }

  /** The message as a polynomial modulo the CRC polynomial, the first bit the highest power. */
  function Message(data: seq<byte>): u32 {
    if |data| == 0 then 0
    else Xor32Of(MulXn(Message(data[..|data| - 1]), 8), BytePoly(data[|data| - 1]))
  }

  lemma {:induction false} ShiftDown(b: byte, k: nat)
    requires k <= 24
    ensures Shl(b, k) < 0x1_0000_0000 && MulXn(Shl(b, k), k) == b
  {
    Pow2Values();
    ShlBound(b, 8, k);
    Pow2Up(8 + k, 32);
    if k > 0 {
      ShiftDown(b, k - 1);
      MulXnAdd(Shl(b, k), 1, k - 1);
      assert MulXn(Shl(b, k), 1) == MulX(MulXn(Shl(b, k), 0)) == Shl(b, k - 1);
    }
  }

  lemma BytePolyShifted(b: byte)
    ensures MulXn(BytePoly(b), 24) == b
  {
    ShiftDown(b, 24);
  }

  /** The register started at zero is the message times x^32, modulo the CRC polynomial. */
  lemma {:induction false} CrcIsRemainder(data: seq<byte>)
    ensures Crc(0, data) == MulXn(Message(data), 32)
  {
    hide Xor, MulX, Shl;
    if |data| == 0 {
      MulXnZero(0, 32);
    } else {
      var n := |data| - 1;
      var m, b := Message(data[..n]), data[n];
      CrcIsRemainder(data[..n]);
      BytePolyShifted(b);
      // x^8 * (x^32 * m + x^24 * b) == x^32 * (x^8 * m + b)
      MulXnAdd(m, 32, 8);
      MulXnAdd(m, 8, 32);
      MulXnAdd(BytePoly(b), 24, 8);
      MulXnLinear(MulXn(m, 32), b, 8);
      MulXnLinear(MulXn(m, 8), BytePoly(b), 32);
    }
  }

  lemma {:induction false} CrcConcat(reg: u32, a: seq<byte>, b: seq<byte>)
    ensures Crc(reg, a + b) == Crc(Crc(reg, a), b)
  {
    if |b| == 0 {
      assert a + b == a;
    } else {
      var n := |b| - 1;
      assert (a + b)[..|a + b| - 1] == a + b[..n];
      CrcConcat(reg, a, b[..n]);
    }
  }

  /** The starting register and the message contribute independently. */
  lemma {:induction false} CrcLinear(reg: u32, data: seq<byte>)
    ensures Crc(reg, data) == Xor(MulXn(reg, 8 * |data|), Crc(0, data))
  {
    if |data| == 0 {
      XorZero(reg);
    } else {
      var n := |data| - 1;
      CrcLinear(reg, data[..n]);
      ByteLinear(MulXn(reg, 8 * n), Crc(0, data[..n]), data[n]);
      MulXnAdd(reg, 8 * n, 8);
    }
  }

  /** crc32() in full, for any running value: the register starts as the complement of that value, is moved on
      by the length of the message, the message times x^32 is added, and the sum is complemented. */
  lemma UpdateIsRemainder(crc: u32, data: seq<byte>)
    ensures Xor(crc, 0xffff_ffff) < 0x1_0000_0000
    ensures Update(crc, data) ==
      Xor(Xor(MulXn(Xor(crc, 0xffff_ffff), 8 * |data|), MulXn(Message(data), 32)), 0xffff_ffff)
    ensures Update(0, data) == Xor(Xor(MulXn(0xffff_ffff, 8 * |data|), MulXn(Message(data), 32)), 0xffff_ffff)
  {
    hide MulXn, Xor;
    Xor32(crc, 0xffff_ffff);
    CrcIsRemainder(data);
    CrcLinear(Xor(crc, 0xffff_ffff), data);
    CrcLinear(0xffff_ffff, data);
    XorZero(0xffff_ffff);
  }

  lemma ByteLinear(r: u32, z: u32, b: byte)
    ensures CrcByte(Xor32Of(r, z), b) == Xor(MulXn(r, 8), CrcByte(z, b))
  {
    hide MulXn, Xor;
    XorAssoc(r, z, b);
    MulXnLinear(r, Xor32Of(z, b), 8);
  }

  /** Checksums of concatenated messages: shift the first over the length of the second. */
  lemma UpdateConcat(crc: u32, a: seq<byte>, b: seq<byte>)
    ensures Update(crc, a + b) == Update(Update(crc, a), b)
    ensures Update(crc, a + b) == Xor(MulXn(Update(crc, a), 8 * |b|), Update(0, b))
  {
    hide MulXn;
    var start := Xor32Of(crc, ALL_ONES);
    var r := Crc(start, a);
    var n := 8 * |b|;
    CrcConcat(start, a, b);
    XorCancel(ALL_ONES, r);
    CrcLinear(r, b);
    XorZero(ALL_ONES);
    CrcLinear(ALL_ONES, b);
    MulXnLinear(r, ALL_ONES, n);
    var x, o, z := MulXn(r, n), MulXn(ALL_ONES, n), Crc(0, b);
    XorAssoc(x, z, ALL_ONES);
    XorAssoc(o, z, ALL_ONES);
    XorAssoc(x, o, Xor(o, Xor(z, ALL_ONES)));
    XorCancel(o, Xor(z, ALL_ONES));
  }

  lemma {:induction false} ShiftByte(u: nat, k: nat)
    requires Shl(u, k) < 0x1_0000_0000
    ensures u < 0x1_0000_0000 && MulXn(Shl(u, k), k) == u
  {
    if k > 0 {
      ShiftByte(u, k - 1);
      MulXnAdd(Shl(u, k), 1, k - 1);
      assert MulXn(Shl(u, k), 1) == MulX(MulXn(Shl(u, k), 0)) == Shl(u, k - 1);
    }
  }

  /** Eight steps at once: the high bits move down, the low byte is replaced by its own CRC. */
  lemma EightSteps(v: u32)
    ensures MulXn(v, 8) == Xor(v / 256, MulXn(v % 256, 8))
  {
    hide MulXn;
    var u := v / 256;
    Pow2Values();
    Shl8(u);
    Shl8(0);
    XorFields(u, 0, 0, v % 256, 8);
    XorZero(u);
    XorZero(v % 256);
    ShiftByte(u, 8);
    MulXnLinear(256 * u, v % 256, 8);
  }

  /** The byte-wise table step of crc32.c is the eight single-bit steps. */
  lemma TableStep(reg: u32, b: byte)
    ensures Xor(reg, b) % 256 < 256
    ensures CrcByte(reg, b) == Xor(reg / 256, MulXn(Xor(reg, b) % 256, 8))
  {
    XorShift8(reg, b);
    XorZero(reg / 256);
    EightSteps(Xor32Of(reg, b));
  }
}
