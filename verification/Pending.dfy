/** The output side of deflate(): the bit buffer and the pending buffer. Everything put into them comes
    out in order, however little output space each call provides. */
module Pending {
  import opened Bits

  /** The low `n` bits of a value, in the order they are sent. */
  function LowBits(v: nat, n: nat): (r: seq<bool>)
    ensures |r| == n
  {
    if n == 0 then [] else [v % 2 == 1] + LowBits(v / 2, n - 1)
  }

  function ByteBits(data: seq<byte>): (r: seq<bool>)
    ensures |r| == 8 * |data|
  {
    if data == [] then [] else ByteBits(data[..|data| - 1]) + LowBits(data[|data| - 1], 8)
  }

  function Zeros(n: nat): (r: seq<bool>)
    ensures |r| == n
  {
    LowBits(0, n)
  }

  lemma {:induction false} BitsSplit(v: nat, a: nat, b: nat)
    ensures LowBits(v, a + b) == LowBits(v, a) + LowBits(Shr(v, a), b)
  {
    if a > 0 {
      BitsSplit(v / 2, a - 1, b);
    }
  }

  lemma {:induction false} BitsLow(v: nat, w: nat, n: nat)
    requires Low(v, n) == Low(w, n)
    ensures LowBits(v, n) == LowBits(w, n)
  {
    if n > 0 {
      BitsLow(v / 2, w / 2, n - 1);
    }
  }

  lemma {:induction false} ShrShl(lo: nat, hi: nat, k: nat)
    requires lo < Pow2(k)
    ensures Shr(lo + Shl(hi, k), k) == hi && Low(lo + Shl(hi, k), k) == lo
  {
    if k > 0 {
      assert (lo + Shl(hi, k)) / 2 == lo / 2 + Shl(hi, k - 1);
      ShrShl(lo / 2, hi, k - 1);
    }
  }

  /** A value placed above bit `k` comes after the bits below. */
  lemma BitsJoin(lo: nat, hi: nat, k: nat, n: nat)
    requires lo < Pow2(k)
    ensures LowBits(lo + Shl(hi, k), k + n) == LowBits(lo, k) + LowBits(hi, n)
  {
    ShrShl(lo, hi, k);
    LowAll(lo, k);
    BitsSplit(lo + Shl(hi, k), k, n);
    BitsLow(lo + Shl(hi, k), lo, k);
  }

  /** What does not fit into sixteen bits is left over. */
  lemma BitsCut(lo: nat, hi: nat, k: nat, n: nat)
    requires lo < Pow2(k) && k <= 16 <= k + n
    ensures LowBits(Low(lo + Shl(hi, k), 16), 16) + LowBits(Shr(hi, 16 - k), k + n - 16)
        == LowBits(lo, k) + LowBits(hi, n)
  {
    BitsJoin(lo, hi, k, 16 - k);
    BitsSplit(hi, 16 - k, k + n - 16);
    LowTwice(lo + Shl(hi, k), 16);
    BitsLow(Low(lo + Shl(hi, k), 16), lo + Shl(hi, k), 16);
  }

  lemma {:induction false} LowTwice(a: nat, n: nat)
    ensures Low(Low(a, n), n) == Low(a, n)
  {
    LowBound(a, n);
    LowAll(Low(a, n), n);
  }

  lemma OneByte(b: byte)
    ensures ByteBits([b]) == LowBits(b, 8)
  {
    assert [b][..0] == [];
  }

  lemma {:induction false} ByteBitsConcat(a: seq<byte>, b: seq<byte>)
    ensures ByteBits(a + b) == ByteBits(a) + ByteBits(b)
  {
    if b == [] {
      assert a + b == a;
    } else {
      ByteBitsConcat(a, b[..|b| - 1]);
      assert (a + b)[..|a + b| - 1] == a + b[..|b| - 1];
    }
  }

  lemma TwoBytes(w: nat)
    requires w < 0x1_0000
    ensures ByteBits([w % 256, w / 256]) == LowBits(w, 16)
  {
    Pow2Values();
    OneByte(w % 256);
    OneByte(w / 256);
    assert [w % 256, w / 256] == [w % 256] + [w / 256];
    ByteBitsConcat([w % 256], [w / 256]);
    Shl8(w / 256);
    BitsJoin(w % 256, w / 256, 8, 8);
  }

  /** Above its valid bits the bit buffer is clear. */
  lemma BitsPad(v: nat, k: nat, n: nat)
    requires v < Pow2(k)
    ensures LowBits(v, k + n) == LowBits(v, k) + Zeros(n)
  {
    LowAll(v, k);
    BitsSplit(v, k, n);
  }

  lemma {:induction false} ShrBound(v: nat, j: nat, k: nat)
    requires v < Pow2(j + k)
    ensures Shr(v, k) < Pow2(j)
  {
    if k > 0 {
      ShrBound(v / 2, j, k - 1);
    }
  }

  /** The header of a stored block at bit position `at`: the final-block flag and two bits of type, zeros
      up to a byte boundary, then LEN and its complement (RFC 1951, section 3.2.4). */
  function StoredHead(at: nat, len: nat, last: bool): seq<bool>
    requires len < 0x1_0000
  {
    [last, false, false] + Zeros(PadTo8(at + 3)) + LowBits(len, 16) + LowBits(0xffff - len, 16)
  }

  function PadTo8(at: nat): (n: nat)
    ensures (at + n) % 8 == 0 && n < 8
  {
    (8 - at % 8) % 8
  }

  class Output {
    const size: nat
    const buf: array<byte>
    var pending: nat
    var pendingOut: nat
    var biBuf: nat
    var biValid: nat
    var availOut: nat
    var delivered: seq<byte>

    // Every byte ever put, and how many of those precede the compressed data.
    ghost var put: seq<byte>
    ghost var start: nat

    /** What was delivered and the pending bytes are, together, what was put. Nothing remains in front of
        the pending bytes when a byte is put, and the bit buffer has been emptied by then. */
    ghost predicate Valid()
      reads `pending, `pendingOut, `biBuf, `biValid, `delivered, `put, `start, buf
    {
      && size >= 512 && buf.Length == size
      && pendingOut + pending + biValid / 8 <= size && (pending == 0 ==> pendingOut == 0)
      && delivered + buf[pendingOut..pendingOut + pending] == put
      && biValid <= 16 && biBuf < Pow2(biValid) && (pendingOut > 0 ==> biValid < 8)
      && start <= |put|
    }

    /** Ready for more: nothing is pending except less than a byte of bits. */
    ghost predicate Clear()
      reads `pending, `pendingOut, `biBuf, `biValid, `delivered, `put, `start, buf
    {
      Valid() && pending == 0 && biValid < 8
    }

    /** As flush_pending() leaves it. */
    ghost predicate Flushed()
      reads this, buf
    {
      Rest() && (pending != 0 ==> availOut == 0)
    }

    /** Between operations: at most seven bits wait in the bit buffer. */
    ghost predicate Rest()
      reads `pending, `pendingOut, `biBuf, `biValid, `delivered, `put, `start, buf
    {
      Valid() && biValid < 8
    }

    /** The bytes put before the compressed data. */
    ghost function Lead(): seq<byte>
      requires start <= |put|
      reads `put, `start
    {
      put[..start]
    }

    /** The compressed data as bits. */
    ghost function BitStream(): seq<bool>
      requires start <= |put|
      reads `put, `start, `biBuf, `biValid
    {
      ByteBits(put[start..]) + LowBits(biBuf, biValid)
    }

    constructor (size: nat)
      requires size >= 512
      ensures this.size == size && buf.Length == size && fresh(buf)
    {
      this.size := size;
      buf := new byte[size];
    }

    /** The part of deflateResetKeep() and _tr_init() that concerns output: nothing is pending. */
    method Reset()
      requires size >= 512 && buf.Length == size
      modifies `pending, `pendingOut, `biBuf, `biValid, `delivered, `put, `start
      ensures Clear() && put == [] && delivered == [] && start == 0 && BitStream() == []
    {
      pending, pendingOut, biBuf, biValid, delivered := 0, 0, 0, 0, [];
      put, start := [], 0;
    }

    /** What has been put so far precedes the compressed data. */
    ghost method BodyStarts()
      requires Rest() && biValid == 0
      modifies `start
      ensures Rest() && start <= |put| && Lead() == put && BitStream() == []
    {
      hide Pow2;
      start := |put|;
      NoBits(biBuf);
      assert put[start..] == [];
    }

    /** put_byte. */
    method PutByte(b: byte)
      requires Valid() && pendingOut == 0 && pending + 1 + biValid / 8 <= size
      modifies `pending, `put, buf
      ensures Valid() && pending == old(pending) + 1 && put == old(put) + [b]
      ensures Lead() == old(Lead())
    {
      hide Pow2;
      buf[pending] := b;
      pending := pending + 1;
      put := put + [b];
      assert buf[..pending] == old(buf[..pending]) + [b];
    }

    /** Copying bytes to the end of the pending buffer. */
    method PutBytes(data: seq<byte>)
      requires Valid() && pendingOut == 0 && pending + |data| + biValid / 8 <= size
      modifies `pending, `put, buf
      ensures Valid() && pending == old(pending) + |data| && put == old(put) + data
      ensures Lead() == old(Lead())
    {
      hide Pow2;
      CopyIn(data);
      Appended(delivered, old(buf[..pending]), data, put);
      pending := pending + |data|;
      put := put + data;
    }

    method CopyIn(data: seq<byte>)
      requires pending + |data| <= buf.Length
      modifies buf
      ensures buf[0..pending + |data|] == old(buf[0..pending]) + data
    {
      var at := pending;
      forall i | 0 <= i < |data| {
        buf[at + i] := data[i];
      }
      assert buf[0..at] == old(buf[0..at]);
      assert buf[at..at + |data|] == data;
      assert buf[0..at + |data|] == buf[0..at] + buf[at..at + |data|];
    }

    lemma Appended(a: seq<byte>, b: seq<byte>, c: seq<byte>, ab: seq<byte>)
      requires a + b == ab
      ensures a + (b + c) == ab + c
    {
    }

    /** putShortMSB(). */
    method PutShortMSB(w: nat)
      requires w < 0x1_0000 && Valid() && pendingOut == 0 && pending + 2 + biValid / 8 <= size
      modifies `pending, `put, buf
      ensures Valid() && pending == old(pending) + 2 && put == old(put) + [w / 256, w % 256]
    {
      hide Pow2;
      PutByte(w / 256);
      PutByte(w % 256);
    }

    /** put_short, low byte first. */
    method PutShort(w: nat)
      requires w < 0x1_0000 && Valid() && pendingOut == 0 && pending + 2 + biValid / 8 <= size
      modifies `pending, `put, buf
      ensures Valid() && pending == old(pending) + 2 && put == old(put) + [w % 256, w / 256]
      ensures Lead() == old(Lead())
      ensures ByteBits(put[start..]) == old(ByteBits(put[start..])) + LowBits(w, 16)
    {
      hide Pow2, LowBits, ByteBits;
      PutByte(w % 256);
      PutByte(w / 256);
      TwoBytes(w);
      ByteBitsConcat(old(put[start..]), [w % 256, w / 256]);
      assert put[start..] == old(put[start..]) + [w % 256, w / 256];
    }

    /** send_bits(): the bits of a value follow all bits sent before. */
    method SendBits(value: nat, length: nat)
      requires Valid() && pendingOut == 0 && pending + 4 <= size
      requires 1 <= length <= 15 && value < Pow2(length)
      modifies `pending, `put, `biBuf, `biValid, buf
      ensures Valid() && BitStream() == old(BitStream()) + LowBits(value, length)
      ensures Lead() == old(Lead())
      ensures biValid == if old(biValid) > 16 - length then old(biValid) + length - 16 else old(biValid) + length
      ensures pending == old(pending) + if old(biValid) > 16 - length then 2 else 0
    {
      hide Pow2, LowBits, ByteBits, Or, Low, Shl, Shr;
      OrFields(biBuf, value, biValid);
      if biValid > 16 - length {
        BitsCut(biBuf, value, biValid, length);
        LowBound(biBuf + Shl(value, biValid), 16);
        ShrBound(value, biValid + length - 16, 16 - biValid);
        Pow2Values();
        var full := Low(Or(biBuf, Shl(value, biValid)), 16);
        biBuf, biValid := Shr(value, 16 - biValid), biValid + length - 16;
        PutShort(full);
        Regroup(old(ByteBits(put[start..])), LowBits(full, 16), LowBits(biBuf, biValid), old(LowBits(biBuf, biValid)),
          LowBits(value, length));
      } else {
        BitsJoin(biBuf, value, biValid, length);
        ShlBound(value, length, biValid);
        JoinBound(biBuf, value, biValid, length);
        biBuf, biValid := Or(biBuf, Shl(value, biValid)), biValid + length;
      }
    }

    /** bi_flush(): at most seven bits stay in the bit buffer. */
    method BiFlush()
      requires Valid()
      modifies `pending, `put, `biBuf, `biValid, buf
      ensures Valid() && biValid < 8 && BitStream() == old(BitStream()) && old(put) <= put
      ensures Lead() == old(Lead())
      ensures pending == old(pending) + old(biValid) / 8
      ensures old(biValid) < 8 ==> put == old(put) && biValid == old(biValid)
    {
      hide Pow2, LowBits, ByteBits, Low;
      if biValid == 16 {
        Pow2Values();
        var w := biBuf;
        NoBits(w);
        NoBits(0);
        biBuf, biValid := 0, 0;
        PutShort(w);
      } else if biValid >= 8 {
        ghost var k := biValid - 8;
        FirstByte(biBuf, k);
        var b := biBuf % 256;
        biBuf, biValid := Shr(biBuf, 8), biValid - 8;
        PutByte(b);
        AfterByte(old(put), start, b);
        Regroup(old(ByteBits(put[start..])), LowBits(b, 8), LowBits(biBuf, biValid), old(LowBits(biBuf, biValid)), []);
      }
    }

    /** bi_windup(): the bits are filled up to a byte with zeros. */
    method BiWindup()
      requires Valid() && pendingOut == 0 && pending + 2 <= size
      modifies `pending, `put, `biBuf, `biValid, buf
      ensures Valid() && biValid == 0 && BitStream() == old(BitStream()) + Zeros(PadTo8(|old(BitStream())|))
      ensures Lead() == old(Lead())
      ensures pending == old(pending) + (old(biValid) + 7) / 8
    {
      hide *;
      if biValid > 8 {
        WindTwo();
      } else if biValid > 0 {
        WindOne();
      } else {
        NothingToWind();
      }
    }

    lemma NothingToWind()
      requires Valid() && biValid == 0
      ensures BitStream() == BitStream() + Zeros(PadTo8(|BitStream()|))
    {
    }

    method WindTwo()
      requires Valid() && pendingOut == 0 && pending + 2 <= size && biValid > 8
      modifies `pending, `put, `biBuf, `biValid, buf
      ensures Valid() && biValid == 0 && BitStream() == old(BitStream()) + Zeros(PadTo8(|old(BitStream())|))
      ensures Lead() == old(Lead())
      ensures pending == old(pending) + (old(biValid) + 7) / 8
    {
      hide Pow2, LowBits, ByteBits, Zeros, PadTo8;
      var w := biBuf;
      Pow2Values();
      NoBits(0);
      PadIs(|put[start..]|, biValid);
      BitsPad(w, biValid, 16 - biValid);
      Pow2Up(biValid, 16);
      biBuf, biValid := 0, 0;
      PutShort(w);
      Regroup(old(ByteBits(put[start..])), LowBits(w, 16), [], old(LowBits(biBuf, biValid)), Zeros(16 - old(biValid)));
    }

    method WindOne()
      requires Valid() && pendingOut == 0 && pending + 2 <= size && 0 < biValid <= 8
      modifies `pending, `put, `biBuf, `biValid, buf
      ensures Valid() && biValid == 0 && BitStream() == old(BitStream()) + Zeros(PadTo8(|old(BitStream())|))
      ensures Lead() == old(Lead())
      ensures pending == old(pending) + (old(biValid) + 7) / 8
    {
      hide Pow2, LowBits, ByteBits, Zeros, PadTo8;
      var w := biBuf;
      Pow2Values();
      NoBits(0);
      PadIs(|put[start..]|, biValid);
      BitsPad(w, biValid, 8 - biValid);
      Pow2Up(biValid, 8);
      biBuf, biValid := 0, 0;
      PutByte(w);
      AfterByte(old(put), start, w);
      Regroup(old(ByteBits(put[start..])), LowBits(w, 8), [], old(LowBits(biBuf, biValid)), Zeros(8 - old(biValid)));
    }

    /** flush_pending(): as much as fits moves from the pending buffer to the output. */
    method FlushPending()
      requires Valid()
      modifies `pending, `pendingOut, `put, `biBuf, `biValid, `availOut, `delivered, buf
      ensures Flushed() && BitStream() == old(BitStream()) && old(put) <= put
      ensures Lead() == old(Lead())
      ensures old(delivered) <= delivered && |delivered| + availOut == old(|delivered| + availOut)
      ensures var n := old(pending) + old(biValid) / 8;
        if n <= old(availOut) then pending == 0 && availOut == old(availOut) - n
            else pending == n - old(availOut) && availOut == 0
      ensures old(availOut) == 0 ==> pendingOut == old(pendingOut)
      ensures old(biValid) < 8 ==> put == old(put) && biValid == old(biValid)
    {
      hide *;
      Started();
      BiFlush();
      Started();
      MovePending();
    }

    lemma UnfinishedByte()
      requires Rest()
      ensures start <= |put| && |BitStream()| % 8 == biValid
    {
    }

    lemma Started()
      requires Valid()
      ensures start <= |put|
    {
    }

    method MovePending()
      requires Valid() && biValid < 8
      modifies `pending, `pendingOut, `availOut, `delivered
      ensures Flushed()
      ensures old(delivered) <= delivered && |delivered| + availOut == old(|delivered| + availOut)
      ensures if old(pending) <= old(availOut) then pending == 0 && availOut == old(availOut) - old(pending)
              else pending == old(pending) - old(availOut) && availOut == 0
      ensures old(availOut) == 0 ==> pendingOut == old(pendingOut)
    {
      hide Pow2;
      var len := pending;
      if len > availOut {
        len := availOut;
      }
      if len == 0 {
        return;
      }
      ghost var all := buf[pendingOut..pendingOut + pending];
      assert all == buf[pendingOut..pendingOut + len] + buf[pendingOut + len..pendingOut + pending];
      delivered := delivered + buf[pendingOut..pendingOut + len];
      pendingOut := pendingOut + len;
      availOut := availOut - len;
      pending := pending - len;
      if pending == 0 {
        pendingOut := 0;
      }
    }

    /** Bytes copied straight to the output. */
    method Deliver(data: seq<byte>)
      requires Clear() && |data| <= availOut && biValid == 0
      modifies `put, `availOut, `delivered
      ensures Clear() && put == old(put) + data && delivered == old(delivered) + data
      ensures availOut == old(availOut) - |data|
      ensures Lead() == old(Lead())
      ensures BitStream() == old(BitStream()) + ByteBits(data)
    {
      hide Pow2, LowBits, ByteBits;
      NoBits(biBuf);
      ByteBitsConcat(put[start..], data);
      delivered := delivered + data;
      availOut := availOut - |data|;
      put := put + data;
      assert put[start..] == old(put[start..]) + data;
    }

    /** The header of _tr_stored_block(), which takes (bi_valid + 42) >> 3 bytes. */
    method StoredHeader(len: nat, last: bool)
      requires Valid() && pendingOut == 0 && len < 0x1_0000 && pending + 8 <= size
      modifies `pending, `put, `biBuf, `biValid, buf
      ensures Valid() && biValid == 0 && pending == old(pending) + (old(biValid) + 42) / 8
      ensures Lead() == old(Lead())
      ensures BitStream() == old(BitStream()) + StoredHead(|old(BitStream())|, len, last)
    {
      hide Pow2, LowBits, ByteBits, PadTo8, Zeros;
      BlockType(last);
      BiWindup();
      Lengths(len);
      HeadJoin(old(BitStream()), len, last);
    }

    /** Replacing the lengths in the header of an empty stored block. */
    method PatchLengths(len: nat, ghost before: seq<bool>, ghost last: bool)
      requires Valid() && pendingOut == 0 && len < 0x1_0000 && pending >= 4 && biValid == 0
      requires BitStream() == before + StoredHead(|before|, 0, last)
      modifies `put, buf
      ensures Valid() && BitStream() == before + StoredHead(|before|, len, last)
      ensures Lead() == old(Lead())
    {
      hide Pow2, LowBits, ByteBits, StoredHead, PadTo8, Zeros;
      ghost var a := before + [last, false, false] + Zeros(PadTo8(|before| + 3));
      NoBits(biBuf);
      HeadBits(before, 0, last);
      HeadBits(before, len, last);
      assert ByteBits(put[start..]) == a + LowBits(0, 16) + LowBits(0xffff, 16);
      LastFour(put[start..], a, 0, 0xffff);
      ghost var kept := put[start..|put| - 4];
      assert kept == put[start..][..|put[start..]| - 4];
      Patch(len);
      FourBytes(kept, len, 0xffff - len);
    }

    method Patch(len: nat)
      requires Valid() && pendingOut == 0 && len < 0x1_0000 && pending >= 4 && start + 4 <= |put|
      modifies `put, buf
      ensures Valid() && |put| == |old(put)|
      ensures put[start..] == old(put[start..|put| - 4]) + [len % 256, len / 256, (0xffff - len) % 256,
          (0xffff - len) / 256]
      ensures Lead() == old(Lead())
    {
      hide Pow2;
      var four := [len % 256, len / 256, 255 - len % 256, 255 - len / 256];
      PutFour(four);
      LastReplaced(delivered, old(buf[0..pending]), buf[0..pending], put, four);
      LeadKept(put, start, four);
      put := put[..|put| - 4] + four;
      assert pendingOut + pending == pending && delivered + buf[0..pending] == put;
    }

    method PutFour(four: seq<byte>)
      requires |four| == 4 && 4 <= pending <= buf.Length
      modifies buf
      ensures buf[0..pending] == old(buf[0..pending])[..pending - 4] + four
    {
      buf[pending - 4], buf[pending - 3], buf[pending - 2], buf[pending - 1] := four[0], four[1], four[2], four[3];
    }

    /** _tr_stored_block(). */
    method StoredBlock(data: seq<byte>, last: bool)
      requires Valid() && pendingOut == 0 && |data| < 0x1_0000 && pending + 8 <= size
      requires pending + (biValid + 42) / 8 + |data| <= size
      modifies `pending, `put, `biBuf, `biValid, buf
      ensures Valid() && biValid == 0 && pending == old(pending) + (old(biValid) + 42) / 8 + |data|
      ensures Lead() == old(Lead())
      ensures BitStream() == old(BitStream()) + StoredHead(|old(BitStream())|, |data|, last) + ByteBits(data)
    {
      hide Pow2, LowBits, ByteBits, StoredHead;
      StoredHeader(|data|, last);
      ghost var before := put;
      NoBits(biBuf);
      PutBytes(data);
      ByteBitsConcat(before[start..], data);
      assert put[start..] == before[start..] + data;
    }

    /** _tr_align(): an empty block with the fixed codes, whose end-of-block code is seven zeros. */
    method Align()
      requires Valid() && pendingOut == 0 && pending + 8 <= size
      modifies `pending, `put, `biBuf, `biValid, buf
      ensures Valid() && BitStream() == old(BitStream()) + [false, true, false] + Zeros(7) && biValid < 8
      ensures Lead() == old(Lead())
    {
      hide *;
      Pow2OfThree();
      Pow2OfSeven();
      TwoInThree();
      SendBits(2, 3);
      SendBits(0, 7);
      BiFlush();
    }

    method BlockType(last: bool)
      requires Valid() && pendingOut == 0 && pending + 8 <= size
      modifies `pending, `put, `biBuf, `biValid, buf
      ensures Valid() && BitStream() == old(BitStream()) + [last, false, false]
      ensures Lead() == old(Lead())
      ensures biValid == if old(biValid) > 13 then old(biValid) - 13 else old(biValid) + 3
      ensures pending == old(pending) + if old(biValid) > 13 then 2 else 0
    {
      hide *;
      Pow2OfThree();
      TypeBits(last);
      SendBits(if last then 1 else 0, 3);
    }

    /** The two length fields. */
    method Lengths(len: nat)
      requires Valid() && pendingOut == 0 && len < 0x1_0000 && pending + 4 <= size && biValid == 0
      modifies `pending, `put, buf
      ensures Valid() && pending == old(pending) + 4
      ensures Lead() == old(Lead())
      ensures BitStream() == old(BitStream()) + LowBits(len, 16) + LowBits(0xffff - len, 16)
    {
      hide Pow2, LowBits, ByteBits;
      NoBits(biBuf);
      PutShort(len);
      PutShort(0xffff - len);
    }
  }

  lemma {:induction false} LastFour(data: seq<byte>, a: seq<bool>, u: nat, v: nat)
    requires ByteBits(data) == a + LowBits(u, 16) + LowBits(v, 16)
    ensures |data| >= 4 && ByteBits(data[..|data| - 4]) == a
  {
    hide LowBits, ByteBits;
    var n := |data| - 4;
    assert data == data[..n] + data[n..];
    ByteBitsConcat(data[..n], data[n..]);
    assert ByteBits(data)[..8 * n] == ByteBits(data[..n]);
    assert ByteBits(data)[..8 * n] == a;
  }

  lemma FourBytes(data: seq<byte>, u: nat, v: nat)
    requires u < 0x1_0000 && v < 0x1_0000
    ensures ByteBits(data + [u % 256, u / 256, v % 256, v / 256]) == ByteBits(data) + LowBits(u, 16) + LowBits(v, 16)
  {
    hide LowBits, ByteBits;
    TwoBytes(u);
    TwoBytes(v);
    ByteBitsConcat(data, [u % 256, u / 256]);
    ByteBitsConcat(data + [u % 256, u / 256], [v % 256, v / 256]);
    assert data + [u % 256, u / 256, v % 256, v / 256] == data + [u % 256, u / 256] + [v % 256, v / 256];
  }

  lemma HeadBits(a: seq<bool>, len: nat, last: bool)
    requires len < 0x1_0000
    ensures a + StoredHead(|a|, len, last)
         == a + [last, false, false] + Zeros(PadTo8(|a| + 3)) + LowBits(len, 16) + LowBits(0xffff - len, 16)
  {
    HeadJoin(a, len, last);
  }

  lemma LastReplaced(a: seq<byte>, b: seq<byte>, b': seq<byte>, ab: seq<byte>, four: seq<byte>)
    requires a + b == ab && |b| >= 4 && b' == b[..|b| - 4] + four
    ensures a + b' == ab[..|ab| - 4] + four
  {
  }

  lemma LeadKept(put: seq<byte>, start: nat, four: seq<byte>)
    requires start + 4 <= |put| && |four| == 4
    ensures (put[..|put| - 4] + four)[..start] == put[..start]
    ensures (put[..|put| - 4] + four)[start..] == put[start..|put| - 4] + four
  {
  }

  lemma PadIs(bytes: nat, k: nat)
    requires 0 < k <= 16
    ensures PadTo8(8 * bytes + k) == if k <= 8 then 8 - k else 16 - k
  {
    assert 8 * bytes + k == 8 * (bytes + k / 8) + k % 8;
  }

  lemma HeadJoin(a: seq<bool>, len: nat, last: bool)
    requires len < 0x1_0000
    ensures a + [last, false, false] + Zeros(PadTo8(|a| + 3)) + LowBits(len, 16) + LowBits(0xffff - len, 16)
         == a + StoredHead(|a|, len, last)
  {
    hide LowBits, Zeros, PadTo8;
  }

  lemma NoBits(v: nat)
    ensures LowBits(v, 0) == []
  {
  }

  lemma Pow2OfSeven()
    ensures Pow2(7) > 0 && Zeros(7) == LowBits(0, 7)
  {
  }

  lemma TwoInThree()
    ensures LowBits(2, 3) == [false, true, false]
  {
    assert LowBits(1, 2) == [true, false];
  }

  lemma TypeBits(last: bool)
    ensures LowBits(if last then 1 else 0, 3) == [last, false, false]
  {
    assert LowBits(0, 2) == [false, false];
  }

  lemma FirstByte(v: nat, k: nat)
    requires v < Pow2(8 + k)
    ensures LowBits(v, 8 + k) == LowBits(v % 256, 8) + LowBits(Shr(v, 8), k)
    ensures Shr(v, 8) < Pow2(k)
  {
    BitsSplit(v, 8, k);
    ShrBound(v, k, 8);
    Pow2Values();
    Low8(v);
    LowAll(v % 256, 8);
    BitsLow(v, v % 256, 8);
  }

  lemma Low8(v: nat)
    ensures Low(v, 8) == v % 256
  {
    Pow2Values();
    Shl8(v / 256);
    ShrShl(v % 256, v / 256, 8);
  }

  lemma AfterByte(put: seq<byte>, start: nat, b: byte)
    requires start <= |put|
    ensures ByteBits((put + [b])[start..]) == ByteBits(put[start..]) + LowBits(b, 8)
  {
    OneByte(b);
    ByteBitsConcat(put[start..], [b]);
    assert (put + [b])[start..] == put[start..] + [b];
  }

  lemma Regroup(a: seq<bool>, b: seq<bool>, c: seq<bool>, b': seq<bool>, c': seq<bool>)
    requires b + c == b' + c'
    ensures a + b + c == a + b' + c'
  {
    assert a + b + c == a + (b + c);
    assert a + b' + c' == a + (b' + c');
  }

  lemma {:induction false} JoinBound(lo: nat, hi: nat, k: nat, n: nat)
    requires lo < Pow2(k) && hi < Pow2(n)
    ensures lo + Shl(hi, k) < Pow2(k + n)
  {
    if k > 0 {
      JoinBound(lo / 2, hi, k - 1, n);
    }
  }
}
