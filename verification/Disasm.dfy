/** cs_disasm() and cs_disasm_iter() of capstone/cs.c: the loop, the growing array, and the bookkeeping of
    position and address, around an abstract decoder and without a skipdata callback. */
module Disasm {
  import opened Bits
  import opened Lz77

  const INSN_CACHE_SIZE: nat := 32

  type u64 = x: int | 0 <= x < 0x1_0000_0000_0000_0000

  datatype Decoded = Decoded(size: nat, id: nat)

  /** A disassembled instruction, or data skipped (id 0). */
  datatype Insn = Insn(address: u64, size: nat, id: nat, bytes: seq<byte>)

  /** The decoder for given code at a given address, and the skipdata options. */
  datatype Handle = Handle(decode: (seq<byte>, u64) -> Option<Decoded>, skipdata: bool, skipdataSize: nat)

  /** A decoder reads at least one byte, and none beyond the code; skipping skips something. */
  ghost predicate Good(h: Handle) {
    && (h.skipdata ==> 1 <= h.skipdataSize < 256)
    && forall code: seq<byte>, a: u64 :: h.decode(code, a).Some? ==> 1 <= h.decode(code, a).value.size <= |code|
  }

  /** The instruction at the start of the code, or the data skipped there; None if neither is possible. */
  function First(h: Handle, code: seq<byte>, address: u64): (r: Option<Insn>)
    requires Good(h)
    ensures r.Some? ==>
      1 <= r.value.size <= |code| && r.value.bytes == code[..r.value.size] && r.value.address == address
  {
    match h.decode(code, address)
    case Some(d) => Some(Insn(address, d.size, d.id, code[..d.size]))
    case None =>
      if !h.skipdata || h.skipdataSize > |code| then None
      else Some(Insn(address, h.skipdataSize, 0, code[..h.skipdataSize]))
  }

  /** Addresses have 64 bits. */
  function After(address: u64, size: nat): u64 {
    (address + size) % 0x1_0000_0000_0000_0000
  }

  /** The linear sweep: one instruction after the other, up to `count` of them unless that is zero. */
  function Sweep(h: Handle, code: seq<byte>, address: u64, count: nat): seq<Insn>
    requires Good(h)
    decreases |code|
  {
    if |code| == 0 then []
    else
      match First(h, code, address)
      case None => []
      case Some(i) => [i] + if count == 1 then []
          else Sweep(h, code[i.size..], After(address, i.size), if count == 0 then 0 else count - 1)
  }

  function Covered(insns: seq<Insn>): seq<byte> {
    if |insns| == 0 then [] else insns[0].bytes + Covered(insns[1..])
  }

  /** Every instruction starts where the one before ends. */
  ghost predicate Adjacent(insns: seq<Insn>) {
    forall i :: 0 <= i < |insns| - 1 ==>
      insns[i + 1].address == (insns[i].address + insns[i].size) % 0x1_0000_0000_0000_0000
  }

  /** What the instructions take together. */
  function Total(insns: seq<Insn>): nat {
    if |insns| == 0 then 0 else insns[0].size + Total(insns[1..])
  }

  lemma AddMod(a: nat, m: nat, n: nat)
    ensures ((a + m) % 0x1_0000_0000_0000_0000 + n) % 0x1_0000_0000_0000_0000
        == (a + m + n) % 0x1_0000_0000_0000_0000
  {
  }

  /** The instructions are those at the start of the code, without gap or overlap, and where they end the
      count is reached, or the code ends, or nothing can be decoded or skipped. */
  ghost predicate Tiles(h: Handle, code: seq<byte>, address: u64, count: nat, s: seq<Insn>)
    requires Good(h)
  {
    var n := |Covered(s)|;
    && n <= |code| && Covered(s) == code[..n] && Adjacent(s)
    && (|s| > 0 ==> s[0].address == address) && (count > 0 ==> |s| <= count)
    && (|s| == count > 0 || n == |code| || First(h, code[n..], (address + n) % 0x1_0000_0000_0000_0000) == None)
  }

  lemma {:induction false} SweepTiles(h: Handle, code: seq<byte>, address: u64, count: nat)
    requires Good(h)
    ensures Tiles(h, code, address, count, Sweep(h, code, address, count))
    decreases |code|
  {
    hide Good, First, Tiles;
    if |code| > 0 && First(h, code, address).Some? {
      var i := First(h, code, address).value;
      if count == 1 {
        OneTile(h, code, address, i);
        assert [i] + [] == [i];
      } else {
        SweepTiles(h, code[i.size..], After(address, i.size), if count == 0 then 0 else count - 1);
        MoreTiles(h, code, address, count, i,
          Sweep(h, code[i.size..], After(address, i.size), if count == 0 then 0 else count - 1));
      }
    } else {
      NoTiles(h, code, address, count);
    }
  }

  lemma NoTiles(h: Handle, code: seq<byte>, address: u64, count: nat)
    requires Good(h) && (|code| == 0 || First(h, code, address) == None)
    ensures Tiles(h, code, address, count, [])
  {
    hide Good, First;
    assert code[0..] == code;
  }

  lemma OneTile(h: Handle, code: seq<byte>, address: u64, i: Insn)
    requires Good(h) && First(h, code, address) == Some(i)
    ensures Tiles(h, code, address, 1, [i])
  {
    hide Good, First;
    assert [i][1..] == [] && i.bytes + [] == i.bytes;
    assert Covered([i]) == i.bytes + Covered([i][1..]);
  }

  lemma MoreTiles(h: Handle, code: seq<byte>, address: u64, count: nat, i: Insn, t: seq<Insn>)
    requires Good(h) && count != 1 && First(h, code, address) == Some(i)
    requires Tiles(h, code[i.size..], After(address, i.size), if count == 0 then 0 else count - 1, t)
    ensures Tiles(h, code, address, count, [i] + t)
  {
    hide Good, First;
    var s, n, rest := [i] + t, |Covered(t)|, code[i.size..];
    assert s[1..] == t;
    assert code[..i.size] + rest[..n] == code[..i.size + n];
    assert rest[n..] == code[i.size + n..];
    AddMod(address, i.size, n);
    forall k | 0 <= k < |s| - 1
      ensures s[k + 1].address == (s[k].address + s[k].size) % 0x1_0000_0000_0000_0000
    {
      if k > 0 {
        assert t[k - 1 + 1].address == (t[k - 1].address + t[k - 1].size) % 0x1_0000_0000_0000_0000;
      }
    }
  }

  /** Instruction k is at the start plus the sizes of all before it, modulo 2^64. */
  lemma {:induction false} SweepAddresses(h: Handle, code: seq<byte>, address: u64, count: nat, k: nat)
    requires Good(h) && k < |Sweep(h, code, address, count)|
    ensures var s := Sweep(h, code, address, count);
      s[k].address == (address + Total(s[..k])) % 0x1_0000_0000_0000_0000
    decreases k
  {
    hide Good, First;
    var s := Sweep(h, code, address, count);
    if k > 0 {
      var i, rest := s[0], if count == 0 then 0 else count - 1;
      SweepStep(h, code, address, count);
      SweepAddresses(h, code[i.size..], After(address, i.size), rest, k - 1);
      assert s[..k][1..] == s[1..][..k - 1];
      AddMod(address, i.size, Total(s[1..][..k - 1]));
    }
  }

  /** cs_disasm_iter(): the code, its size and the address move on in place. */
  class Cursor {
    const h: Handle
    var code: seq<byte>
    var address: u64

    constructor (h: Handle, code: seq<byte>, address: u64)
      ensures this.h == h && this.code == code && this.address == address
    {
      this.h, this.code, this.address := h, code, address;
    }

    method Next() returns (insn: Option<Insn>)
      requires Good(h)
      modifies this
      ensures insn == First(h, old(code), old(address))
      ensures if insn.Some? then code == old(code)[insn.value.size..] &&
              address == (old(address) + insn.value.size) % 0x1_0000_0000_0000_0000
              else code == old(code) && address == old(address)
    {
      var r := h.decode(code, address);
      var size := 0;
      if r.Some? {
        size := r.value.size;
        insn := Some(Insn(address, size, r.value.id, code[..size]));
      } else {
        if !h.skipdata || h.skipdataSize > |code| {
          return None;
        }
        size := h.skipdataSize;
        insn := Some(Insn(address, size, 0, code[..size]));
      }
      code := code[size..];
      address := After(address, size);
    }
  }

  /** realloc(): a copy in an array of another size. */
  method Resize(a: array<Insn>, n: nat, keep: nat) returns (b: array<Insn>)
    requires keep <= n && keep <= a.Length
    ensures fresh(b) && b.Length == n && b[..keep] == a[..keep]
  {
    b := new Insn[n](_ => Insn(0, 0, 0, []));
    forall i | 0 <= i < keep {
      b[i] := a[i];
    }
  }

  lemma SweepStep(h: Handle, code: seq<byte>, address: u64, count: nat)
    requires Good(h) && |code| > 0
    ensures var r := First(h, code, address); var s := Sweep(h, code, address, count);
      if r == None then s == []
      else s == [r.value] + if count == 1 then []
          else Sweep(h, code[r.value.size..], After(address, r.value.size), if count == 0 then 0 else count - 1)
  {
  }

  method Append(total: array<Insn>, c: nat, x: Insn)
    requires c < total.Length
    modifies total
    ensures total[..c + 1] == old(total[..c]) + [x]
  {
    total[c] := x;
  }

  /** The remaining part of the sweep after `c` instructions. */
  function Remaining(count: nat, c: nat): nat
    requires count > 0 ==> c < count
  {
    if count == 0 then 0 else count - c
  }

  lemma Regroup(a: seq<Insn>, x: Insn, b: seq<Insn>)
    ensures a + ([x] + b) == (a + [x]) + b
  {
  }

  /** Stepping through the code with the iterator, up to `limit` times unless that is zero, is the linear sweep;
      code and address have moved on by all that was disassembled. */
  method StepThrough(it: Cursor, limit: nat) returns (insns: seq<Insn>)
    requires Good(it.h)
    modifies it
    ensures insns == Sweep(it.h, old(it.code), old(it.address), limit)
    ensures Total(insns) <= |old(it.code)| && it.code == old(it.code)[Total(insns)..]
    ensures it.address == (old(it.address) + Total(insns)) % 0x1_0000_0000_0000_0000
  {
    hide Good, First, Sweep, Total;
    insns := [];
    ghost var rest := Sweep(it.h, it.code, it.address, limit);
    NoneTaken();
    while |it.code| > 0
      invariant (limit > 0 ==> |insns| < limit) && insns + rest == Sweep(it.h, old(it.code), old(it.address), limit)
      invariant rest == Sweep(it.h, it.code, it.address, Remaining(limit, |insns|))
      invariant Total(insns) <= |old(it.code)| && it.code == old(it.code)[Total(insns)..]
      invariant it.address == (old(it.address) + Total(insns)) % 0x1_0000_0000_0000_0000
      decreases |it.code|
    {
      SweepStep(it.h, it.code, it.address, Remaining(limit, |insns|));
      var insn := it.Next();
      if insn == None {
        return;
      }
      ghost var tail := rest[1..];
      assert rest == [insn.value] + tail;
      Regroup(insns, insn.value, tail);
      OneMoreTaken(insns, insn.value);
      AddMod(old(it.address), Total(insns), insn.value.size);
      insns := insns + [insn.value];
      rest := tail;
      if limit > 0 && |insns| == limit {
        return;
      }
    }
    NothingLeft(it.h, it.code, it.address);
  }

  lemma NoneTaken()
    ensures Total([]) == 0
  {
  }

  lemma {:induction false} OneMoreTaken(insns: seq<Insn>, x: Insn)
    ensures Total(insns + [x]) == Total(insns) + x.size
  {
    if insns == [] {
      assert [x][1..] == [] && [] + [x] == [x];
    } else {
      OneMoreTaken(insns[1..], x);
      assert (insns + [x])[1..] == insns[1..] + [x];
    }
  }

  /** cs_disasm(): the instructions in an array of exactly their number; the array grows by 8/5 of the last
      increment whenever it is full, and is cut to size in the end. `cacheSize` is what it starts with. */
  method DisasmAll(h: Handle, start: seq<byte>, offset: u64, count: nat, initial: nat)
    returns (insn: array<Insn>, c: nat)
    requires Good(h) && 1 <= initial <= INSN_CACHE_SIZE
    ensures insn[..] == Sweep(h, start, offset, count) && c == insn.Length
  {
    hide Good, First, Sweep, After;
    var code, address := start, offset;
    var cacheSize, f: nat := initial, 0;
    c := 0;
    var total := new Insn[cacheSize](_ => Insn(0, 0, 0, []));
    ghost var rest := Sweep(h, start, offset, count);
    while |code| > 0
      invariant c + (cacheSize - f) == total.Length && f < cacheSize && fresh(total)
      invariant count > 0 ==> c < count
      invariant total[..c] + rest == Sweep(h, start, offset, count)
      invariant rest == Sweep(h, code, address, Remaining(count, c))
      decreases |code|
    {
      var r := First(h, code, address);
      SweepStep(h, code, address, Remaining(count, c));
      if r == None {
        break;
      }
      ghost var tail := rest[1..];
      assert rest == [r.value] + tail;
      Regroup(total[..c], r.value, tail);
      Append(total, c, r.value);
      f := f + 1;
      c := c + 1;
      rest := tail;
      if count > 0 && c == count {
        break;
      }
      if f == cacheSize {
        cacheSize := cacheSize * 8 / 5;
        total := Resize(total, total.Length + cacheSize, c);
        f := 0;
      }
      code := code[r.value.size..];
      address := After(address, r.value.size);
    }
    NothingLeft(h, code, address);
    if c == 0 {
      total := new Insn[0];
    } else if f != cacheSize {
      total := Resize(total, total.Length - (cacheSize - f), c);
    }
    insn := total;
  }

  lemma NothingLeft(h: Handle, code: seq<byte>, address: u64)
    requires Good(h)
    ensures |code| == 0 ==> forall count: nat :: Sweep(h, code, address, count) == []
  {
  }
}
