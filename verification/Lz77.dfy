/** The symbols a compressor emits and what a decompressor makes of them (RFC 1951, section 3.2). */
module Lz77 {
  import opened Bits

  const MIN_MATCH: nat := 3
  const MAX_MATCH: nat := 258

  /** Comparing in steps of eight from the third byte on, the test for the end comes when it is reached. */
  lemma EighthStep(k: nat)
    ensures k == MAX_MATCH ==> (k - 2) % 8 == 0
  {
  }

  datatype Option<+T> = None | Some(value: T)

  /** An entry of the symbol buffer: distance zero for a literal, else a distance and a length less 3. */
  datatype Sym = Sym(dist: nat, lc: byte)

  /** Copying a match byte by byte, so that it may overlap the bytes it produces. */
  function CopyMatch(out: seq<byte>, dist: nat, len: nat): (r: seq<byte>)
    requires 1 <= dist <= |out|
    ensures |r| == |out| + len
  {
    if len == 0 then out
    else
      var o := CopyMatch(out, dist, len - 1);
      o + [o[|o| - dist]]
  }

  function ExpandSym(out: seq<byte>, s: Sym): Option<seq<byte>> {
    if s.dist == 0 then Some(out + [s.lc])
    else if s.dist <= |out| then Some(CopyMatch(out, s.dist, s.lc + MIN_MATCH))
    else None
  }

  /** Appending the bytes a list of symbols stands for to the output so far. */
  function Expand(out: seq<byte>, syms: seq<Sym>): Option<seq<byte>> {
    if |syms| == 0 then Some(out)
    else
      match Expand(out, syms[..|syms| - 1])
      case None => None
      case Some(o) => ExpandSym(o, syms[|syms| - 1])
  }

  /** Distances are those the format allows. */
  ghost predicate InReach(syms: seq<Sym>) {
    forall i :: 0 <= i < |syms| ==> syms[i].dist <= 0x8000
  }

  /** Do the `len` bytes at `p` repeat those `dist` earlier? */
  ghost predicate Repeats(S: seq<byte>, p: nat, dist: nat, len: nat) {
    1 <= dist <= p && p + len <= |S| && forall i {:trigger S[i]} :: p <= i < p + len ==> S[i] == S[i - dist]
  }

  lemma {:induction false} CopyRepeats(S: seq<byte>, p: nat, dist: nat, len: nat)
    requires Repeats(S, p, dist, len)
    ensures CopyMatch(S[..p], dist, len) == S[..p + len]
  {
    if len > 0 {
      var q := p + len - 1;
      CopyRepeats(S, p, dist, len - 1);
      assert S[q] == S[q - dist] == S[..q][q - dist];
      assert S[..q] + [S[q]] == S[..q + 1];
    }
  }

  lemma ExpandLiteral(out: seq<byte>, syms: seq<Sym>, S: seq<byte>, p: nat)
    requires p < |S| && Expand(out, syms) == Some(S[..p])
    ensures Expand(out, syms + [Sym(0, S[p])]) == Some(S[..p + 1])
  {
    assert (syms + [Sym(0, S[p])])[..|syms|] == syms;
    assert S[..p] + [S[p]] == S[..p + 1];
  }

  lemma ExpandMatch(out: seq<byte>, syms: seq<Sym>, S: seq<byte>, p: nat, dist: nat, len: nat)
    requires MIN_MATCH <= len <= MAX_MATCH && Repeats(S, p, dist, len) && Expand(out, syms) == Some(S[..p])
    ensures Expand(out, syms + [Sym(dist, len - MIN_MATCH)]) == Some(S[..p + len])
  {
    assert (syms + [Sym(dist, len - MIN_MATCH)])[..|syms|] == syms;
    CopyRepeats(S, p, dist, len);
  }

  /** What can be expanded after some output can be expanded after more of it. */
  lemma {:induction false} CopyMore(before: seq<byte>, out: seq<byte>, dist: nat, len: nat)
    requires 1 <= dist <= |out|
    ensures CopyMatch(before + out, dist, len) == before + CopyMatch(out, dist, len)
  {
    if len > 0 {
      CopyMore(before, out, dist, len - 1);
      var o := CopyMatch(out, dist, len - 1);
      assert (before + o)[|before + o| - dist] == o[|o| - dist];
    }
  }

  lemma {:induction false} ExpandMore(before: seq<byte>, out: seq<byte>, syms: seq<Sym>)
    requires Expand(out, syms).Some?
    ensures Expand(before + out, syms) == Some(before + Expand(out, syms).value)
  {
    if |syms| > 0 {
      var n := |syms| - 1;
      ExpandMore(before, out, syms[..n]);
      var o := Expand(out, syms[..n]).value;
      if syms[n].dist == 0 {
        assert before + o + [syms[n].lc] == before + (o + [syms[n].lc]);
      } else {
        CopyMore(before, o, syms[n].dist, syms[n].lc + MIN_MATCH);
      }
    }
  }

  /** How a block was handed over for encoding: as tallied symbols, as bytes to store, or as an empty
      block with the fixed codes that only marks a flush. */
  datatype Form = Tallied | Stored | Empty

  /** The lengths of the codes built for a block: for literals and lengths, for distances, and for the
      items that describe both. */
  datatype Trees = Trees(ll: seq<nat>, dl: seq<nat>, bl: seq<nat>)

  const NO_TREES := Trees([], [], [])

  /** A block: its symbols, the same bytes verbatim when they are still at hand, its length if they are
      stored, the final-block flag, and the trees built for its symbols. */
  datatype Block = Block(form: Form, syms: seq<Sym>, verbatim: Option<seq<byte>>, storedLen: int, last: bool,
      trees: Trees)

  /** What a decompressor makes of a block. For tallied symbols _tr_flush_block() may still choose to
      store the bytes, if it has them. */
  function InflateBlock(out: seq<byte>, b: Block, stored: bool): Option<seq<byte>> {
    match b.form
    case Tallied => if stored && b.verbatim.Some? then Some(out + b.verbatim.value) else Expand(out, b.syms)
    case Stored => if b.verbatim.Some? then Some(out + b.verbatim.value) else None
    case Empty => Some(out)
  }

  function Inflate(blocks: seq<Block>, stored: seq<bool>): Option<seq<byte>>
    requires |blocks| == |stored|
  {
    if |blocks| == 0 then Some([])
    else
      match Inflate(blocks[..|blocks| - 1], stored[..|blocks| - 1])
      case None => None
      case Some(o) => InflateBlock(o, blocks[|blocks| - 1], stored[|blocks| - 1])
  }
}
