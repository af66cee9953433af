/** The sliding window and the hash chains of deflate.c as predicates over their arrays. Positions
    are related to a ghost stream: S is all input read so far, and window index i holds S[base + i]. */
module Window {
  import opened Bits
  import opened Lz77
  import opened HashFn

  const MIN_LOOKAHEAD: nat := MAX_MATCH + MIN_MATCH + 1
  const WIN_INIT: nat := MAX_MATCH
  const TOO_FAR: nat := 4096
  const NIL: Pos := 0

  /** A window index as the tables hold it, in sixteen bits. */
  type Pos = x: int | 0 <= x < 0x1_0000
  /** Unsigned arithmetic of 32 bits. */
  function Wrap32(x: int): u32 {
    x % 0x1_0000_0000
  }

  ghost predicate WindowHolds(window: array<byte>, S: seq<byte>, base: nat)
    reads window
  {
    base <= |S| <= base + window.Length && forall i :: 0 <= i < |S| - base ==> window[i] == S[base + i]
  }

  function HashAt(c: HashConfig, S: seq<byte>, p: nat): nat
    requires p + 2 < |S|
  {
    Hash3(c, S[p], S[p + 1], S[p + 2])
  }

  /** A window index below twice the window size, masked with w_mask. */
  function Slot(i: nat, wSize: nat): nat {
    if i < wSize then i else i - wSize
  }

  lemma SlotIsMask(i: nat, k: nat)
    requires i < 2 * Pow2(k)
    ensures Slot(i, Pow2(k)) == And(i, Pow2(k) - 1)
  {
    AndMask(i, k);
    if i < Pow2(k) {
      LowAll(i, k);
    } else {
      LowAll(i - Pow2(k), k);
      LowSubtract(i, k);
    }
  }

  lemma {:induction false} LowSubtract(i: nat, k: nat)
    requires i >= Pow2(k)
    ensures Low(i, k) == Low(i - Pow2(k), k)
  {
    if k > 0 {
      HalfLess(i, Pow2(k - 1));
      LowSubtract(i / 2, k - 1);
    }
  }

  lemma HalfLess(i: nat, p: nat)
    requires i >= 2 * p
    ensures i / 2 >= p && (i - 2 * p) / 2 == i / 2 - p && (i - 2 * p) % 2 == i % 2
  {
  }

  /** Table entry q stands for the greatest string inserted before `below` that has hash h; it is NIL only if
      there is none above window index 0. */
  ghost predicate Latest(q: nat, h: nat, below: int, c: HashConfig, S: seq<byte>, base: nat, ins: set<nat>)
    requires forall r :: r in ins ==> r + 2 < |S|
  {
    && (q == NIL || (base + q in ins && base + q < below && HashAt(c, S, base + q) == h))
    && forall r :: r in ins && base + q < r < below ==> HashAt(c, S, r) != h
  }

  /** The hash chains: ins is the set of stream positions ever inserted, top the last of them. The head of a
      chain is the last string inserted with the hash of that chain. The link of a string still less than a
      window away is the last one inserted before it with the same hash. */
  ghost predicate Chains(head: seq<Pos>, prev: seq<Pos>, c: HashConfig, S: seq<byte>, base: nat, ins: set<nat>,
      top: int) {
    && |head| == Pow2(c.bits)
    && -1 <= top < base + 2 * |prev| && (top >= 0 ==> top + 2 < |S|)
    && (forall p :: p in ins ==> p <= top && p + 2 < |S|)
    && (forall h :: 0 <= h < |head| ==> Latest(head[h], h, top + 1, c, S, base, ins))
    && (forall p :: p in ins && base <= p && top < p + |prev| ==>
          Latest(prev[Slot(p - base, |prev|)], HashAt(c, S, p), p, c, S, base, ins))
  }

  lemma LatestMoreInput(q: nat, h: nat, below: int, c: HashConfig, S: seq<byte>, T: seq<byte>, base: nat, ins: set<nat>)
    requires (forall r :: r in ins ==> r + 2 < |S|) && Latest(q, h, below, c, S, base, ins)
    ensures Latest(q, h, below, c, S + T, base, ins)
  {
    assert forall p :: p in ins ==> HashAt(c, S + T, p) == HashAt(c, S, p);
  }

  /** More input does not disturb the chains. */
  lemma ChainsMore(head: seq<Pos>, prev: seq<Pos>, c: HashConfig, S: seq<byte>, T: seq<byte>, base: nat,
      ins: set<nat>, top: int)
    requires Chains(head, prev, c, S, base, ins, top)
    ensures Chains(head, prev, c, S + T, base, ins, top)
  {
    hide Latest, Hash3, Pow2;
    forall h | 0 <= h < |head| ensures Latest(head[h], h, top + 1, c, S + T, base, ins) {
      LatestMoreInput(head[h], h, top + 1, c, S, T, base, ins);
    }
    forall p | p in ins && base <= p && top < p + |prev|
      ensures Latest(prev[Slot(p - base, |prev|)], HashAt(c, S + T, p), p, c, S + T, base, ins)
    {
      LatestMoreInput(prev[Slot(p - base, |prev|)], HashAt(c, S, p), p, c, S, T, base, ins);
    }
  }

  /** A string inserted later is not the latest before this place, nor one of another hash. */
  lemma LatestStays(q: nat, h: nat, below: int, below': int, p: nat, c: HashConfig, S: seq<byte>, base: nat,
      ins: set<nat>)
    requires p + 2 < |S| && (forall r :: r in ins ==> r + 2 < |S|) && Latest(q, h, below, c, S, base, ins)
    requires below <= below' && (forall r :: r in ins ==> r < below || r >= below')
    requires p >= below' || HashAt(c, S, p) != h
    ensures Latest(q, h, below', c, S, base, ins + {p})
  {
    hide HashAt;
  }

  /** Once a string is inserted itself, the one it is linked to is still the latest before it. */
  lemma LatestBefore(q: nat, h: nat, p: nat, c: HashConfig, S: seq<byte>, base: nat, ins: set<nat>)
    requires p + 2 < |S| && (forall r :: r in ins ==> r < p && r + 2 < |S|) && Latest(q, h, p, c, S, base, ins)
    ensures Latest(q, h, p, c, S, base, ins + {p})
  {
    hide HashAt;
  }

  lemma LatestItself(str: nat, c: HashConfig, S: seq<byte>, base: nat, ins: set<nat>)
    requires base + str + 2 < |S| && forall r :: r in ins ==> r < base + str && r + 2 < |S|
    ensures Latest(str, HashAt(c, S, base + str), base + str + 1, c, S, base, ins + {base + str})
  {
    hide HashAt;
  }

  /** Linking a string in front of its chain. */
  lemma InsertChains(head: seq<Pos>, prev: seq<Pos>, h: nat, str: nat, c: HashConfig, S: seq<byte>, base: nat,
      ins: set<nat>, top: int)
    requires Chains(head, prev, c, S, base, ins, top)
    requires top < base + str && str < 2 * |prev| <= 0x1_0000 && base + str + 2 < |S|
    requires h < |head| && h == HashAt(c, S, base + str)
    ensures Chains(head[h := str], prev[Slot(str, |prev|) := head[h]], c, S, base, ins + {base + str}, base + str)
  {
    hide HashAt, Pow2, Latest;
    var p, ins', head', prev' := base + str, ins + {base + str}, head[h := str], prev[Slot(str, |prev|) := head[h]];
    forall g | 0 <= g < |head| ensures Latest(head'[g], g, p + 1, c, S, base, ins') {
      if g == h {
        LatestItself(str, c, S, base, ins);
      } else {
        LatestStays(head[g], g, top + 1, p + 1, p, c, S, base, ins);
      }
    }
    forall q | q in ins' && base <= q && p < q + |prev|
      ensures Latest(prev'[Slot(q - base, |prev|)], HashAt(c, S, q), q, c, S, base, ins')
    {
      if q == p {
        LatestStays(head[h], h, top + 1, p, p, c, S, base, ins);
      } else {
        assert Slot(q - base, |prev|) != Slot(str, |prev|);
        LatestStays(prev[Slot(q - base, |prev|)], HashAt(c, S, q), q, q, p, c, S, base, ins);
      }
    }
  }

  lemma ChainStart(head: seq<Pos>, prev: seq<Pos>, h: nat, below: nat, c: HashConfig, S: seq<byte>, base: nat,
      ins: set<nat>, top: int)
    requires Chains(head, prev, c, S, base, ins, top) && h < |head| && top < below
    ensures (forall r :: r in ins ==> r + 2 < |S|) && Latest(head[h], h, below, c, S, base, ins)
  {
    hide HashAt, Pow2;
  }

  /** INSERT_STRING after its hash update: link the string at index str in front of chain h. */
  method Insert(head: array<Pos>, prev: array<Pos>, h: nat, str: nat, c: HashConfig, ghost S: seq<byte>,
      ghost base: nat, ghost ins: set<nat>, ghost top: int) returns (matchHead: Pos)
    requires head != prev && Chains(head[..], prev[..], c, S, base, ins, top)
    requires top < base + str && str < 2 * prev.Length <= 0x1_0000 && base + str + 2 < |S|
    requires h < head.Length && h == HashAt(c, S, base + str)
    modifies head, prev
    ensures Chains(head[..], prev[..], c, S, base, ins + {base + str}, base + str)
    ensures matchHead == old(head[h])
    ensures (forall r :: r in ins ==> r + 2 < |S|) && Latest(matchHead, h, base + str, c, S, base, ins)
  {
    hide HashAt, Pow2, Chains, Latest;
    InsertChains(head[..], prev[..], h, str, c, S, base, ins, top);
    ChainStart(head[..], prev[..], h, base + str, c, S, base, ins, top);
    matchHead := head[h];
    prev[Slot(str, prev.Length)] := matchHead;
    head[h] := str;
    assert head[..] == old(head[..])[h := str];
    assert prev[..] == old(prev[..])[Slot(str, prev.Length) := matchHead];
  }

  function Down(m: Pos, wSize: nat): Pos {
    if m >= wSize then m - wSize else NIL
  }

  lemma LatestDown(q: Pos, w: nat, h: nat, below: int, c: HashConfig, S: seq<byte>, base: nat, ins: set<nat>)
    requires (forall r :: r in ins ==> r + 2 < |S|) && Latest(q, h, below, c, S, base, ins)
    ensures Latest(Down(q, w), h, below, c, S, base + w, ins)
  {
    hide HashAt;
    if q > w {
      assert base + w + Down(q, w) == base + q;
    }
  }

  /** All indices in the tables move down by the window size: the same stream positions, except that
      those below the window, and the one that becomes index zero, drop off. */
  lemma SlidChains(head: seq<Pos>, prev: seq<Pos>, head': seq<Pos>, prev': seq<Pos>, c: HashConfig, S: seq<byte>,
      base: nat, ins: set<nat>, top: int)
    requires Chains(head, prev, c, S, base, ins, top) && |head'| == |head| && |prev'| == |prev|
    requires forall h :: 0 <= h < |head| ==> head'[h] == Down(head[h], |prev|)
    requires forall i :: 0 <= i < |prev| ==> prev'[i] == Down(prev[i], |prev|)
    ensures Chains(head', prev', c, S, base + |prev|, ins, top)
  {
    hide HashAt, Pow2, Latest, Down;
    var w := |prev|;
    forall h | 0 <= h < |head'| ensures Latest(head'[h], h, top + 1, c, S, base + w, ins) {
      LatestDown(head[h], w, h, top + 1, c, S, base, ins);
    }
    forall p | p in ins && base + w <= p && top < p + w
      ensures Latest(prev'[Slot(p - (base + w), w)], HashAt(c, S, p), p, c, S, base + w, ins)
    {
      var i := Slot(p - base, w);
      assert Slot(p - (base + w), w) == i;
      LatestDown(prev[i], w, HashAt(c, S, p), p, c, S, base, ins);
    }
  }

  /** slide_hash(). */
  method SlideHash(head: array<Pos>, prev: array<Pos>, c: HashConfig, ghost S: seq<byte>, ghost base: nat,
      ghost ins: set<nat>, ghost top: int)
    requires head != prev && Chains(head[..], prev[..], c, S, base, ins, top)
    modifies head, prev
    ensures Chains(head[..], prev[..], c, S, base + prev.Length, ins, top)
  {
    hide Chains, Down;
    var wSize := prev.Length;
    SlideTable(head, wSize);
    SlideTable(prev, wSize);
    SlidChains(old(head[..]), old(prev[..]), head[..], prev[..], c, S, base, ins, top);
  }

  method SlideTable(a: array<Pos>, wSize: nat)
    modifies a
    ensures forall i :: 0 <= i < a.Length ==> a[i] == Down(old(a[i]), wSize)
  {
    var n := a.Length;
    while n > 0
      invariant 0 <= n <= a.Length
      invariant forall i :: 0 <= i < n ==> a[i] == old(a[i])
      invariant forall i :: n <= i < a.Length ==> a[i] == Down(old(a[i]), wSize)
    {
      n := n - 1;
      var m := a[n];
      a[n] := if m >= wSize then m - wSize else NIL;
    }
  }

  /** CLEAR_HASH: no string is known any more. */
  method ClearHash(head: array<Pos>, prev: array<Pos>, c: HashConfig, ghost S: seq<byte>, ghost base: nat)
    requires head != prev && head.Length == Pow2(c.bits) && prev.Length > 0
    modifies head
    ensures Chains(head[..], prev[..], c, S, base, {}, -1)
  {
    head[head.Length - 1] := NIL;
    for i := 0 to head.Length - 1
      invariant forall j :: 0 <= j < i ==> head[j] == NIL
      invariant head[head.Length - 1] == NIL
    {
      head[i] := NIL;
    }
  }
}
