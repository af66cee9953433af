/** How much of the code space codes take (the Kraft sum), and the repair of lengths that are too long. */
module Kraft {
  import opened Bits
  import opened PrefixCodes

  /** The code space taken by codes of up to `len` bits, in units of the codes of that length. */
  function Space(counts: seq<nat>, len: nat): nat
    requires len < |counts|
  {
    if len == 0 then 0 else 2 * Space(counts, len - 1) + counts[len]
  }

  /** One more code of length b. */
  lemma {:induction false} SpaceMore(counts: seq<nat>, b: nat, len: nat)
    requires 1 <= b < |counts| && len < |counts|
    ensures Space(counts[b := counts[b] + 1], len) == Space(counts, len) + if len < b then 0 else Pow2(len - b)
  {
    if len > 0 {
      SpaceMore(counts, b, len - 1);
    }
  }

  lemma {:induction false} SpaceOfNone(counts: seq<nat>, len: nat)
    requires len < |counts| && forall b :: 1 <= b <= len ==> counts[b] == 0
    ensures Space(counts, len) == 0
  {
    if len > 0 {
      SpaceOfNone(counts, len - 1);
    }
  }

  function Total(counts: seq<nat>, len: nat): nat
    requires len < |counts|
  {
    if len == 0 then 0 else Total(counts, len - 1) + counts[len]
  }

  lemma {:induction false} TotalMore(counts: seq<nat>, b: nat, len: nat)
    requires 1 <= b < |counts| && len < |counts|
    ensures Total(counts[b := counts[b] + 1], len) == Total(counts, len) + if len < b then 0 else 1
  {
    if len > 0 {
      TotalMore(counts, b, len - 1);
    }
  }

  lemma {:induction false} TotalOver(counts: seq<nat>, b: nat, len: nat)
    requires 1 <= b <= len < |counts|
    ensures counts[b] <= Total(counts, len)
  {
    if b < len {
      TotalOver(counts, b, len - 1);
    }
  }

  /** Two codes that take the whole code space have one bit each. */
  lemma {:induction false} TwoCodes(counts: seq<nat>, len: nat)
    requires 1 <= len < |counts| && counts[1] <= 1 && Total(counts, len) <= 2
    ensures Space(counts, len) < Pow2(len)
  {
    if len == 1 {
      assert Space(counts, 0) == 0;
      assert Pow2(1) == 2;
    } else {
      TwoCodes(counts, len - 1);
      if counts[len] == 2 {
        NoneSoFar(counts, len - 1);
        assert Pow2(len) == 4 * Pow2(len - 2);
      }
    }
  }

  lemma {:induction false} NoneSoFar(counts: seq<nat>, len: nat)
    requires len < |counts| && Total(counts, len) == 0
    ensures Space(counts, len) == 0
  {
    if len > 0 {
      NoneSoFar(counts, len - 1);
    }
  }

  /** If the code space is not exceeded, the lengths are consistent: each length leaves enough room. */
  lemma {:induction false} SpaceFirst(lens: seq<nat>, counts: seq<nat>, len: nat)
    requires len < |counts| && forall b :: 1 <= b <= len ==> counts[b] == Count(lens, b)
    ensures len >= 1 ==> Space(counts, len) == First(lens, len) + Count(lens, len)
  {
    if len > 1 {
      SpaceFirst(lens, counts, len - 1);
    } else if len == 1 {
      assert First(lens, 0) == 0;
    }
  }

  lemma {:induction false} SpaceBelow(counts: seq<nat>, len: nat, max: nat)
    requires len <= max < |counts| && Space(counts, max) <= Pow2(max)
    ensures Space(counts, len) <= Pow2(len)
    decreases max - len
  {
    if len < max {
      SpaceBelow(counts, len + 1, max);
    }
  }

  lemma {:induction false} SpaceAbove(counts: seq<nat>, max: nat, len: nat)
    requires max <= len < |counts| && Space(counts, max) <= Pow2(max) && forall b :: max < b <= len ==> counts[b] == 0
    ensures Space(counts, len) <= Pow2(len)
  {
    if max < len {
      SpaceAbove(counts, max, len - 1);
    }
  }

  lemma SpaceConsistent(lens: seq<nat>, counts: seq<nat>, max: nat)
    requires |counts| == MAX_BITS + 1 && max <= MAX_BITS && Space(counts, max) <= Pow2(max)
    requires forall b :: 1 <= b <= MAX_BITS ==> counts[b] == Count(lens, b)
    requires forall b :: max < b <= MAX_BITS ==> counts[b] == 0
    requires forall n :: 0 <= n < |lens| ==> lens[n] <= max
    ensures Consistent(lens)
  {
    hide Pow2, Space, Count, First;
    forall len | 1 <= len <= MAX_BITS ensures RoomFor(lens, len) {
      if len <= max {
        SpaceBelow(counts, len, max);
      } else {
        SpaceAbove(counts, max, len);
      }
      SpaceFirst(lens, counts, len);
    }
  }

  /** Codes at the full length only take one unit each. */
  lemma {:induction false} SpaceOfLongest(counts: seq<nat>, max: nat)
    requires 1 <= max < |counts| && forall b :: 1 <= b < max ==> counts[b] == 0
    ensures Space(counts, max) == counts[max]
  {
    SpaceOfNone(counts, max - 1);
  }

  /** The lengths of `leaves` codes take the whole code space, and one unit more for every two codes that
      are still too long. */
  ghost predicate Overfull(counts: seq<nat>, max: nat, leaves: nat, overflow: nat) {
    && 1 <= max < |counts| && Space(counts, max) == Pow2(max) + overflow / 2 && overflow % 2 == 0
    && Total(counts, max) == leaves < Pow2(max) && counts[max] >= overflow / 2
  }

  lemma ShorterExists(counts: seq<nat>, max: nat, leaves: nat, overflow: nat)
    requires Overfull(counts, max, leaves, overflow)
    ensures exists b :: 1 <= b < max && counts[b] > 0
  {
    if forall b :: 1 <= b < max ==> counts[b] == 0 {
      SpaceOfLongest(counts, max);
      TotalOver(counts, max, max);
    }
  }

  /** Moving a leaf down, beside one that was too long, frees one unit. */
  lemma MoveFrees(counts: seq<nat>, max: nat, leaves: nat, overflow: nat, bits: nat)
    requires Overfull(counts, max, leaves, overflow) && overflow > 0 && 1 <= bits < max && counts[bits] > 0
    ensures var c := Moved(counts, max, bits); Overfull(c, max, leaves, overflow - 2)
  {
    hide Space, Total;
    var a := counts[bits := counts[bits] - 1];
    var b := a[bits + 1 := a[bits + 1] + 1];
    var c := b[bits + 1 := b[bits + 1] + 1];
    var d := c[max := c[max] - 1];
    SpaceMore(a, bits, max);
    SpaceMore(a, bits + 1, max);
    SpaceMore(b, bits + 1, max);
    SpaceMore(d, max, max);
    TotalMore(a, bits, max);
    TotalMore(a, bits + 1, max);
    TotalMore(b, bits + 1, max);
    TotalMore(d, max, max);
    assert a[bits := a[bits] + 1] == counts;
    assert d[max := d[max] + 1] == c;
    assert Pow2(max - bits) == 2 * Pow2(max - (bits + 1));
    assert d == Moved(counts, max, bits);
  }

  function Moved(counts: seq<nat>, max: nat, bits: nat): seq<nat>
    requires 1 <= bits < max < |counts| && counts[bits] > 0 && counts[max] > 0
  {
    var a := counts[bits := counts[bits] - 1];
    var c := a[bits + 1 := a[bits + 1] + 2];
    c[max := c[max] - 1]
  }

  /** The repair in gen_bitlen(): while codes are too long, a shorter leaf moves down to stand beside one
      of them. In the end the code space is taken exactly. */
  method Repair(counts: array<nat>, max: nat, ghost leaves: nat, overflowing: nat)
    requires Overfull(counts[..], max, leaves, overflowing)
    modifies counts
    ensures Overfull(counts[..], max, leaves, 0)
    ensures forall b :: 0 <= b < counts.Length && (b == 0 || b > max) ==> counts[b] == old(counts[b])
  {
    hide Space, Total, Pow2;
    var overflow := overflowing;
    while overflow > 0
      invariant Overfull(counts[..], max, leaves, overflow)
      invariant forall b :: 0 <= b < counts.Length && (b == 0 || b > max) ==> counts[b] == old(counts[b])
    {
      ShorterExists(counts[..], max, leaves, overflow);
      ghost var least :| 1 <= least < max && counts[..][least] > 0;
      var bits := max - 1;
      while counts[bits] == 0
        invariant least <= bits < max
        decreases bits
      {
        bits := bits - 1;
      }
      ghost var before := counts[..];
      MoveFrees(before, max, leaves, overflow, bits);
      counts[bits] := counts[bits] - 1;
      counts[bits + 1] := counts[bits + 1] + 2;
      counts[max] := counts[max] - 1;
      assert counts[..] == Moved(before, max, bits);
      overflow := overflow - 2;
    }
  }
}
