/** Reading from a sequence of bits. */
module BitReading {
  import opened Bits
  import opened Pending
  import opened Lz77

  /** Bits as a number, the least significant first. */
  function Value(bits: seq<bool>): (v: nat)
    ensures v < Pow2(|bits|)
  {
    if |bits| == 0 then 0 else (if bits[0] then 1 else 0) + 2 * Value(bits[1..])
  }

  lemma {:induction false} ValueOfLow(v: nat, n: nat)
    requires v < Pow2(n)
    ensures Value(LowBits(v, n)) == v
  {
    if n > 0 {
      ValueOfLow(v / 2, n - 1);
      assert LowBits(v, n)[1..] == LowBits(v / 2, n - 1);
    }
  }

  /** Do the given bits come next? */
  predicate Placed(bits: seq<bool>, at: nat, part: seq<bool>) {
    at + |part| <= |bits| && bits[at..at + |part|] == part
  }

  lemma PlacedPart(bits: seq<bool>, at: nat, a: seq<bool>, b: seq<bool>)
    requires Placed(bits, at, a + b)
    ensures Placed(bits, at, a) && Placed(bits, at + |a|, b)
  {
    var all := bits[at..at + |a + b|];
    assert all[..|a|] == a && all[|a|..] == b;
    assert bits[at..at + |a|] == all[..|a|];
    assert bits[at + |a|..at + |a| + |b|] == all[|a|..];
  }

  lemma PlacedFurther(bits: seq<bool>, more: seq<bool>, at: nat, part: seq<bool>)
    requires Placed(bits, at, part)
    ensures Placed(bits + more, at, part)
  {
    assert (bits + more)[at..at + |part|] == bits[at..at + |part|];
  }

  lemma PlacedThree(bits: seq<bool>, at: nat, a: bool, b: bool, c: bool)
    requires Placed(bits, at, [a, b, c])
    ensures at + 3 <= |bits| && bits[at] == a && bits[at + 1] == b && bits[at + 2] == c
  {
    var three := bits[at..at + 3];
    assert three[0] == bits[at] && three[1] == bits[at + 1] && three[2] == bits[at + 2];
  }

  /** A field of `n` bits, as a number. */
  function Field(bits: seq<bool>, at: nat, n: nat): (v: Option<nat>) {
    if at + n <= |bits| then Some(Value(bits[at..at + n])) else None
  }

  lemma FieldPlaced(bits: seq<bool>, at: nat, v: nat, n: nat)
    requires v < Pow2(n) && Placed(bits, at, LowBits(v, n))
    ensures Field(bits, at, n) == Some(v)
  {
    hide LowBits, Value;
    ValueOfLow(v, n);
  }

}
