/** Canonical prefix codes: the codes follow from their lengths alone (RFC 1951, section 3.2.2). */
module PrefixCodes {
  import opened Bits
  import opened Lz77
  import opened Pending
  import opened BitReading

  const MAX_BITS: nat := 15

  /** How many symbols have codes of the given length. */
  function Count(lens: seq<nat>, len: nat): nat {
    if |lens| == 0 then 0 else Count(lens[..|lens| - 1], len) + if lens[|lens| - 1] == len then 1 else 0
  }

  /** The least code of the given length. Symbols of length zero have no code. */
  function First(lens: seq<nat>, len: nat): nat {
    if len == 0 then 0 else 2 * (First(lens, len - 1) + if len == 1 then 0 else Count(lens, len - 1))
  }

  /** Codes of the same length are numbered in the order of their symbols. */
  function Code(lens: seq<nat>, n: nat): nat
    requires n < |lens|
  {
    First(lens, lens[n]) + Count(lens[..n], lens[n])
  }

  /** A code is sent with its most significant bit first. */
  function CodeWord(v: nat, len: nat): (r: seq<bool>)
    ensures |r| == len
  {
    if len == 0 then [] else CodeWord(v / 2, len - 1) + [v % 2 == 1]
  }

  function CodeBits(lens: seq<nat>, n: nat): (r: seq<bool>)
    requires n < |lens|
    ensures |r| == lens[n]
  {
    CodeWord(Code(lens, n), lens[n])
  }

  /** The lengths leave room for all codes. */
  ghost predicate Consistent(lens: seq<nat>) {
    && (forall n :: 0 <= n < |lens| ==> lens[n] <= MAX_BITS)
    && (forall len :: 1 <= len <= MAX_BITS ==> RoomFor(lens, len))
  }

  predicate RoomFor(lens: seq<nat>, len: nat) {
    First(lens, len) + Count(lens, len) <= Pow2(len)
  }

  // No code is the beginning of another.

  lemma {:induction false} WordSplit(v: nat, a: nat, b: nat)
    ensures CodeWord(v, a + b) == CodeWord(Shr(v, b), a) + CodeWord(v, b)
  {
    if b > 0 {
      WordSplit(v / 2, a, b - 1);
    }
  }

  lemma {:induction false} WordInjective(v: nat, w: nat, len: nat)
    requires v < Pow2(len) && w < Pow2(len) && CodeWord(v, len) == CodeWord(w, len)
    ensures v == w
  {
    if len > 0 {
      var a, b := CodeWord(v, len), CodeWord(w, len);
      assert a[..len - 1] == CodeWord(v / 2, len - 1) && b[..len - 1] == CodeWord(w / 2, len - 1);
      assert a[len - 1] == b[len - 1];
      WordInjective(v / 2, w / 2, len - 1);
    }
  }

  lemma {:induction false} CountPrefix(lens: seq<nat>, n: nat, m: nat, len: nat)
    requires m <= n <= |lens|
    ensures Count(lens[..m], len) <= Count(lens[..n], len)
    ensures m < n && lens[m] == len ==> Count(lens[..m], len) < Count(lens[..n], len)
    decreases n
  {
    if m < n {
      assert lens[..n][..n - 1] == lens[..n - 1];
      CountPrefix(lens, n - 1, m, len);
    }
  }

  lemma CodeInRange(lens: seq<nat>, n: nat)
    requires n < |lens|
    ensures First(lens, lens[n]) <= Code(lens, n) < First(lens, lens[n]) + Count(lens, lens[n])
  {
    CountPrefix(lens, |lens|, n, lens[n]);
    assert lens[..|lens|] == lens;
  }

  lemma CodeFitsLength(lens: seq<nat>, n: nat)
    requires n < |lens| && lens[n] != 0 && Consistent(lens)
    ensures Code(lens, n) < Pow2(lens[n])
  {
    CodeInRange(lens, n);
    assert RoomFor(lens, lens[n]);
  }

  lemma {:induction false} ShrMonotone(a: nat, b: nat, k: nat)
    requires a <= b
    ensures Shr(a, k) <= Shr(b, k)
  {
    if k > 0 {
      ShrMonotone(a / 2, b / 2, k - 1);
    }
  }

  /** Longer codes begin above all shorter ones. */
  lemma {:induction false} FirstAbove(lens: seq<nat>, len: nat, k: nat)
    requires len >= 1 && k >= 1
    ensures Shr(First(lens, len + k), k) >= First(lens, len) + Count(lens, len)
  {
    var before := First(lens, len + k - 1);
    assert First(lens, len + k) / 2 == before + Count(lens, len + k - 1);
    if k > 1 {
      FirstAbove(lens, len, k - 1);
      ShrMonotone(before, before + Count(lens, len + k - 1), k - 1);
    }
  }

  /** No code is the beginning of the code of another symbol. */
  lemma PrefixFree(lens: seq<nat>, m: nat, n: nat, bits: seq<bool>, at: nat)
    requires Consistent(lens) && m < |lens| && n < |lens| && 0 < lens[m] <= lens[n]
    requires Placed(bits, at, CodeBits(lens, m)) && Placed(bits, at, CodeBits(lens, n))
    ensures m == n
  {
    hide Code, First, Count, CodeWord;
    var len, k := lens[m], lens[n] - lens[m];
    CodeFitsLength(lens, m);
    CodeFitsLength(lens, n);
    CodeInRange(lens, m);
    CodeInRange(lens, n);
    WordSplit(Code(lens, n), len, k);
    PlacedPart(bits, at, CodeWord(Shr(Code(lens, n), k), len), CodeWord(Code(lens, n), k));
    ShrBound(Code(lens, n), len, k);
    WordInjective(Code(lens, m), Shr(Code(lens, n), k), len);
    if k > 0 {
      FirstAbove(lens, len, k);
      ShrMonotone(First(lens, lens[n]), Code(lens, n), k);
    } else {
      SameLength(lens, m, n);
    }
  }

  lemma SameLength(lens: seq<nat>, m: nat, n: nat)
    requires m < |lens| && n < |lens| && lens[m] == lens[n] && Code(lens, m) == Code(lens, n)
    ensures m == n
  {
    hide First, Count;
    if m < n {
      CountPrefix(lens, n, m, lens[m]);
    } else if n < m {
      CountPrefix(lens, m, n, lens[m]);
    }
  }

  // Reading codes.

  /** The symbol whose code comes next. */
  function ReadCode(lens: seq<nat>, bits: seq<bool>, at: nat): (r: Option<nat>)
    ensures r.Some? ==> r.value < |lens| && 0 < lens[r.value] && at + lens[r.value] <= |bits|
  {
    FindCode(lens, bits, at, |lens|)
  }

  /** The first among the first n symbols whose code comes next. */
  function FindCode(lens: seq<nat>, bits: seq<bool>, at: nat, n: nat): (r: Option<nat>)
    requires n <= |lens|
    ensures r.Some? ==> r.value < n && lens[r.value] != 0 && Placed(bits, at, CodeBits(lens, r.value))
    ensures r.None? ==> forall m :: 0 <= m < n && lens[m] != 0 ==> !Placed(bits, at, CodeBits(lens, m))
  {
    if n == 0 then None
    else
      var r := FindCode(lens, bits, at, n - 1);
      if r.Some? then r
      else if lens[n - 1] != 0 && Placed(bits, at, CodeBits(lens, n - 1)) then Some(n - 1)
      else None
  }

  /** A code that was sent is the one that is read. */
  lemma CodeRead(lens: seq<nat>, n: nat, bits: seq<bool>, at: nat)
    requires Consistent(lens) && n < |lens| && lens[n] != 0 && Placed(bits, at, CodeBits(lens, n))
    ensures ReadCode(lens, bits, at) == Some(n)
  {
    hide CodeBits, Consistent;
    var r := FindCode(lens, bits, at, |lens|);
    var m := r.value;
    if lens[m] <= lens[n] {
      PrefixFree(lens, m, n, bits, at);
    } else {
      PrefixFree(lens, n, m, bits, at);
    }
  }

  // bi_reverse() and gen_codes().

  lemma OrBit(r: nat, b: nat)
    requires b < 2
    ensures Or(2 * r, b) == 2 * r + b
  {
    OrComm(2 * r, b);
    OrFields(b, r, 1);
  }

  lemma {:induction false} OrComm(a: nat, b: nat)
    ensures Or(a, b) == Or(b, a)
    decreases a + b
  {
    if a + b > 0 {
      OrComm(a / 2, b / 2);
    }
  }

  /** bi_reverse(): the code as send_bits(), which begins with the low bits, must be given it. */
  method BiReverse(code: nat, len: nat) returns (r: nat)
    requires 1 <= len <= MAX_BITS
    ensures LowBits(r, len) == CodeWord(code, len) && r < Pow2(len)
  {
    var res: nat, rest: nat, left: nat := 0, code, len;
    ghost var k: nat := 0;
    while left > 0
      invariant k + left == len && rest == Shr(code, k) && res % 2 == 0
      invariant LowBits(res / 2, k) == CodeWord(code, k) && res / 2 < Pow2(k)
    {
      OrBit(res / 2, rest % 2);
      OneMoreBit(code, k, res / 2);
      res := Or(res, rest % 2);
      rest, res := rest / 2, 2 * res;
      k, left := k + 1, left - 1;
    }
    r := res / 2;
  }

  lemma OneMoreBit(code: nat, k: nat, r: nat)
    requires LowBits(r, k) == CodeWord(code, k) && r < Pow2(k)
    ensures Shr(code, k + 1) == Shr(code, k) / 2
    ensures LowBits(2 * r + Shr(code, k) % 2, k + 1) == CodeWord(code, k + 1)
    ensures 2 * r + Shr(code, k) % 2 < Pow2(k + 1)
  {
    ShrStep(code, k);
    WordSplit(code, 1, k);
    assert CodeWord(Shr(code, k), 1) == [Shr(code, k) % 2 == 1] by {
      assert CodeWord(Shr(code, k) / 2, 0) == [];
    }
    assert (2 * r + Shr(code, k) % 2) / 2 == r;
  }

  /** The first loop of gen_codes(). */
  method NextCodes(blCount: seq<nat>, ghost lens: seq<nat>) returns (next: array<nat>)
    requires |blCount| == MAX_BITS + 1 && blCount[0] == 0
    requires forall len :: 1 <= len <= MAX_BITS ==> blCount[len] == Count(lens, len)
    ensures fresh(next) && next.Length == MAX_BITS + 1
    ensures forall len :: 1 <= len <= MAX_BITS ==> next[len] == First(lens, len)
  {
    next := new nat[MAX_BITS + 1];
    var code: nat := 0;
    for bits := 1 to MAX_BITS + 1
      invariant code == First(lens, bits - 1)
      invariant forall len :: 1 <= len < bits ==> next[len] == First(lens, len)
    {
      code := 2 * (code + blCount[bits - 1]);
      next[bits] := code;
    }
  }

  /** gen_codes(): each used symbol gets its canonical code, reversed. */
  method GenCodes(lens: seq<nat>, blCount: seq<nat>, codes: array<nat>)
    requires Consistent(lens) && codes.Length >= |lens|
    requires |blCount| == MAX_BITS + 1 && blCount[0] == 0
    requires forall len :: 1 <= len <= MAX_BITS ==> blCount[len] == Count(lens, len)
    modifies codes
    ensures forall n :: 0 <= n < |lens| && lens[n] != 0 ==> Reversed(codes[n], lens, n)
  {
    hide First, Count, CodeBits;
    var next := NextCodes(blCount, lens);
    ghost var none := lens[..0];
    NoneCounted(lens);
    for n := 0 to |lens|
      invariant forall len :: 1 <= len <= MAX_BITS ==> next[len] == First(lens, len) + Count(lens[..n], len)
      invariant forall m :: 0 <= m < n && lens[m] != 0 ==> Reversed(codes[m], lens, m)
    {
      var len := lens[n];
      OneMoreCounted(lens, n);
      if len != 0 {
        IsCode(lens, n);
        codes[n] := BiReverse(next[len], len);
        next[len] := next[len] + 1;
      }
    }
  }

  /** What send_bits() is given for a code, so that it sends the code. */
  ghost predicate Reversed(code: nat, lens: seq<nat>, n: nat)
    requires n < |lens|
  {
    LowBits(code, lens[n]) == CodeBits(lens, n) && code < Pow2(lens[n])
  }

  lemma IsCode(lens: seq<nat>, n: nat)
    requires n < |lens|
    ensures CodeBits(lens, n) == CodeWord(First(lens, lens[n]) + Count(lens[..n], lens[n]), lens[n])
  {
  }

  lemma NoneCounted(lens: seq<nat>)
    ensures forall len :: Count(lens[..0], len) == 0
  {
  }

  lemma OneMoreCounted(lens: seq<nat>, n: nat)
    requires n < |lens|
    ensures forall len :: Count(lens[..n + 1], len) == Count(lens[..n], len) + if lens[n] == len then 1 else 0
  {
    assert lens[..n + 1][..n] == lens[..n];
  }
}
