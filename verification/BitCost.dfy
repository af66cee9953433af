/** How many bits a tree takes to send what was counted: the lengths opt_len and static_len. */
module BitCost {

  /** The extra bits that follow the code of symbol n. */
  function XBits(extra: seq<nat>, base: nat, n: nat): nat {
    if base <= n < base + |extra| then extra[n - base] else 0
  }

  /** The bits for all occurrences of a symbol; a symbol without a code has none. */
  function Term(f: nat, len: nat, x: nat): nat {
    if len == 0 then 0 else f * (len + x)
  }

  function Cost(freq: seq<nat>, lens: seq<nat>, extra: seq<nat>, base: nat): nat
    requires |lens| <= |freq|
  {
    if |lens| == 0 then 0
    else
      var n := |lens| - 1;
      Cost(freq, lens[..n], extra, base) + Term(freq[n], lens[n], XBits(extra, base, n))
  }

  lemma {:induction false} CostUpdate(freq: seq<nat>, lens: seq<nat>, extra: seq<nat>, base: nat, n: nat, v: nat)
    requires n < |lens| <= |freq|
    ensures Cost(freq, lens[n := v], extra, base) + Term(freq[n], lens[n], XBits(extra, base, n))
         == Cost(freq, lens, extra, base) + Term(freq[n], v, XBits(extra, base, n))
  {
    hide Term, XBits;
    if n < |lens| - 1 {
      CostUpdate(freq, lens[..|lens| - 1], extra, base, n, v);
      assert lens[n := v][..|lens| - 1] == lens[..|lens| - 1][n := v];
    } else {
      assert lens[n := v][..|lens| - 1] == lens[..|lens| - 1];
    }
  }

  /** The lengths another tree has for the symbols that have one here. */
  function Other(lens: seq<nat>, stree: seq<nat>): (r: seq<nat>)
    ensures |r| == |lens| && forall n :: 0 <= n < |r| ==> r[n] == if lens[n] == 0 || n >= |stree| then 0 else stree[n]
  {
    seq(|lens|, n requires 0 <= n < |lens| => if lens[n] == 0 || n >= |stree| then 0 else stree[n])
  }

  /** Only the counts of the symbols concerned matter. */
  lemma {:induction false} CostSame(freq: seq<nat>, freq': seq<nat>, lens: seq<nat>, lens': seq<nat>, extra: seq<nat>,
      base: nat)
    requires |lens| == |lens'| <= |freq| && |lens| <= |freq'|
    requires forall n :: 0 <= n < |lens| ==> freq[n] == freq'[n] && (lens[n] == lens'[n] || freq[n] == 0)
    ensures Cost(freq, lens, extra, base) == Cost(freq', lens', extra, base)
  {
    if |lens| > 0 {
      CostSame(freq, freq', lens[..|lens| - 1], lens'[..|lens| - 1], extra, base);
    }
  }

  /** One more occurrence of a symbol. */
  lemma {:induction false} CostMore(freq: seq<nat>, lens: seq<nat>, extra: seq<nat>, base: nat, n: nat)
    requires n < |lens| <= |freq|
    ensures Cost(freq[n := freq[n] + 1], lens, extra, base)
         == Cost(freq, lens, extra, base) + Term(1, lens[n], XBits(extra, base, n))
  {
    hide XBits;
    var m := |lens| - 1;
    if n < m {
      CostMore(freq, lens[..m], extra, base, n);
    } else {
      CostSame(freq, freq[n := freq[n] + 1], lens[..m], lens[..m], extra, base);
      OneMore(freq[n], lens[n], XBits(extra, base, n));
    }
  }

  lemma OneMore(f: nat, len: nat, x: nat)
    ensures Term(f + 1, len, x) == Term(f, len, x) + Term(1, len, x)
  {
    if len != 0 {
      assert (f + 1) * (len + x) == f * (len + x) + (len + x);
    }
  }

  lemma {:induction false} CostNone(freq: seq<nat>, lens: seq<nat>, extra: seq<nat>, base: nat)
    requires |lens| <= |freq| && forall n :: 0 <= n < |lens| ==> freq[n] == 0 || lens[n] == 0
    ensures Cost(freq, lens, extra, base) == 0
  {
    if |lens| > 0 {
      CostNone(freq, lens[..|lens| - 1], extra, base);
    }
  }
}
