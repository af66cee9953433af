/** longest_match(): walking a hash chain for the longest earlier occurrence of the current string. */
module LongestMatch {
  import opened Bits
  import opened Lz77
  import opened HashFn
  import opened Window

  /** Do `k` bytes agree at a and at the earlier place b? */
  ghost predicate Agree(w: seq<byte>, a: nat, b: nat, k: nat) {
    b <= a && a + k <= |w| && forall i {:trigger w[i]} :: a <= i < a + k ==> w[i] == w[i - (a - b)]
  }

  /** How many bytes, up to `n`, agree at two places of the window. */
  function Common(w: seq<byte>, a: nat, b: nat, n: nat): (k: nat)
    requires b <= a && a + n <= |w|
    ensures k <= n && Agree(w, a, b, k) && (k < n ==> w[a + k] != w[b + k])
    decreases n
  {
    if n == 0 || w[a] != w[b] then 0 else 1 + Common(w, a + 1, b + 1, n - 1)
  }

  lemma CommonUnique(w: seq<byte>, a: nat, b: nat, n: nat, k: nat)
    requires b <= a && a + n <= |w| && k <= n
    requires Agree(w, a, b, k) && (k < n ==> w[a + k] != w[b + k])
    ensures Common(w, a, b, n) == k
  {
    var c := Common(w, a, b, n);
  }

  datatype Found = Found(len: nat, start: u32)

  /** The string at cur, if it matches for longer than the best so far. */
  function Better(w: seq<byte>, scan: nat, cur: nat, best: Found): Found
    requires scan + MAX_MATCH <= |w| && cur < scan && cur < 0x1_0000
  {
    if Common(w, scan, cur, MAX_MATCH) > best.len then Found(Common(w, scan, cur, MAX_MATCH), cur) else best
  }

  /** The plain search: compare every candidate on the chain in full, newest first, until one is nice
      enough, the chain passes the distance limit, or the chain budget is spent. */
  function Search(w: seq<byte>, prev: seq<Pos>, scan: nat, cur: nat, limit: nat, chain: nat, best: Found, nice: nat)
    : Found
    requires scan + MAX_MATCH <= |w| && cur < scan && cur < 0x1_0000 && cur < 2 * |prev|
    decreases chain
  {
    var b := Better(w, scan, cur, best);
    var next := prev[Slot(cur, |prev|)];
    if b != best && b.len >= nice then b
    else if limit < next < cur && chain > 1 then Search(w, prev, scan, next, limit, chain - 1, b, nice)
    else b
  }

  /** The candidates the plain search may visit. */
  function Candidates(prev: seq<Pos>, cur: nat, limit: nat, chain: nat): seq<nat>
    requires cur < 2 * |prev|
    decreases chain
  {
    var next := prev[Slot(cur, |prev|)];
    [cur] + if limit < next < cur && chain > 1 then Candidates(prev, next, limit, chain - 1) else []
  }

  lemma {:induction false} CandidatesBelow(prev: seq<Pos>, cur: nat, limit: nat, chain: nat)
    requires cur < 2 * |prev|
    ensures forall c :: c in Candidates(prev, cur, limit, chain) ==> c <= cur
    decreases chain
  {
    var next := prev[Slot(cur, |prev|)];
    if limit < next < cur && chain > 1 {
      CandidatesBelow(prev, next, limit, chain - 1);
    }
  }

  /** Is r the best of the candidates: the result so far or the length of a candidate, and not beaten
      by any, unless it is nice enough to have stopped the search? Of equally long ones it is the nearest. */
  ghost predicate BestOf(r: Found, w: seq<byte>, scan: nat, cs: seq<nat>, best: Found, nice: nat)
    requires scan + MAX_MATCH <= |w| && forall c :: c in cs ==> c < scan
  {
    && r.len >= best.len
    && (r == best || (r.len > best.len && r.start in cs && r.len == Common(w, scan, r.start, MAX_MATCH)))
    && ((forall c :: c in cs ==> Common(w, scan, c, MAX_MATCH) <= r.len) || (r != best && r.len >= nice))
    && (r != best ==> forall c :: c in cs && c > r.start ==> Common(w, scan, c, MAX_MATCH) < r.len)
  }

  lemma BestOfOne(w: seq<byte>, scan: nat, cur: nat, best: Found, nice: nat)
    requires scan + MAX_MATCH <= |w| && cur < scan && cur < 0x1_0000
    ensures BestOf(Better(w, scan, cur, best), w, scan, [cur], best, nice)
  {
  }

  lemma BestOfMore(r: Found, w: seq<byte>, scan: nat, cur: nat, cs: seq<nat>, best: Found, nice: nat)
    requires scan + MAX_MATCH <= |w| && cur < scan && cur < 0x1_0000 && forall c :: c in cs ==> c < scan && c < cur
    requires var b := Better(w, scan, cur, best); BestOf(r, w, scan, cs, b, nice) || (r == b != best && b.len >= nice)
    ensures (forall c :: c in [cur] + cs ==> c < scan) && BestOf(r, w, scan, [cur] + cs, best, nice)
  {
    hide Common;
    var all := [cur] + cs;
    assert all[0] == cur;
    assert forall c :: c in all ==> c == cur || c in cs;
    assert forall c :: c in cs ==> c in all;
  }

  /** The search finds a longest match among its candidates, unless it stopped at a nice one. */
  lemma {:induction false} SearchIsBest(w: seq<byte>, prev: seq<Pos>, scan: nat, cur: nat, limit: nat, chain: nat,
      best: Found, nice: nat)
    requires scan + MAX_MATCH <= |w| && cur < scan && cur < 0x1_0000 && cur < 2 * |prev|
    ensures forall c :: c in Candidates(prev, cur, limit, chain) ==> c < scan
    ensures BestOf(Search(w, prev, scan, cur, limit, chain, best, nice), w, scan, Candidates(prev, cur, limit,
        chain), best, nice)
    decreases chain
  {
    hide Common, BestOf, Better;
    var b := Better(w, scan, cur, best);
    var next := prev[Slot(cur, |prev|)];
    CandidatesBelow(prev, cur, limit, chain);
    SearchTurn(w, prev, scan, cur, limit, chain, best, nice, b, next);
    if limit < next < cur && chain > 1 {
      var rest := Candidates(prev, next, limit, chain - 1);
      CandidatesBelow(prev, next, limit, chain - 1);
      if !(b != best && b.len >= nice) {
        SearchIsBest(w, prev, scan, next, limit, chain - 1, b, nice);
      }
      BestOfMore(Search(w, prev, scan, cur, limit, chain, best, nice), w, scan, cur, rest, best, nice);
    } else {
      assert Candidates(prev, cur, limit, chain) == [cur];
      BestOfOne(w, scan, cur, best, nice);
    }
  }

  /** What the chains promise about a candidate: an older string with the same hash, close enough. */
  ghost predicate Candidate(cur: nat, strstart: nat, wSize: nat, c: HashConfig, S: seq<byte>, base: nat, ins: set<nat>)
  {
    && NIL < cur < strstart && strstart - cur <= wSize - MIN_LOOKAHEAD
    && base + strstart + 2 < |S| && base + cur in ins && HashAt(c, S, base + cur) == HashAt(c, S, base + strstart)
  }

  /** Following prev[] from a candidate leads to the end of the chain, past the limit, or to an older
      candidate: a slot that has been overwritten is never followed. */
  lemma NextCandidate(head: seq<Pos>, prev: seq<Pos>, cur: nat, strstart: nat, c: HashConfig, S: seq<byte>, base: nat,
      ins: set<nat>, next: nat, limit: nat)
    requires |prev| >= 512 && base + strstart + 2 < |S|
    requires Chains(head, prev, c, S, base, ins, base + strstart) && Candidate(cur, strstart, |prev|, c, S, base, ins)
    requires next == prev[Slot(cur, |prev|)] && next > limit && limit == Limit(strstart, |prev|)
    ensures Candidate(next, strstart, |prev|, c, S, base, ins) && next < cur
  {
    hide HashAt, Pow2;
    LinkIsLatest(head, prev, cur, strstart, c, S, base, ins);
  }

  // Which strings a search comes to see.

  /** The strings inserted between two places that have hash h. */
  ghost function SameHash(c: HashConfig, S: seq<byte>, ins: set<nat>, h: nat, after: nat, below: nat): set<nat>
    requires forall r :: r in ins ==> r + 2 < |S|
  {
    set r | r in ins && after < r < below && HashAt(c, S, r) == h
  }

  lemma OneLess(c: HashConfig, S: seq<byte>, ins: set<nat>, h: nat, after: nat, below: nat, below': nat)
    requires forall r :: r in ins ==> r + 2 < |S|
    requires after < below < below' && below in ins && HashAt(c, S, below) == h
    ensures |SameHash(c, S, ins, h, after, below)| < |SameHash(c, S, ins, h, after, below')|
  {
    hide HashAt;
    var a, b := SameHash(c, S, ins, h, after, below), SameHash(c, S, ins, h, after, below');
    assert below in b && a + {below} <= b;
    SubsetSize(a + {below}, b);
  }

  lemma SubsetSize(a: set<nat>, b: set<nat>)
    requires a <= b
    ensures |a| <= |b|
  {
    assert b == a + (b - a);
  }

  /** The chain from cur on leads to every string with the same hash above the limit, until the budget is spent. */
  lemma {:induction false} VisitsAll(head: seq<Pos>, prev: seq<Pos>, cur: nat, strstart: nat, limit: nat, chain: nat,
      c: HashConfig, S: seq<byte>, base: nat, ins: set<nat>, r: nat)
    requires |prev| >= 512 && base + strstart + 2 < |S| && Chains(head, prev, c, S, base, ins, base + strstart)
    requires Candidate(cur, strstart, |prev|, c, S, base, ins) && limit == Limit(strstart, |prev|)
    requires strstart < 2 * |prev| && forall x :: x in ins ==> x + 2 < |S|
    requires r in ins && r <= base + cur && (r == base + cur || base + limit < r)
    requires HashAt(c, S, r) == HashAt(c, S, base + strstart)
    requires |SameHash(c, S, ins, HashAt(c, S, r), r, base + cur + 1)| < chain
    ensures r >= base && r - base in Candidates(prev, cur, limit, chain)
    decreases chain
  {
    hide HashAt, Pow2, Chains, SameHash, Candidates, Limit;
    if r < base + cur {
      var next := NextOnTheWay(head, prev, cur, strstart, limit, c, S, base, ins, r);
      VisitsAll(head, prev, next, strstart, limit, chain - 1, c, S, base, ins, r);
      CandidatesMore(prev, cur, next, limit, chain, r - base);
    } else {
      CandidatesFirst(prev, cur, limit, chain);
    }
  }

  lemma CandidatesFirst(prev: seq<Pos>, cur: nat, limit: nat, chain: nat)
    requires cur < 2 * |prev|
    ensures cur in Candidates(prev, cur, limit, chain)
  {
  }

  lemma CandidatesMore(prev: seq<Pos>, cur: nat, next: nat, limit: nat, chain: nat, r: nat)
    requires cur < 2 * |prev| && next == prev[Slot(cur, |prev|)] && limit < next < cur && chain > 1
    requires r in Candidates(prev, next, limit, chain - 1)
    ensures r in Candidates(prev, cur, limit, chain)
  {
    assert Candidates(prev, cur, limit, chain) == [cur] + Candidates(prev, next, limit, chain - 1);
  }

  lemma NextOnTheWay(head: seq<Pos>, prev: seq<Pos>, cur: nat, strstart: nat, limit: nat, c: HashConfig, S: seq<byte>,
      base: nat, ins: set<nat>, r: nat) returns (next: nat)
    requires |prev| >= 512 && base + strstart + 2 < |S| && Chains(head, prev, c, S, base, ins, base + strstart)
    requires Candidate(cur, strstart, |prev|, c, S, base, ins) && limit == Limit(strstart, |prev|)
    requires strstart < 2 * |prev| && forall x :: x in ins ==> x + 2 < |S|
    requires r in ins && base + limit < r < base + cur && HashAt(c, S, r) == HashAt(c, S, base + strstart)
    ensures cur < 2 * |prev| && next == prev[Slot(cur, |prev|)] && limit < next < cur && r <= base + next
    ensures Candidate(next, strstart, |prev|, c, S, base, ins)
    ensures var h := HashAt(c, S, r);
      |SameHash(c, S, ins, h, r, base + next + 1)| < |SameHash(c, S, ins, h, r, base + cur + 1)|
  {
    hide HashAt, Pow2, Chains, SameHash, Latest;
    var h := HashAt(c, S, r);
    next := prev[Slot(cur, |prev|)];
    LinkIsLatest(head, prev, cur, strstart, c, S, base, ins);
    NotSkipped(next, h, base + cur, c, S, base, ins, r);
    NextCandidate(head, prev, cur, strstart, c, S, base, ins, next, limit);
    OneLess(c, S, ins, h, r, base + cur, base + cur + 1);
    Narrower(c, S, ins, h, r, base + next + 1, base + cur);
  }

  lemma LinkIsLatest(head: seq<Pos>, prev: seq<Pos>, cur: nat, strstart: nat, c: HashConfig, S: seq<byte>, base: nat,
      ins: set<nat>)
    requires |prev| >= 512 && base + strstart + 2 < |S| && Chains(head, prev, c, S, base, ins, base + strstart)
    requires Candidate(cur, strstart, |prev|, c, S, base, ins)
    ensures forall x :: x in ins ==> x + 2 < |S|
    ensures Latest(prev[Slot(cur, |prev|)], HashAt(c, S, base + cur), base + cur, c, S, base, ins)
  {
    hide HashAt, Pow2, Latest;
    var p := base + cur;
    assert Latest(prev[Slot(p - base, |prev|)], HashAt(c, S, p), p, c, S, base, ins);
  }

  lemma NotSkipped(q: nat, h: nat, below: int, c: HashConfig, S: seq<byte>, base: nat, ins: set<nat>, r: nat)
    requires (forall x :: x in ins ==> x + 2 < |S|) && Latest(q, h, below, c, S, base, ins)
    requires r in ins && base < r < below && HashAt(c, S, r) == h
    ensures q != NIL && r <= base + q
  {
    hide HashAt;
  }

  lemma Narrower(c: HashConfig, S: seq<byte>, ins: set<nat>, h: nat, after: nat, below: nat, below': nat)
    requires (forall r :: r in ins ==> r + 2 < |S|) && below <= below'
    ensures |SameHash(c, S, ins, h, after, below)| <= |SameHash(c, S, ins, h, after, below')|
  {
    hide HashAt;
    SubsetSize(SameHash(c, S, ins, h, after, below), SameHash(c, S, ins, h, after, below'));
  }

  /** Comparison from the third byte on, in steps of eight, given that three bytes agree. */
  method Compare(window: array<byte>, scan: nat, cur: nat) returns (len: nat)
    requires cur < scan && scan + MAX_MATCH < window.Length
    requires Agree(window[..], scan, cur, 3)
    ensures len == Common(window[..], scan, cur, MAX_MATCH)
  {
    var k := 2;
    while true
      invariant 2 <= k < MAX_MATCH
      invariant Agree(window[..], scan, cur, k + 1)
      decreases MAX_MATCH - k
    {
      k := k + 1;
      if window[scan + k] != window[cur + k] {
        break;
      }
      if (k - 2) % 8 == 0 && k >= MAX_MATCH {
        break;
      }
      EighthStep(k);
    }
    len := k;
    CommonUnique(window[..], scan, cur, MAX_MATCH, k);
  }

  lemma ProbesAgree(w: seq<byte>, scan: nat, cur: nat, best: nat)
    requires cur < scan && scan + MAX_MATCH < |w| && 1 <= best <= MAX_MATCH
    requires Common(w, scan, cur, MAX_MATCH) > best
    ensures w[scan + best] == w[cur + best] && w[scan + best - 1] == w[cur + best - 1]
    ensures w[scan] == w[cur] && w[scan + 1] == w[cur + 1]
  {
    assert w[scan + best] == w[cur + best];
    assert w[scan + (best - 1)] == w[cur + (best - 1)];
    assert w[scan + 0] == w[cur + 0];
    assert w[scan + 1] == w[cur + 1];
  }

  /** The quick rejection: a candidate that differs in one of the four probed bytes cannot beat the
      best so far; one that agrees in the first two agrees in the third, since the hashes are equal. */
  method Probe(window: array<byte>, scan: nat, cur: nat, best: nat, scanEnd1: byte, scanEnd: byte, c: HashConfig,
      ghost S: seq<byte>, ghost base: nat) returns (len: nat)
    requires GoodConfig(c) && WindowHolds(window, S, base)
    requires cur < scan && scan + MAX_MATCH < window.Length && 1 <= best <= MAX_MATCH
    requires scanEnd1 == window[scan + best - 1] && scanEnd == window[scan + best]
    requires base + scan + 2 < |S| && HashAt(c, S, base + cur) == HashAt(c, S, base + scan)
    ensures len > best <==> Common(window[..], scan, cur, MAX_MATCH) > best
    ensures len > best ==> len == Common(window[..], scan, cur, MAX_MATCH)
  {
    hide Hash3, Common;
    if Common(window[..], scan, cur, MAX_MATCH) > best {
      ProbesAgree(window[..], scan, cur, best);
    }
    if window[cur + best] != scanEnd || window[cur
        + best - 1] != scanEnd1 || window[cur] != window[scan] || window[cur + 1] != window[scan + 1] {
      len := 0;
    } else {
      ThirdByte(c, window[scan], window[scan + 1], window[scan + 2], window[cur + 2]);
      len := Compare(window, scan, cur);
    }
  }

  /** One turn of the loop, up to the test for a nice match. */
  method TryCandidate(window: array<byte>, scan: nat, cur: nat, best: Found, nice: nat, c: HashConfig,
      ghost S: seq<byte>, ghost base: nat) returns (best': Found, stop: bool)
    requires GoodConfig(c) && WindowHolds(window, S, base)
    requires cur < scan && cur < 0x1_0000 && scan + MAX_MATCH < window.Length && 1 <= best.len <= MAX_MATCH
    requires base + scan + 2 < |S| && HashAt(c, S, base + cur) == HashAt(c, S, base + scan)
    ensures best' == Better(window[..], scan, cur, best) && best.len <= best'.len <= MAX_MATCH
    ensures best' != best ==> best' == Found(Common(window[..], scan, cur, MAX_MATCH), cur) && best'.len > best.len
    ensures stop <==> best' != best && best'.len >= nice
  {
    hide Common, HashAt;
    best', stop := best, false;
    var len := Probe(window, scan, cur, best.len, window[scan + best.len - 1], window[scan + best.len], c, S, base);
    if len > best.len {
      best' := Found(len, cur);
      stop := len >= nice;
    }
  }

  lemma SearchTurn(w: seq<byte>, prev: seq<Pos>, scan: nat, cur: nat, limit: nat, chain: nat, best: Found, nice: nat,
      b: Found, next: nat)
    requires scan + MAX_MATCH <= |w| && cur < scan && cur < 0x1_0000 && cur < 2 * |prev|
    requires b == Better(w, scan, cur, best) && next == prev[Slot(cur, |prev|)]
    ensures b != best && b.len >= nice ==> Search(w, prev, scan, cur, limit, chain, best, nice) == b
    ensures !(b != best && b.len >= nice) && !(limit < next < cur && chain > 1) ==>
      Search(w, prev, scan, cur, limit, chain, best, nice) == b
    ensures !(b != best && b.len >= nice) && limit < next < cur && chain > 1 ==>
              Search(w, prev, scan, cur, limit, chain, best, nice)
                  == Search(w, prev, scan, next, limit, chain - 1, b, nice)
  {
    hide Better;
  }

  /** The loop over the chain. */
  method WalkChain(window: array<byte>, head: array<Pos>, prev: array<Pos>, strstart: nat, curMatch: Pos, limit: nat,
      maxChain: nat, first: Found, nice: nat, c: HashConfig, ghost S: seq<byte>, ghost base: nat, ghost ins: set<nat>)
    returns (best: Found)
    requires GoodConfig(c) && WindowHolds(window, S, base) && 512 <= prev.Length
    requires window.Length == 2 * prev.Length <= 0x1_0000
    requires strstart + MIN_LOOKAHEAD <= window.Length
    requires Chains(head[..], prev[..], c, S, base, ins, base + strstart)
    requires Candidate(curMatch, strstart, prev.Length, c, S, base, ins)
    requires 1 <= first.len <= MAX_MATCH && maxChain >= 1 && limit == Limit(strstart, prev.Length)
    ensures best == Search(window[..], prev[..], strstart, curMatch, limit, maxChain, first, nice)
    ensures first.len <= best.len <= MAX_MATCH
    ensures best.len > first.len ==> Matches(window[..], strstart, best, prev.Length - MIN_LOOKAHEAD)
  {
    hide HashAt, Pow2, Common, Chains, Better, Search, Matches, Repeats, WindowHolds;
    var chain := maxChain;
    best := first;
    var cur: nat := curMatch;
    ghost var w, links := window[..], prev[..];
    ghost var result := Search(w, links, strstart, cur, limit, chain, best, nice);
    while true
      invariant chain >= 1 && Candidate(cur, strstart, prev.Length, c, S, base, ins)
      invariant first.len <= best.len <= MAX_MATCH
      invariant best.len > first.len ==> Matches(w, strstart, best, prev.Length - MIN_LOOKAHEAD)
      invariant result == Search(w, links, strstart, cur, limit, chain, best, nice)
      decreases chain
    {
      var b, stop := TryCandidate(window, strstart, cur, best, nice, c, S, base);
      var next := prev[Slot(cur, prev.Length)];
      SearchTurn(w, links, strstart, cur, limit, chain, best, nice, b, next);
      BetterMatches(w, strstart, cur, best, b, first.len, prev.Length - MIN_LOOKAHEAD);
      best := b;
      if stop || next <= limit {
        break;
      }
      NextCandidate(head[..], links, cur, strstart, c, S, base, ins, next, limit);
      chain := chain - 1;
      if chain == 0 {
        break;
      }
      cur := next;
    }
  }

  /** Of the strings inserted within `reach` before p, and of the string at `first`, none that has less than
      `chain` newer ones with the same hash repeats for longer than `len`. */
  ghost predicate NoneLonger(c: HashConfig, S: seq<byte>, base: nat, ins: set<nat>, p: nat, first: nat, reach: nat,
      chain: nat, len: nat)
    requires p + 2 < |S| && forall r :: r in ins ==> r + 2 < |S|
  {
    forall r: nat, k: nat :: RepeatsFrom(S, p, r, k) && MIN_MATCH <= k <= MAX_MATCH && r in ins && base < r ==>
      (p - r < reach || r == first) && |SameHash(c, S, ins, HashAt(c, S, p), r, p)| < chain ==>
        k <= len
  }

  lemma NoneLongerFrom(c: HashConfig, S: seq<byte>, base: nat, ins: set<nat>, p: nat, first: nat, reach: nat,
      chain: nat, len: nat, len': nat)
    requires p + 2 < |S| && (forall r :: r in ins ==> r + 2 < |S|) && len <= len'
    requires NoneLonger(c, S, base, ins, p, first, reach, chain, len)
    ensures NoneLonger(c, S, base, ins, p, p, reach, chain, len')
  {
    hide HashAt, Repeats, SameHash;
  }

  /** If the last string of its hash is out of reach, so are all of them. */
  lemma NoneInReach(q: nat, c: HashConfig, S: seq<byte>, base: nat, ins: set<nat>, p: nat, reach: nat, chain: nat,
      len: nat)
    requires p + 2 < |S| && (forall r :: r in ins ==> r + 2 < |S|)
    requires Latest(q, HashAt(c, S, p), p, c, S, base, ins) && (q == NIL || p >= base + q + reach)
    ensures NoneLonger(c, S, base, ins, p, p, reach, chain, len)
  {
    hide HashAt, SameHash, Latest, Repeats;
    forall r: nat, k: nat | RepeatsFrom(S, p, r, k) && MIN_MATCH <= k <= MAX_MATCH && r in ins && base < r
      ensures p - r >= reach && r < p
    {
      SameHashThere(c, S, p, r, k);
      NotSkipped(q, HashAt(c, S, p), p, c, S, base, ins, r);
    }
  }

  /** The same strings, as far as they are nearer than the match found, do not even repeat for as long. */
  ghost predicate NoneNearer(c: HashConfig, S: seq<byte>, base: nat, ins: set<nat>, p: nat, first: nat, reach: nat,
      chain: nat, start: nat, len: nat)
    requires p + 2 < |S| && forall r :: r in ins ==> r + 2 < |S|
  {
    forall r: nat, k: nat :: RepeatsFrom(S, p, r, k) && MIN_MATCH <= k <= MAX_MATCH && r in ins && base + start < r ==>
      (p - r < reach || r == first) && |SameHash(c, S, ins, HashAt(c, S, p), r, p)| < chain ==>
        k < len
  }

  ghost predicate RepeatsFrom(S: seq<byte>, p: nat, r: nat, k: nat) {
    r < p && Repeats(S, p, p - r, k)
  }

  /** A string in reach is among the candidates. */
  lemma IsSeen(window: array<byte>, head: seq<Pos>, prev: seq<Pos>, strstart: nat, cur: nat, chain: nat, c: HashConfig,
      S: seq<byte>, base: nat, ins: set<nat>, r: nat, k: nat)
    requires WindowHolds(window, S, base) && window.Length == 2 * |prev| && |prev| >= 512
    requires base + strstart + 2 < |S| && strstart + MIN_LOOKAHEAD <= window.Length
    requires Chains(head, prev, c, S, base, ins, base + strstart) && cur < 0x1_0000
    requires Candidate(cur, strstart, |prev|, c, S, base, ins)
    requires forall r :: r in ins ==> r + 2 < |S|
    requires Latest(cur, HashAt(c, S, base + strstart), base + strstart, c, S, base, ins)
    requires RepeatsFrom(S, base + strstart, r, k) && MIN_MATCH <= k <= MAX_MATCH && r in ins && base < r
    requires base + strstart - r < |prev| - MIN_LOOKAHEAD || r == base + cur
    requires |SameHash(c, S, ins, HashAt(c, S, base + strstart), r, base + strstart)| < chain
    ensures cur < 2 * |prev| && base <= r < base + strstart
    ensures r - base in Candidates(prev, cur, Limit(strstart, |prev|), chain)
    ensures k <= Common(window[..], strstart, r - base, MAX_MATCH)
  {
    hide HashAt, Pow2, Chains, Latest, SameHash, Search, Candidates, Common, WindowHolds, Repeats;
    var p := base + strstart;
    SameHashThere(c, S, p, r, k);
    NotSkipped(cur, HashAt(c, S, p), p, c, S, base, ins, r);
    Narrower(c, S, ins, HashAt(c, S, p), r, base + cur + 1, p);
    VisitsAll(head, prev, cur, strstart, Limit(strstart, |prev|), chain, c, S, base, ins, r);
    RepeatsAgree(window, S, base, strstart, r - base, k);
  }

  /** So the search has found one at least as long, or a longer one if it took a string further back. */
  lemma SeesOne(window: array<byte>, head: seq<Pos>, prev: seq<Pos>, strstart: nat, cur: nat, chain: nat, first: Found,
      nice: nat, f: Found, c: HashConfig, S: seq<byte>, base: nat, ins: set<nat>, r: nat, k: nat)
    requires WindowHolds(window, S, base) && window.Length == 2 * |prev| && |prev| >= 512
    requires base + strstart + 2 < |S| && strstart + MIN_LOOKAHEAD <= window.Length
    requires Chains(head, prev, c, S, base, ins, base + strstart) && cur < 0x1_0000
    requires Candidate(cur, strstart, |prev|, c, S, base, ins)
    requires forall r :: r in ins ==> r + 2 < |S|
    requires Latest(cur, HashAt(c, S, base + strstart), base + strstart, c, S, base, ins)
    requires f == Search(window[..], prev, strstart, cur, Limit(strstart, |prev|), chain, first, nice)
    requires RepeatsFrom(S, base + strstart, r, k) && MIN_MATCH <= k <= MAX_MATCH && r in ins && base < r
    requires base + strstart - r < |prev| - MIN_LOOKAHEAD || r == base + cur
    requires |SameHash(c, S, ins, HashAt(c, S, base + strstart), r, base + strstart)| < chain
    ensures !(f.len > first.len && f.len >= nice) ==> k <= f.len
    ensures f.len > first.len && r > base + f.start ==> k < f.len
  {
    hide HashAt, Pow2, Chains, Latest, SameHash, Search, Candidates, Common, WindowHolds, Repeats, RepeatsFrom;
    IsSeen(window, head, prev, strstart, cur, chain, c, S, base, ins, r, k);
    SearchIsBest(window[..], prev, strstart, cur, Limit(strstart, |prev|), chain, first, nice);
  }

  lemma SeesAll(window: array<byte>, head: seq<Pos>, prev: seq<Pos>, strstart: nat, lookahead: nat, cur: nat,
      chain: nat, first: Found, nice: nat, f: Found, c: HashConfig, S: seq<byte>, base: nat, ins: set<nat>)
    requires WindowHolds(window, S, base) && window.Length == 2 * |prev| && |prev| >= 512
    requires base + strstart + lookahead == |S| && lookahead >= MIN_MATCH && strstart + MIN_LOOKAHEAD <= window.Length
    requires Chains(head, prev, c, S, base, ins, base + strstart) && cur < 0x1_0000
    requires Candidate(cur, strstart, |prev|, c, S, base, ins)
    requires forall r :: r in ins ==> r + 2 < |S|
    requires Latest(cur, HashAt(c, S, base + strstart), base + strstart, c, S, base, ins)
    requires f == Search(window[..], prev, strstart, cur, Limit(strstart, |prev|), chain, first, nice)
    ensures (f.len > first.len && lookahead > first.len && f.len >= nice)
        || NoneLonger(c, S, base, ins, base + strstart, base + cur, |prev| - (MAX_MATCH + MIN_MATCH + 1), chain,
          if f.len <= lookahead then f.len else lookahead)
    ensures f.len > first.len ==>
      NoneNearer(c, S, base, ins, base + strstart, base + cur, |prev| - (MAX_MATCH + MIN_MATCH + 1), chain, f.start,
        f.len)
  {
    hide HashAt, Pow2, Chains, Latest, SameHash, Search, Candidates, Common, WindowHolds, Candidate, Limit;
    var p := base + strstart;
    if f.len > first.len {
      forall r: nat, k: nat | RepeatsFrom(S, p, r, k) && MIN_MATCH <= k <= MAX_MATCH && r in ins && base + f.start < r
          && (p - r < |prev| - MIN_LOOKAHEAD || r == base + cur)
          && |SameHash(c, S, ins, HashAt(c, S, p), r, p)| < chain
        ensures k < f.len
      {
        SeesOne(window, head, prev, strstart, cur, chain, first, nice, f, c, S, base, ins, r, k);
      }
    }
    if !(f.len > first.len && lookahead > first.len && f.len >= nice) {
      forall r: nat, k: nat | RepeatsFrom(S, p, r, k) && MIN_MATCH <= k <= MAX_MATCH && r in ins && base < r
          && (p - r < |prev| - MIN_LOOKAHEAD || r == base + cur)
          && |SameHash(c, S, ins, HashAt(c, S, p), r, p)| < chain
        ensures k <= f.len && k <= lookahead
      {
        if f.len <= lookahead {
          SeesOne(window, head, prev, strstart, cur, chain, first, nice, f, c, S, base, ins, r, k);
        }
      }
    }
  }

  lemma SameHashThere(c: HashConfig, S: seq<byte>, p: nat, r: nat, k: nat)
    requires r < p && k >= MIN_MATCH && Repeats(S, p, p - r, k)
    ensures HashAt(c, S, r) == HashAt(c, S, p) && p + k <= |S|
  {
    hide Hash3;
    assert S[p] == S[p - (p - r)] && S[p + 1] == S[p + 1 - (p - r)] && S[p + 2] == S[p + 2 - (p - r)];
  }

  lemma RepeatsAgree(window: array<byte>, S: seq<byte>, base: nat, strstart: nat, cur: nat, k: nat)
    requires WindowHolds(window, S, base) && cur < strstart && strstart + MAX_MATCH <= window.Length && k <= MAX_MATCH
    requires Repeats(S, base + strstart, strstart - cur, k)
    ensures k <= Common(window[..], strstart, cur, MAX_MATCH)
  {
    var w := window[..];
    forall i {:trigger w[i]} | strstart <= i < strstart + k ensures w[i] == w[i - (strstart - cur)] {
      assert S[base + i] == S[base + i - (strstart - cur)];
    }
  }

  /** The plain search as longest_match() is to do it: a quarter of the chain if the match to beat is good, and
      nothing beyond the lookahead. */
  function Result(w: seq<byte>, prev: seq<Pos>, strstart: nat, lookahead: nat, cur: nat, matchStart: u32,
      prevLength: nat, maxChain: nat, good: nat, nice: nat): (f: Found)
    requires strstart + MAX_MATCH <= |w| && cur < strstart && cur < 0x1_0000 && cur < 2 * |prev| && |prev| >= 512
    ensures f.len <= lookahead
  {
    var r := Search(w, prev, strstart, cur, Limit(strstart, |prev|), if prevLength >= good then maxChain / 4
        else maxChain, Found(prevLength, matchStart), if nice > lookahead then lookahead else nice);
    Found(if r.len <= lookahead then r.len else lookahead, r.start)
  }

  /** longest_match(). The result, cut to the lookahead, is that of the plain search; a result longer
      than prevLength comes with a start whose bytes really repeat, at a permitted distance; and unless the search
      stopped at a nice match, no string that the chain budget allows to see repeats for longer. */
  method LongestMatch(window: array<byte>, head: array<Pos>, prev: array<Pos>, strstart: nat, lookahead: nat,
      curMatch: Pos, matchStart: u32, prevLength: nat, maxChain: nat, good: nat, nice: nat, c: HashConfig,
      ghost S: seq<byte>, ghost base: nat, ghost ins: set<nat>) returns (len: nat, start: u32)
    requires GoodConfig(c) && WindowHolds(window, S, base) && 512 <= prev.Length
    requires window.Length == 2 * prev.Length <= 0x1_0000
    requires base + strstart + lookahead == |S| && lookahead >= MIN_MATCH && strstart + MIN_LOOKAHEAD <= window.Length
    requires Chains(head[..], prev[..], c, S, base, ins, base + strstart)
    requires Candidate(curMatch, strstart, prev.Length, c, S, base, ins)
    requires forall r :: r in ins ==> r + 2 < |S|
    requires Latest(curMatch, HashAt(c, S, base + strstart), base + strstart, c, S, base, ins)
    requires 1 <= prevLength <= MAX_MATCH && maxChain >= 4
    ensures Found(len, start) == Result(window[..], prev[..], strstart, lookahead, curMatch, matchStart, prevLength,
        maxChain, good, nice)
    ensures len <= lookahead && len <= MAX_MATCH && (len >= prevLength || len == lookahead)
    ensures len > prevLength ==>
              0 < start < strstart && strstart - start <= prev.Length - MIN_LOOKAHEAD
                  && Repeats(S, base + strstart, strstart - start, len)
    ensures (len > prevLength && len >= (if nice > lookahead then lookahead else nice))
        || NoneLonger(c, S, base, ins, base + strstart, base + curMatch, prev.Length - (MAX_MATCH + MIN_MATCH + 1),
          if prevLength >= good then maxChain / 4 else maxChain, len)
    ensures prevLength < len < lookahead ==>
      NoneNearer(c, S, base, ins, base + strstart, base + curMatch, prev.Length - (MAX_MATCH + MIN_MATCH + 1),
        if prevLength >= good then maxChain / 4 else maxChain, start, len)
  {
    hide HashAt, Pow2, Common, Chains, Better, Search, Matches, Repeats, Latest, NoneLonger, NoneNearer;
    var chain := maxChain;
    if prevLength >= good {
      chain := chain / 4;
    }
    var niceMatch := if nice > lookahead then lookahead else nice;
    var best := WalkChain(window, head, prev, strstart, curMatch, Limit(strstart, prev.Length), chain,
      Found(prevLength, matchStart), niceMatch, c, S, base, ins);
    SeesAll(window, head[..], prev[..], strstart, lookahead, curMatch, chain, Found(prevLength, matchStart),
      niceMatch, best, c, S, base, ins);
    start := best.start;
    len := if best.len <= lookahead then best.len else lookahead;
    if len > prevLength {
      MatchRepeats(window, strstart, best, prev.Length - MIN_LOOKAHEAD, len, S, base);
    }
  }

  /** Candidates at or below this index are too far away; index zero is never used. */
  function Limit(strstart: nat, wSize: nat): nat
    requires wSize >= MIN_LOOKAHEAD
  {
    if strstart > wSize - MIN_LOOKAHEAD then strstart - (wSize - MIN_LOOKAHEAD) else NIL
  }

  ghost predicate Matches(w: seq<byte>, strstart: nat, f: Found, maxDist: nat)
    requires strstart + MAX_MATCH <= |w|
  {
    && 0 < f.start < strstart && strstart - f.start <= maxDist && f.len == Common(w, strstart, f.start, MAX_MATCH)
  }

  lemma BetterMatches(w: seq<byte>, strstart: nat, cur: nat, best: Found, b: Found, prevLength: nat, maxDist: nat)
    requires strstart + MAX_MATCH <= |w| && 0 < cur < strstart && cur < 0x1_0000 && strstart - cur <= maxDist
    requires best.len >= prevLength
    requires best.len > prevLength ==> Matches(w, strstart, best, maxDist)
    requires b == Better(w, strstart, cur, best)
    ensures b.len > prevLength ==> Matches(w, strstart, b, maxDist)
  {
    hide Common;
  }

  lemma MatchRepeats(window: array<byte>, strstart: nat, f: Found, maxDist: nat, len: nat, S: seq<byte>, base: nat)
    requires WindowHolds(window, S, base) && strstart + MAX_MATCH <= window.Length && base + strstart + len <= |S|
    requires len <= f.len
    requires Matches(window[..], strstart, f, maxDist)
    ensures 0 < f.start < strstart && strstart - f.start <= maxDist
    ensures Repeats(S, base + strstart, strstart - f.start, len)
  {
    hide Common;
    var w := window[..];
    forall i {:trigger S[i]} | base + strstart <= i < base + strstart + len
      ensures S[i] == S[i - (strstart - f.start)]
    {
      var k := i - base;
      assert w[k] == w[k - (strstart - f.start)];
      assert S[base + k] == window[k];
      assert S[base + (k - (strstart - f.start))] == window[k - (strstart - f.start)];
    }
  }
}
