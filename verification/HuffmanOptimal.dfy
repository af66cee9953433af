/** Why the lengths gen_bitlen() finds are the best: no code that fits the code space takes fewer bits. */
module HuffmanOptimal {
  import opened Bits
  import opened HuffmanLengths
  import opened BitCost

  /** The code space the live nodes take, in units of the longest length M. */
  ghost function Shares(live: seq<bool>, lens: seq<nat>, M: nat): (r: seq<nat>)
    requires |lens| == |live|
    ensures |r| == |live|
    ensures forall x :: 0 <= x < |r| ==> r[x] == if live[x] && lens[x] <= M then Pow2(M - lens[x]) else 0
  {
    seq(|live|, x requires 0 <= x < |live| => if live[x] && lens[x] <= M then Pow2(M - lens[x]) else 0)
  }

  /** Lengths up to M for the live nodes that do not take more than the whole code space. */
  ghost predicate Fitting(live: seq<bool>, lens: seq<nat>, M: nat) {
    && |lens| == |live| && (forall x :: 0 <= x < |live| && live[x] ==> lens[x] <= M)
    && Sum(Shares(live, lens, M)) <= Pow2(M)
  }

  ghost function Bill(live: seq<bool>, lens: seq<nat>, w: seq<nat>): (r: seq<nat>)
    requires |lens| == |live| == |w|
    ensures |r| == |live| && forall x :: 0 <= x < |r| ==> r[x] == if live[x] then w[x] * lens[x] else 0
  {
    seq(|live|, x requires 0 <= x < |live| => if live[x] then w[x] * lens[x] else 0)
  }

  /** What the live nodes take, each as often as it weighs. */
  ghost function Price(live: seq<bool>, lens: seq<nat>, w: seq<nat>): nat
    requires |lens| == |live| == |w|
  {
    Sum(Bill(live, lens, w))
  }

  // Sums.

  lemma {:induction false} SumDouble(a: seq<nat>, b: seq<nat>)
    requires |a| == |b| && forall x :: 0 <= x < |a| ==> a[x] == 2 * b[x]
    ensures Sum(a) == 2 * Sum(b)
  {
    if |a| > 0 {
      SumDouble(a[..|a| - 1], b[..|b| - 1]);
    }
  }

  lemma {:induction false} SumEven(s: seq<nat>)
    requires forall x :: 0 <= x < |s| ==> s[x] % 2 == 0
    ensures Sum(s) % 2 == 0
  {
    if |s| > 0 {
      SumEven(s[..|s| - 1]);
    }
  }

  lemma SumTwo(s: seq<nat>, i: nat, j: nat, u: nat, v: nat)
    requires i < |s| && j < |s| && i != j
    ensures Sum(s[i := u][j := v]) + s[i] + s[j] == Sum(s) + u + v
  {
    SumUpdate(s, i, u);
    SumUpdate(s[i := u], j, v);
  }

  // Changing lengths.

  lemma NewLength(live: seq<bool>, lens: seq<nat>, w: seq<nat>, M: nat, x: nat, len: nat)
    requires |lens| == |live| == |w| && x < |live| && live[x] && len <= M && lens[x] <= M
    ensures Sum(Shares(live, lens[x := len], M)) + Pow2(M - lens[x]) == Sum(Shares(live, lens, M)) + Pow2(M - len)
    ensures Price(live, lens[x := len], w) + w[x] * lens[x] == Price(live, lens, w) + w[x] * len
  {
    hide Sum, Pow2;
    SumUpdate(Shares(live, lens, M), x, Pow2(M - len));
    assert Shares(live, lens[x := len], M) == Shares(live, lens, M)[x := Pow2(M - len)];
    SumUpdate(Bill(live, lens, w), x, w[x] * len);
    assert Bill(live, lens[x := len], w) == Bill(live, lens, w)[x := w[x] * len];
  }

  /** If no node has the longest length, one less will do. */
  lemma Shorter(live: seq<bool>, lens: seq<nat>, M: nat)
    requires M > 0 && Fitting(live, lens, M) && forall x :: 0 <= x < |live| && live[x] ==> lens[x] < M
    ensures Fitting(live, lens, M - 1)
  {
    hide Sum;
    SumDouble(Shares(live, lens, M), Shares(live, lens, M - 1));
  }

  /** If only one node has the longest length, there is room for it to be shorter. */
  lemma OnlyOne(live: seq<bool>, lens: seq<nat>, w: seq<nat>, M: nat, a: nat)
    requires M > 0 && Fitting(live, lens, M) && |w| == |live| && a < |live| && live[a] && lens[a] == M
    requires forall x :: 0 <= x < |live| && live[x] && x != a ==> lens[x] < M
    ensures Fitting(live, lens[a := M - 1], M) && Price(live, lens[a := M - 1], w) <= Price(live, lens, w)
  {
    hide Sum;
    var s := Shares(live, lens, M);
    SumUpdate(s, a, 0);
    var others: seq<nat> := s[a := 0];
    forall x | 0 <= x < |s| ensures others[x] % 2 == 0 {
      if live[x] && x != a {
        assert Pow2(M - lens[x]) == 2 * Pow2(M - lens[x] - 1);
      }
    }
    SumEven(others);
    assert Pow2(M) == 2 * Pow2(M - 1);
    NewLength(live, lens, w, M, a, M - 1);
    assert w[a] * (M - 1) <= w[a] * M;
  }

  /** Giving the longer length to the node that weighs less. */
  lemma Exchange(live: seq<bool>, lens: seq<nat>, w: seq<nat>, M: nat, n: nat, a: nat) returns (r: seq<nat>)
    requires Fitting(live, lens, M) && |w| == |live| && n < |live| && a < |live| && live[n] && live[a] && n != a
    requires w[n] <= w[a] && lens[n] <= lens[a]
    ensures r == lens[n := lens[a]][a := lens[n]] && Fitting(live, r, M) && Price(live, r, w) <= Price(live, lens, w)
  {
    hide Sum, Pow2;
    r := lens[n := lens[a]][a := lens[n]];
    NewLength(live, lens, w, M, n, lens[a]);
    NewLength(live, lens[n := lens[a]], w, M, a, lens[n]);
    Less(w[n], w[a], lens[n], lens[a]);
  }

  lemma Less(u: nat, v: nat, k: nat, l: nat)
    requires u <= v && k <= l
    ensures u * l + v * k <= u * k + v * l
  {
    assert (v - u) * (l - k) >= 0;
  }

  // One round of combining.

  function Joined(live: seq<bool>, n: nat, m: nat, node: nat): (r: seq<bool>)
    requires n < |live| && m < |live| && node < |live|
    ensures |r| == |live|
  {
    live[n := false][m := false][node := true]
  }

  /** With the two lightest nodes at the longest length, their father one step up does for both. */
  lemma JoinTwo(live: seq<bool>, lens: seq<nat>, w: seq<nat>, M: nat, n: nat, m: nat, node: nat)
    requires M > 0 && Fitting(live, lens, M) && |w| == |live| && n < |live| && m < |live| && node < |live| && n != m
    requires live[n] && live[m] && !live[node] && w[node] == w[n] + w[m] && lens[n] == lens[m] == M
    ensures Fitting(Joined(live, n, m, node), lens[node := M - 1], M)
    ensures Price(live, lens, w) == Price(Joined(live, n, m, node), lens[node := M - 1], w) + w[node]
  {
    hide Sum;
    var zero: nat, less: nat := 0, w[node] * (M - 1);
    var s: seq<nat>, b: seq<nat> := Shares(live, lens, M), Bill(live, lens, w);
    SumTwo(s, n, m, zero, zero);
    SumUpdate(s[n := zero][m := zero], node, Pow2(1));
    var s2: seq<nat>, b2: seq<nat> := s[n := zero][m := zero], b[n := zero][m := zero];
    assert s[n] == 1 && s[m] == 1 && Pow2(1) == 2;
    assert Shares(Joined(live, n, m, node), lens[node := M - 1], M) == s2[node := Pow2(1)];
    SumTwo(b, n, m, zero, zero);
    SumUpdate(b2, node, less);
    assert Bill(Joined(live, n, m, node), lens[node := M - 1], w) == b2[node := less];
    assert w[n] * M + w[m] * M == w[node] * M == w[node] * (M - 1) + w[node];
  }

  /** Two live nodes do not both fit with length zero. */
  lemma NotBothZero(live: seq<bool>, lens: seq<nat>, n: nat, m: nat)
    requires n < |live| && m < |live| && n != m && live[n] && live[m]
    ensures !Fitting(live, lens, 0)
  {
    hide Sum;
    if Fitting(live, lens, 0) {
      var s := Shares(live, lens, 0);
      SumTwo(s, n, m, 0, 0);
    }
  }

  predicate Lightest(live: seq<bool>, w: seq<nat>, n: nat, m: nat) {
    && |w| == |live| && n < |live| && m < |live| && n != m && live[n] && live[m]
    && forall x :: 0 <= x < |live| && live[x] && x != n && x != m ==> w[n] <= w[x] && w[m] <= w[x]
  }

  /** Two nodes have the longest length: then the two lightest may have it. */
  lemma Deepest(live: seq<bool>, lens: seq<nat>, w: seq<nat>, M: nat, n: nat, m: nat, a: nat, b: nat)
    returns (r: seq<nat>)
    requires Fitting(live, lens, M) && Lightest(live, w, n, m)
    requires a < |live| && b < |live| && a != b && live[a] && live[b] && lens[a] == lens[b] == M
    ensures Fitting(live, r, M) && Price(live, r, w) <= Price(live, lens, w) && r[n] == r[m] == M
  {
    hide Sum, Shares, Price;
    r := lens;
    if r[n] != M {
      r := Exchange(live, r, w, M, n, if a == m then b else a);
    }
    if r[m] != M {
      var e := if r[a] == M && a != n then a else b;
      r := Exchange(live, r, w, M, m, e);
    }
  }

  /** Whatever the lengths: with the two lightest nodes joined to one, there are lengths that take less, by
      at least the weight of the new node. */
  lemma {:induction false} Join(live: seq<bool>, lens: seq<nat>, w: seq<nat>, M: nat, n: nat, m: nat, node: nat)
    returns (r: seq<nat>, R: nat)
    requires Fitting(live, lens, M) && Lightest(live, w, n, m)
    requires node < |live| && !live[node] && w[node] == w[n] + w[m]
    ensures Fitting(Joined(live, n, m, node), r, R)
    ensures Price(live, lens, w) >= Price(Joined(live, n, m, node), r, w) + w[node]
    decreases M, |live|
  {
    hide Sum, Shares, Price, Pow2;
    if M == 0 {
      NotBothZero(live, lens, n, m);
    } else if a :| 0 <= a < |live| && live[a] && lens[a] == M {
      if b :| 0 <= b < |live| && live[b] && lens[b] == M && b != a {
        r := Deepest(live, lens, w, M, n, m, a, b);
        JoinTwo(live, r, w, M, n, m, node);
        r, R := r[node := M - 1], M;
      } else {
        OnlyOne(live, lens, w, M, a);
        Shorter(live, lens[a := M - 1], M);
        r, R := Join(live, lens[a := M - 1], w, M - 1, n, m, node);
      }
    } else {
      Shorter(live, lens, M);
      r, R := Join(live, lens, w, M - 1, n, m, node);
    }
  }

  // The tree.

  /** The two nodes joined in round t, the lighter first. */
  function Lighter(order: seq<nat>, k: nat, t: nat): nat
    requires t < k && |order| == 2 * k + 1
  {
    order[2 * (k - t)]
  }

  function Heavier(order: seq<nat>, k: nat, t: nat): nat
    requires t < k && |order| == 2 * k + 1
  {
    order[2 * (k - t) - 1]
  }

  /** The nodes come in the order of their weights, and an inner node weighs what its sons do. */
  ghost predicate Weighed(order: seq<nat>, elems: nat, k: nat, w: seq<nat>) {
    && |order| == 2 * k + 1 && elems + k <= |w| && (forall p :: 0 <= p < |order| ==> order[p] < |w|)
    && (forall p, q :: 1 <= p < q < |order| ==> w[order[p]] >= w[order[q]])
    && (forall t :: 0 <= t < k ==> w[elems + t] == w[Lighter(order, k, t)] + w[Heavier(order, k, t)])
  }

  /** Where a node stands. */
  function Place(elems: nat, pos: seq<nat>, place: seq<int>, x: nat): int {
    if x < |place| then place[x] else if elems <= x < elems + |pos| then pos[x - elems] else -1
  }

  /** The nodes there are after t rounds: those made by then and not yet joined. */
  ghost function LiveAfter(elems: nat, k: nat, pos: seq<nat>, place: seq<int>, size: nat, t: nat): (r: seq<bool>)
    ensures |r| == size
    ensures forall x :: 0 <= x < size ==> r[x] == (0 <= Place(elems, pos, place, x) <= 2 * (k - t) && x < elems + t)
  {
    seq(size, x requires 0 <= x < size => 0 <= Place(elems, pos, place, x) <= 2 * (k - t) && x < elems + t)
  }

  ghost predicate Tree(order: seq<nat>, dads: seq<nat>, elems: nat, k: nat, pos: seq<nat>, place: seq<int>,
      w: seq<nat>) {
    && Ordered(order, dads, elems, k, pos) && Placed(order, elems, place) && Weighed(order, elems, k, w)
    && |w| == |dads|
  }

  lemma PlaceOf(order: seq<nat>, dads: seq<nat>, elems: nat, k: nat, pos: seq<nat>, place: seq<int>, w: seq<nat>,
      p: nat)
    requires Tree(order, dads, elems, k, pos, place, w) && p < |order|
    ensures Place(elems, pos, place, order[p]) == p
  {
    if order[p] >= elems {
      var u := order[p] - elems;
      assert p >= 1 ==> order[p] < elems + Father(k, p);
      assert order[pos[u]] == elems + u;
    }
  }

  lemma AtPlace(order: seq<nat>, dads: seq<nat>, elems: nat, k: nat, pos: seq<nat>, place: seq<int>, w: seq<nat>,
      x: nat)
    requires Tree(order, dads, elems, k, pos, place, w) && x < |w| && Place(elems, pos, place, x) >= 0
    ensures Place(elems, pos, place, x) < |order| && order[Place(elems, pos, place, x)] == x
  {
    if x >= |place| {
      assert order[pos[x - elems]] == elems + (x - elems);
    }
  }

  /** In each round the two lightest nodes are joined. */
  lemma Round(order: seq<nat>, dads: seq<nat>, elems: nat, k: nat, pos: seq<nat>, place: seq<int>, w: seq<nat>, t: nat)
    requires Tree(order, dads, elems, k, pos, place, w) && t < k
    ensures var live, n, m := LiveAfter(elems, k, pos, place, |w|, t), Lighter(order, k, t), Heavier(order, k, t);
      && Lightest(live, w, n, m) && !live[elems + t]
      && Joined(live, n, m, elems + t) == LiveAfter(elems, k, pos, place, |w|, t + 1)
  {
    hide Ordered, Placed;
    var live, n, m := LiveAfter(elems, k, pos, place, |w|, t), Lighter(order, k, t), Heavier(order, k, t);
    PlaceOf(order, dads, elems, k, pos, place, w, 2 * (k - t));
    PlaceOf(order, dads, elems, k, pos, place, w, 2 * (k - t) - 1);
    SonsBefore(order, dads, elems, k, pos, t);
    PlaceInner(order, dads, elems, k, pos, place, w, t);
    forall x | 0 <= x < |w| && 0 <= Place(elems, pos, place, x) <= 2 * (k - t)
      ensures x < elems + t && x != n && x != m ==> w[n] <= w[x] && w[m] <= w[x]
      ensures x == n || x == m || Place(elems, pos, place, x) <= 2 * (k - t) - 2
    {
      AtPlace(order, dads, elems, k, pos, place, w, x);
    }
  }

  lemma PlaceInner(order: seq<nat>, dads: seq<nat>, elems: nat, k: nat, pos: seq<nat>, place: seq<int>, w: seq<nat>,
      t: nat)
    requires Tree(order, dads, elems, k, pos, place, w) && t < k
    ensures |pos| == k && Place(elems, pos, place, elems + t) == pos[t]
  {
  }

  lemma SonsBefore(order: seq<nat>, dads: seq<nat>, elems: nat, k: nat, pos: seq<nat>, t: nat)
    requires Ordered(order, dads, elems, k, pos) && t < k
    ensures Lighter(order, k, t) < elems + t && Heavier(order, k, t) < elems + t && order[0] == elems + k - 1
    ensures Lighter(order, k, t) != Heavier(order, k, t) && 0 <= pos[t] <= 2 * (k - 1 - t)
  {
    assert order[2 * (k - t) - 1] != order[2 * (k - t)];
    assert Father(k, 2 * (k - t)) == t && Father(k, 2 * (k - t) - 1) == t;
  }

  /** What joining costs from round t on. */
  function Joining(w: seq<nat>, elems: nat, k: nat, t: nat): nat
    requires t <= k && elems + k <= |w|
    decreases k - t
  {
    if t == k then 0 else w[elems + t] + Joining(w, elems, k, t + 1)
  }

  /** No lengths take less. */
  lemma {:induction false} AtLeast(order: seq<nat>, dads: seq<nat>, elems: nat, k: nat, pos: seq<nat>, place: seq<int>,
      w: seq<nat>, t: nat, lens: seq<nat>, M: nat)
    requires Tree(order, dads, elems, k, pos, place, w) && t <= k
    requires Fitting(LiveAfter(elems, k, pos, place, |w|, t), lens, M)
    ensures Price(LiveAfter(elems, k, pos, place, |w|, t), lens, w) >= Joining(w, elems, k, t)
    decreases k - t
  {
    hide Tree, Fitting, Price;
    TreeSize(order, dads, elems, k, pos, place, w);
    if t < k {
      Round(order, dads, elems, k, pos, place, w, t);
      var n, m := Lighter(order, k, t), Heavier(order, k, t);
      FatherWeighs(order, dads, elems, k, pos, place, w, t);
      var r, R := Join(LiveAfter(elems, k, pos, place, |w|, t), lens, w, M, n, m, elems + t);
      AtLeast(order, dads, elems, k, pos, place, w, t + 1, r, R);
    }
  }

  lemma TreeSize(order: seq<nat>, dads: seq<nat>, elems: nat, k: nat, pos: seq<nat>, place: seq<int>, w: seq<nat>)
    requires Tree(order, dads, elems, k, pos, place, w)
    ensures |order| == 2 * k + 1 && elems + k <= |w| && forall p :: 0 <= p < |order| ==> order[p] < |w|
  {
  }

  lemma FatherWeighs(order: seq<nat>, dads: seq<nat>, elems: nat, k: nat, pos: seq<nat>, place: seq<int>, w: seq<nat>,
      t: nat)
    requires Tree(order, dads, elems, k, pos, place, w) && t < k
    ensures elems + t < |w| && Lighter(order, k, t) < |w| && Heavier(order, k, t) < |w|
    ensures w[elems + t] == w[Lighter(order, k, t)] + w[Heavier(order, k, t)]
  {
  }

  /** The lengths of the tree take exactly that. */
  lemma {:induction false} JustThat(order: seq<nat>, dads: seq<nat>, elems: nat, k: nat, pos: seq<nat>, place: seq<int>,
      w: seq<nat>, t: nat, lens: seq<nat>)
    requires Tree(order, dads, elems, k, pos, place, w) && t <= k
    requires Depths(order, elems, k, lens, |order|) && |lens| == |w|
    ensures Price(LiveAfter(elems, k, pos, place, |w|, t), lens, w) == Joining(w, elems, k, t)
    decreases k - t
  {
    hide Tree, Sum;
    TreeSize(order, dads, elems, k, pos, place, w);
    var live := LiveAfter(elems, k, pos, place, |w|, t);
    if t < k {
      Round(order, dads, elems, k, pos, place, w, t);
      var n, m := Lighter(order, k, t), Heavier(order, k, t);
      FatherWeighs(order, dads, elems, k, pos, place, w, t);
      assert Father(k, 2 * (k - t)) == t && Father(k, 2 * (k - t) - 1) == t;
      FatherTakes(live, lens, w, n, m, elems + t);
      JustThat(order, dads, elems, k, pos, place, w, t + 1, lens);
    } else {
      forall x | 0 <= x < |w| ensures Bill(live, lens, w)[x] == 0 {
        if live[x] {
          AtPlace(order, dads, elems, k, pos, place, w, x);
        }
      }
      SumZero(Bill(live, lens, w));
    }
  }

  lemma FatherTakes(live: seq<bool>, lens: seq<nat>, w: seq<nat>, n: nat, m: nat, node: nat)
    requires |lens| == |live| == |w| && n < |live| && m < |live| && node < |live| && n != m
    requires live[n] && live[m] && !live[node] && w[node] == w[n] + w[m] && lens[n] == lens[m] == lens[node] + 1
    ensures Price(live, lens, w) == Price(Joined(live, n, m, node), lens, w) + w[node]
  {
    hide Sum;
    var zero: nat, less: nat := 0, w[node] * lens[node];
    var b: seq<nat> := Bill(live, lens, w);
    SumTwo(b, n, m, zero, zero);
    var b2: seq<nat> := b[n := zero][m := zero];
    SumUpdate(b2, node, less);
    assert Bill(Joined(live, n, m, node), lens, w) == b2[node := less];
    assert w[n] * lens[n] + w[m] * lens[n] == w[node] * lens[n] == w[node] * lens[node] + w[node];
  }

  /** The lengths of the tree are the best there are for its leaves. */
  lemma Best(order: seq<nat>, dads: seq<nat>, elems: nat, k: nat, pos: seq<nat>, place: seq<int>, w: seq<nat>,
      lens: seq<nat>, other: seq<nat>, M: nat)
    requires Tree(order, dads, elems, k, pos, place, w) && Depths(order, elems, k, lens, |order|) && |lens| == |w|
    requires Fitting(LiveAfter(elems, k, pos, place, |w|, 0), other, M)
    ensures Price(LiveAfter(elems, k, pos, place, |w|, 0), lens, w)
         <= Price(LiveAfter(elems, k, pos, place, |w|, 0), other, w)
  {
    hide Tree, Depths, Fitting, Price;
    JustThat(order, dads, elems, k, pos, place, w, 0, lens);
    AtLeast(order, dads, elems, k, pos, place, w, 0, other, M);
  }

  // How much a deep tree must weigh.

  /** 1, 2, 3, 5, 8, and so on. */
  function Fib(n: nat): nat {
    if n <= 1 then n + 1 else Fib(n - 1) + Fib(n - 2)
  }

  /** Where the ancestor j steps up stands. */
  function Ancestor(k: nat, pos: seq<nat>, p: nat, j: nat): nat
    requires |pos| == k
  {
    if j == 0 then p
    else
      var q := Ancestor(k, pos, p, j - 1);
      if 1 <= q <= 2 * k then pos[Father(k, q)] else 0
  }

  ghost predicate Positive(order: seq<nat>, w: seq<nat>) {
    forall p :: 0 <= p < |order| ==> order[p] < |w| && w[order[p]] >= 1
  }

  /** A father weighs as much as two places among its sons'. */
  lemma UpOne(order: seq<nat>, dads: seq<nat>, elems: nat, k: nat, pos: seq<nat>, place: seq<int>, w: seq<nat>, q: nat)
    returns (s: nat)
    requires Tree(order, dads, elems, k, pos, place, w) && 1 <= q <= 2 * k
    ensures |pos| == k && |order| == 2 * k + 1 && 1 <= s <= 2 * k && s <= q + 1
    ensures var u := pos[Father(k, q)];
      u < q && order[u] == elems + Father(k, q) && w[order[u]] == w[order[q]] + w[order[s]]
  {
    var t := Father(k, q);
    OnlySons(k, t, q);
    s := if q == 2 * (k - t) then q - 1 else q + 1;
    assert pos[t] <= 2 * (k - 1 - t) && order[pos[t]] == elems + t;
    FatherWeighs(order, dads, elems, k, pos, place, w, t);
  }

  /** An ancestor j steps up weighs at least the j-th Fibonacci number, because each node's brother was taken
      later than its sons. */
  lemma {:induction false} AncestorWeighs(order: seq<nat>, dads: seq<nat>, elems: nat, k: nat, pos: seq<nat>,
      place: seq<int>, w: seq<nat>, lens: seq<nat>, p: nat, j: nat)
    requires Tree(order, dads, elems, k, pos, place, w) && Positive(order, w) && p < |order|
    requires Depths(order, elems, k, lens, p + 1) && j <= lens[order[p]]
    ensures |pos| == k && Ancestor(k, pos, p, j) <= p
    ensures lens[order[Ancestor(k, pos, p, j)]] + j == lens[order[p]] && w[order[Ancestor(k, pos, p, j)]] >= Fib(j)
    decreases j
  {
    hide Tree, Ordered, Depths;
    TreeSize(order, dads, elems, k, pos, place, w);
    PosSize(order, dads, elems, k, pos, place, w);
    if j > 0 {
      AncestorWeighs(order, dads, elems, k, pos, place, w, lens, p, j - 1);
      var q := Ancestor(k, pos, p, j - 1);
      Shallower(order, elems, k, lens, p, q);
      var s := UpOne(order, dads, elems, k, pos, place, w, q);
      if j >= 2 {
        AncestorWeighs(order, dads, elems, k, pos, place, w, lens, p, j - 2);
        var q0 := Ancestor(k, pos, p, j - 2);
        Shallower(order, elems, k, lens, p, q0);
        var _ := UpOne(order, dads, elems, k, pos, place, w, q0);
        InOrder(order, dads, elems, k, pos, place, w, s, q0);
      }
    }
  }

  lemma Shallower(order: seq<nat>, elems: nat, k: nat, lens: seq<nat>, p: nat, q: nat)
    requires Depths(order, elems, k, lens, p + 1) && q <= p && lens[order[q]] >= 1
    ensures 1 <= q <= 2 * k && lens[order[q]] == lens[elems + Father(k, q)] + 1
  {
  }

  lemma PosSize(order: seq<nat>, dads: seq<nat>, elems: nat, k: nat, pos: seq<nat>, place: seq<int>, w: seq<nat>)
    requires Tree(order, dads, elems, k, pos, place, w)
    ensures |pos| == k
  {
  }

  lemma InOrder(order: seq<nat>, dads: seq<nat>, elems: nat, k: nat, pos: seq<nat>, place: seq<int>, w: seq<nat>,
      p: nat, q: nat)
    requires Tree(order, dads, elems, k, pos, place, w) && 1 <= p <= q < |order|
    ensures w[order[p]] >= w[order[q]]
  {
  }

  lemma DeepWeighs(order: seq<nat>, dads: seq<nat>, elems: nat, k: nat, pos: seq<nat>, place: seq<int>, w: seq<nat>,
      max: nat, lens: seq<nat>, p: nat)
    requires Tree(order, dads, elems, k, pos, place, w) && Positive(order, w) && TooDeep(order, elems, k, max, lens, p)
    ensures w[order[0]] >= Fib(max + 1)
  {
    hide Tree, Fib;
    TreeSize(order, dads, elems, k, pos, place, w);
    AncestorWeighs(order, dads, elems, k, pos, place, w, lens, p, max + 1);
    assert Ancestor(k, pos, p, max + 1) == 0;
  }

  ghost function Load(live: seq<bool>, w: seq<nat>): (r: seq<nat>)
    requires |live| == |w|
    ensures |r| == |live| && forall x :: 0 <= x < |r| ==> r[x] == if live[x] then w[x] else 0
  {
    seq(|live|, x requires 0 <= x < |live| => if live[x] then w[x] else 0)
  }

  /** Joining does not change the weight of all. */
  lemma {:induction false} AllWeigh(order: seq<nat>, dads: seq<nat>, elems: nat, k: nat, pos: seq<nat>,
      place: seq<int>, w: seq<nat>, t: nat)
    requires Tree(order, dads, elems, k, pos, place, w) && t <= k
    ensures |order| > 0 && order[0] < |w|
    ensures Sum(Load(LiveAfter(elems, k, pos, place, |w|, t), w)) == w[order[0]]
    decreases k - t
  {
    hide Tree, Sum;
    TreeSize(order, dads, elems, k, pos, place, w);
    var live := LiveAfter(elems, k, pos, place, |w|, t);
    var zero: nat := 0;
    if t < k {
      Round(order, dads, elems, k, pos, place, w, t);
      var n, m := Lighter(order, k, t), Heavier(order, k, t);
      FatherWeighs(order, dads, elems, k, pos, place, w, t);
      SumTwo(Load(live, w), n, m, zero, zero);
      var b: seq<nat> := Load(live, w)[n := zero][m := zero];
      SumUpdate(b, elems + t, w[elems + t]);
      assert Load(Joined(live, n, m, elems + t), w) == b[elems + t := w[elems + t]];
      AllWeigh(order, dads, elems, k, pos, place, w, t + 1);
    } else {
      RootIsLive(order, dads, elems, k, pos, place, w);
      var none := seq(|w|, _ => zero);
      SumZero(none);
      SumUpdate(none, order[0], w[order[0]]);
      forall x | 0 <= x < |w| && live[x] ensures x == order[0] {
        AtPlace(order, dads, elems, k, pos, place, w, x);
      }
      assert Load(live, w) == none[order[0] := w[order[0]]];
    }
  }

  lemma RootIsLive(order: seq<nat>, dads: seq<nat>, elems: nat, k: nat, pos: seq<nat>, place: seq<int>, w: seq<nat>)
    requires Tree(order, dads, elems, k, pos, place, w)
    ensures |order| > 0 && order[0] < |w| && LiveAfter(elems, k, pos, place, |w|, k)[order[0]]
  {
    PlaceOf(order, dads, elems, k, pos, place, w, 0);
  }

  // What a block takes.

  /** The symbols that occur. */
  ghost function InUse(freq: seq<nat>, n: nat): (r: seq<bool>)
    requires n <= |freq|
    ensures |r| == n && forall x :: 0 <= x < n ==> r[x] == (freq[x] != 0)
  {
    seq(n, x requires 0 <= x < n => freq[x] != 0)
  }

  /** No other lengths that give every symbol in use a code take fewer bits. */
  ghost predicate Least(freq: seq<nat>, lens: seq<nat>, extra: seq<nat>, base: nat)
    requires |lens| <= |freq|
  {
    forall other: seq<nat>, M: nat :: Fitting(InUse(freq, |lens|), other, M) && Serves(freq, other) ==>
      Cost(freq, lens, extra, base) <= Cost(freq, other, extra, base)
  }

  predicate Serves(freq: seq<nat>, lens: seq<nat>) {
    |lens| <= |freq| && forall x :: 0 <= x < |lens| && freq[x] != 0 ==> lens[x] != 0
  }

  /** The bits that do not depend on the code. */
  function Extras(freq: seq<nat>, n: nat, extra: seq<nat>, base: nat): nat
    requires n <= |freq|
  {
    if n == 0 then 0 else Extras(freq, n - 1, extra, base) + freq[n - 1] * XBits(extra, base, n - 1)
  }

  lemma {:induction false} CostIsPrice(freq: seq<nat>, lens: seq<nat>, extra: seq<nat>, base: nat)
    requires Serves(freq, lens)
    ensures Cost(freq, lens, extra, base)
         == Price(InUse(freq, |lens|), lens, freq[..|lens|]) + Extras(freq, |lens|, extra, base)
  {
    hide XBits;
    if |lens| > 0 {
      var n := |lens| - 1;
      CostIsPrice(freq, lens[..n], extra, base);
      var b := Bill(InUse(freq, |lens|), lens, freq[..|lens|]);
      assert b[..n] == Bill(InUse(freq, n), lens[..n], freq[..n]);
      assert freq[n] * (lens[n] + XBits(extra, base, n)) == freq[n] * lens[n] + freq[n] * XBits(extra, base, n);
    }
  }

  lemma {:induction false} SumUpTo(s: seq<nat>, n: nat)
    requires n <= |s| && forall x :: n <= x < |s| ==> s[x] == 0
    ensures Sum(s) == Sum(s[..n])
  {
    if n == |s| {
      assert s[..n] == s;
    } else {
      SumUpTo(s[..|s| - 1], n);
      assert s[..|s| - 1][..n] == s[..n];
    }
  }

  /** Nodes that are not live do not matter. */
  lemma Extended(live: seq<bool>, more: seq<bool>, lens: seq<nat>, longer: seq<nat>, w: seq<nat>, M: nat)
    requires |lens| == |live| <= |more| == |longer| == |w| && lens == longer[..|lens|] && live == more[..|live|]
    requires forall x :: |live| <= x < |more| ==> !more[x]
    ensures Fitting(more, longer, M) <==> Fitting(live, lens, M)
    ensures Price(more, longer, w) == Price(live, lens, w[..|live|])
  {
    hide Sum;
    var n := |live|;
    SumUpTo(Shares(more, longer, M), n);
    assert Shares(more, longer, M)[..n] == Shares(live, lens, M);
    SumUpTo(Bill(more, longer, w), n);
    assert Bill(more, longer, w)[..n] == Bill(live, lens, w[..n]);
  }

  /** The leaves of the tree are the symbols in use. */
  ghost predicate LeavesAre(freq: seq<nat>, place: seq<int>, w: seq<nat>, elems: nat) {
    && |place| <= elems <= |freq| && elems <= |w| && (forall n :: 0 <= n < elems ==> w[n] == freq[n])
    && (forall n :: 0 <= n < |place| ==> (place[n] == -1 <==> freq[n] == 0))
  }

  lemma LeavesLive(order: seq<nat>, dads: seq<nat>, elems: nat, k: nat, pos: seq<nat>, place: seq<int>, w: seq<nat>,
      freq: seq<nat>)
    requires Tree(order, dads, elems, k, pos, place, w) && LeavesAre(freq, place, w, elems)
    ensures var live, n := LiveAfter(elems, k, pos, place, |w|, 0), |place|;
      n <= |live| && live[..n] == InUse(freq, n) && forall x :: n <= x < |live| ==> !live[x]
  {
  }

  /** build_tree() without a node that is too deep is the best there is. */
  lemma TreeIsLeast(order: seq<nat>, dads: seq<nat>, elems: nat, k: nat, pos: seq<nat>, place: seq<int>, w: seq<nat>,
      freq: seq<nat>, lens: seq<nat>, extra: seq<nat>, base: nat)
    requires Tree(order, dads, elems, k, pos, place, w) && LeavesAre(freq, place, w, elems)
    requires Depths(order, elems, k, lens, |order|) && |lens| == |w| && Serves(freq, lens[..|place|])
    ensures Least(freq, lens[..|place|], extra, base)
  {
    hide Tree, Depths, Sum, Shares, Bill;
    var n, live := |place|, LiveAfter(elems, k, pos, place, |w|, 0);
    LeavesLive(order, dads, elems, k, pos, place, w, freq);
    assert w[..n] == freq[..n];
    forall other: seq<nat>, M: nat | Fitting(InUse(freq, n), other, M) && Serves(freq, other)
      ensures Cost(freq, lens[..n], extra, base) <= Cost(freq, other, extra, base)
    {
      var longer := other + seq(|w| - n, _ => 0);
      Extended(InUse(freq, n), live, other, longer, w, M);
      Extended(InUse(freq, n), live, lens[..n], lens, w, M);
      Best(order, dads, elems, k, pos, place, w, lens, longer, M);
      CostIsPrice(freq, other, extra, base);
      CostIsPrice(freq, lens[..n], extra, base);
    }
  }

  /** Codes of one bit are the best there are for any symbols. */
  lemma OneBitIsLeast(freq: seq<nat>, lens: seq<nat>, extra: seq<nat>, base: nat)
    requires |lens| <= |freq| && forall n :: 0 <= n < |lens| ==> lens[n] <= 1
    ensures Least(freq, lens, extra, base)
  {
    forall other: seq<nat>, M: nat | Fitting(InUse(freq, |lens|), other, M) && Serves(freq, other)
      ensures Cost(freq, lens, extra, base) <= Cost(freq, other, extra, base)
    {
      ShorterCosts(freq, lens, other, extra, base);
    }
  }

  lemma {:induction false} ShorterCosts(freq: seq<nat>, lens: seq<nat>, other: seq<nat>, extra: seq<nat>, base: nat)
    requires |lens| == |other| <= |freq| && Serves(freq, other) && forall n :: 0 <= n < |lens| ==> lens[n] <= 1
    ensures Cost(freq, lens, extra, base) <= Cost(freq, other, extra, base)
  {
    hide XBits;
    if |lens| > 0 {
      var n := |lens| - 1;
      ShorterCosts(freq, lens[..n], other[..n], extra, base);
      var x := XBits(extra, base, n);
      if lens[n] == 1 && other[n] >= 1 {
        assert freq[n] * (1 + x) <= freq[n] * (other[n] + x);
      }
    }
  }

  lemma LeavesWeigh(order: seq<nat>, dads: seq<nat>, elems: nat, k: nat, pos: seq<nat>, place: seq<int>, w: seq<nat>,
      freq: seq<nat>)
    requires Tree(order, dads, elems, k, pos, place, w) && LeavesAre(freq, place, w, elems)
    requires forall n :: |place| <= n < elems ==> freq[n] == 0
    ensures |order| > 0 && order[0] < |w| && w[order[0]] == Sum(freq[..elems])
  {
    hide Tree, Sum;
    var live := LiveAfter(elems, k, pos, place, |w|, 0);
    AllWeigh(order, dads, elems, k, pos, place, w, 0);
    LeavesLive(order, dads, elems, k, pos, place, w, freq);
    forall x | 0 <= x < |place| ensures live[x] == (freq[x] != 0) {
      assert live[x] == live[..|place|][x];
    }
    SumUpTo(Load(live, w), elems);
    assert Load(live, w)[..elems] == freq[..elems];
  }

  /** Nodes with positive leaves are positive. */
  lemma {:induction false} InnerPositive(order: seq<nat>, dads: seq<nat>, elems: nat, k: nat, pos: seq<nat>,
      place: seq<int>, w: seq<nat>, x: nat)
    requires Tree(order, dads, elems, k, pos, place, w) && x < elems + k
    requires forall p :: 0 <= p < |order| && order[p] < elems ==> w[order[p]] >= 1
    requires x < elems ==> x in order
    ensures w[x] >= 1
    decreases x
  {
    hide Ordered, Placed;
    TreeSize(order, dads, elems, k, pos, place, w);
    if x >= elems {
      var t := x - elems;
      FatherWeighs(order, dads, elems, k, pos, place, w, t);
      SonsBefore(order, dads, elems, k, pos, t);
      InnerPositive(order, dads, elems, k, pos, place, w, Lighter(order, k, t));
    }
  }

  lemma AllPositive(order: seq<nat>, dads: seq<nat>, elems: nat, k: nat, pos: seq<nat>, place: seq<int>, w: seq<nat>)
    requires Tree(order, dads, elems, k, pos, place, w)
    requires forall n :: 0 <= n < |place| && place[n] != -1 ==> n < |w| && w[n] >= 1
    ensures Positive(order, w)
  {
    TreeSize(order, dads, elems, k, pos, place, w);
    forall p | 0 <= p < |order| ensures w[order[p]] >= 1 {
      assert order[p] < elems + k;
      InnerPositive(order, dads, elems, k, pos, place, w, order[p]);
    }
  }

  /** Either no other lengths take fewer bits, or the tree is deeper than the limit, and then the symbols are
      at least as many as the Fibonacci number for it. */
  lemma LeastOrDeep(order: seq<nat>, dads: seq<nat>, elems: nat, k: nat, pos: seq<nat>, place: seq<int>, w: seq<nat>,
      freq: seq<nat>, lens: seq<nat>, extra: seq<nat>, base: nat, max: nat, cut: bool, deep: seq<nat>, p: nat)
    requires Tree(order, dads, elems, k, pos, place, w) && LeavesAre(freq, place, w, elems)
    requires |lens| == |w| && Serves(freq, lens[..|place|])
    requires DeepOrNot(order, elems, k, lens, max, |order|, cut, deep, p)
    requires forall n :: |place| <= n < elems ==> freq[n] == 0
    ensures !cut ==> Least(freq, lens[..|place|], extra, base)
    ensures cut ==> Sum(freq[..elems]) >= Fib(max + 1)
  {
    hide Tree, Depths, Sum, Least, Fib, Positive, TooDeep, Serves;
    if cut {
      AllPositive(order, dads, elems, k, pos, place, w);
      DeepWeighs(order, dads, elems, k, pos, place, w, max, deep, p);
      LeavesWeigh(order, dads, elems, k, pos, place, w, freq);
    } else {
      TreeIsLeast(order, dads, elems, k, pos, place, w, freq, lens, extra, base);
    }
  }

  /** A tree of two leaves is not too deep. */
  lemma TwoLeaves(order: seq<nat>, elems: nat, k: nat, dl: seq<nat>, max: nat, cut: bool, deep: seq<nat>, p: nat,
      dads: seq<nat>, pos: seq<nat>)
    requires Ordered(order, dads, elems, k, pos) && k == 1 && max >= 1
    requires DeepOrNot(order, elems, k, dl, max, |order|, cut, deep, p)
    ensures !cut
  {
  }
}
