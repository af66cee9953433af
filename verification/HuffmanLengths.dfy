/** gen_bitlen(): from the tree of nodes to code lengths within the limit. */
module HuffmanLengths {
  import opened Bits
  import opened PrefixCodes
  import opened Kraft
  import opened BitCost

  /** The k-th last pair of nodes taken from the heap: its father was the k-th last to be made. */
  function Father(k: nat, i: nat): int {
    k - 1 - (i - 1) / 2
  }

  /** All nodes of the tree in the order in which they were last taken, the root first. Nodes from `elems`
      on are inner nodes, in the order in which they were made, and `pos` says where each of them stands. */
  ghost predicate Ordered(order: seq<nat>, dads: seq<nat>, elems: nat, k: nat, pos: seq<nat>) {
    && |order| == 2 * k + 1 && k >= 1 && |pos| == k && order[0] == elems + k - 1
    && (forall i, j :: 0 <= i < j < |order| ==> order[i] != order[j])
    && (forall i :: 1 <= i < |order| ==> order[i] < |dads| && dads[order[i]] == elems + Father(k, i))
    && (forall i :: 1 <= i < |order| ==> order[i] < elems + Father(k, i))
    && (forall t :: 0 <= t < k ==> pos[t] <= 2 * (k - 1 - t) && order[pos[t]] == elems + t)
    && elems + k <= |dads|
  }

  function Sum(s: seq<nat>): nat {
    if |s| == 0 then 0 else Sum(s[..|s| - 1]) + s[|s| - 1]
  }

  lemma {:induction false} SumUpdate(s: seq<nat>, i: nat, v: nat)
    requires i < |s|
    ensures Sum(s[i := v]) + s[i] == Sum(s) + v
  {
    if i < |s| - 1 {
      SumUpdate(s[..|s| - 1], i, v);
      assert s[i := v][..|s| - 1] == s[..|s| - 1][i := v];
    } else {
      assert s[i := v][..|s| - 1] == s[..|s| - 1];
    }
  }

  lemma {:induction false} SumZero(s: seq<nat>)
    requires forall i :: 0 <= i < |s| ==> s[i] == 0
    ensures Sum(s) == 0
  {
    if |s| > 0 {
      SumZero(s[..|s| - 1]);
    }
  }

  /** The length of a son, cut off at the limit. */
  function Next(len: nat, max: nat): nat {
    if len + 1 > max then max else len + 1
  }

  /** The code space set aside for a son of a node of the given length. */
  function Share(len: nat, max: nat): nat
    requires max >= 1
  {
    if len >= max then 1 else Pow2(max - (len + 1))
  }

  lemma ShareSplits(len: nat, max: nat)
    requires 1 <= len <= max
    ensures Pow2(max - len) + (if len == max then 1 else 0) == 2 * Share(len, max)
  {
  }

  /** Where the first pass stands, before position i: what the nodes before it have for lengths, and what
      is set aside for the nodes from i on whose fathers have one. */
  ghost predicate Halfway(order: seq<nat>, dl: seq<nat>, elems: nat, k: nat, pos: seq<nat>, max: nat, i: nat,
      shares: seq<nat>, late: seq<nat>) {
    && |order| == |shares| == |late| == 2 * k + 1 && |pos| == k && 1 <= i <= |order| && max >= 1 && elems + k <= |dl|
    && Assigned(order, dl, elems, k, max, i)
    && (forall p :: 0 <= p < i ==> shares[p] == 0 && late[p] == 0)
    && (forall p :: i <= p < |order| ==> SetAside(dl, elems, k, pos, max, i, shares[p], late[p], p))
  }

  /** The nodes before position i have lengths, the others still have fathers. */
  ghost predicate Assigned(order: seq<nat>, dl: seq<nat>, elems: nat, k: nat, max: nat, i: nat)
    requires 1 <= i <= |order|
  {
    && (forall p :: 0 <= p < |order| ==> order[p] < |dl|)
    && (forall p :: 0 <= p < i ==> dl[order[p]] <= max && (p > 0 ==> dl[order[p]] >= 1))
    && (forall p :: i <= p < |order| ==> dl[order[p]] == elems + Father(k, p))
  }

  lemma AssignOne(order: seq<nat>, dl: seq<nat>, elems: nat, k: nat, max: nat, i: nat, bits: nat)
    requires 1 <= i < |order| && Assigned(order, dl, elems, k, max, i) && 1 <= bits <= max
    requires forall p, q :: 0 <= p < q < |order| ==> order[p] != order[q]
    ensures Assigned(order, dl[order[i] := bits], elems, k, max, i + 1)
  {
    hide Father;
  }

  ghost predicate SetAside(dl: seq<nat>, elems: nat, k: nat, pos: seq<nat>, max: nat, i: nat, share: nat, late: nat,
      p: nat)
    requires 1 <= p <= 2 * k && |pos| == k && max >= 1 && elems + k <= |dl|
  {
    var t := Father(k, p);
    if pos[t] < i then share == Share(dl[elems + t], max) && late == (if dl[elems + t] >= max then 1 else 0)
    else share == 0 && late == 0
  }

  lemma Start(order: seq<nat>, dl: seq<nat>, elems: nat, k: nat, pos: seq<nat>, max: nat)
    returns (shares: seq<nat>, late: seq<nat>)
    requires Ordered(order, dl, elems, k, pos) && max >= 1
    ensures var d := dl[order[0] := 0]; Halfway(order, d, elems, k, pos, max, 1, shares, late)
    ensures Sum(shares) == Pow2(max) && Sum(late) == 0
  {
    var none := seq(2 * k + 1, _ => 0);
    late := none;
    shares := none[1 := Pow2(max - 1)][2 := Pow2(max - 1)];
    SumZero(none);
    SumUpdate(none, 1, Pow2(max - 1));
    SumUpdate(none[1 := Pow2(max - 1)], 2, Pow2(max - 1));
    assert pos[k - 1] == 0;
    var d := dl[order[0] := 0];
    forall p | 1 <= p < |order|
      ensures SetAside(d, elems, k, pos, max, 1, shares[p], late[p], p)
    {
      var t := Father(k, p);
      assert pos[t] <= 2 * (k - 1 - t);
      assert order[pos[t]] == elems + t;
    }
  }

  /** What is known of the node at position i: its father has a length already. */
  lemma FatherKnown(order: seq<nat>, dads: seq<nat>, dl: seq<nat>, elems: nat, k: nat, pos: seq<nat>, max: nat,
      i: nat, shares: seq<nat>, late: seq<nat>)
    requires Ordered(order, dads, elems, k, pos) && Halfway(order, dl, elems, k, pos, max, i, shares, late)
    requires i < |order|
    ensures order[i] < |dl| && dl[order[i]] < |dl| && dl[dl[order[i]]] <= max
    ensures var len := dl[dl[order[i]]]; var bits := Next(len, max);
      1 <= bits <= max && shares[i] == Share(len, max) == Pow2(max - bits)
          && late[i] == (if len + 1 > max then 1 else 0)
  {
    var t := Father(k, i);
    assert SetAside(dl, elems, k, pos, max, i, shares[i], late[i], i);
    assert pos[t] < i;
    assert order[pos[t]] == elems + t;
  }

  /** A leaf gets its length. */
  lemma LeafStep(order: seq<nat>, dads: seq<nat>, dl: seq<nat>, elems: nat, k: nat, pos: seq<nat>, max: nat, i: nat,
      shares: seq<nat>, late: seq<nat>, bits: nat)
    requires Ordered(order, dads, elems, k, pos) && Halfway(order, dl, elems, k, pos, max, i, shares, late)
    requires i < |order|
    requires order[i] < elems && 1 <= bits <= max
    ensures Halfway(order, dl[order[i] := bits], elems, k, pos, max, i + 1, shares[i := 0], late[i := 0])
    ensures Sum(shares[i := 0]) == Sum(shares) - shares[i] && Sum(late[i := 0]) == Sum(late) - late[i]
  {
    hide Sum, Share, Assigned;
    SumUpdate(shares, i, 0);
    SumUpdate(late, i, 0);
    AssignOne(order, dl, elems, k, max, i, bits);
    NodeInRange(order, dl, elems, k, max, i);
    var d := dl[order[i] := bits];
    forall p | i + 1 <= p < |order|
      ensures SetAside(d, elems, k, pos, max, i + 1, shares[p], late[p], p)
    {
      SetAsideStill(order, dads, dl, elems, k, pos, max, i, shares[p], late[p], bits, p);
    }
  }

  lemma NodeInRange(order: seq<nat>, dl: seq<nat>, elems: nat, k: nat, max: nat, i: nat)
    requires 1 <= i < |order| && Assigned(order, dl, elems, k, max, i)
    ensures order[i] < |dl|
  {
  }

  /** What is set aside for a node does not change when a node that is not its father gets a length. */
  lemma SetAsideStill(order: seq<nat>, dads: seq<nat>, dl: seq<nat>, elems: nat, k: nat, pos: seq<nat>, max: nat,
      i: nat, share: nat, late: nat, bits: nat, p: nat)
    requires Ordered(order, dads, elems, k, pos) && max >= 1 && 1 <= i < p < |order| && elems + k <= |dl|
    requires order[i] < |dl|
    requires order[i] != elems + Father(k, p) && SetAside(dl, elems, k, pos, max, i, share, late, p)
    ensures SetAside(dl[order[i] := bits], elems, k, pos, max, i + 1, share, late, p)
  {
    var t := Father(k, p);
    assert order[pos[t]] == elems + t;
  }

  /** The first of the two places that hold the sons of inner node u. */
  function Sons(k: nat, u: nat): (c: nat)
    requires u < k
    ensures c + 1 <= 2 * k && Father(k, c) == u && Father(k, c + 1) == u
  {
    2 * (k - 1 - u) + 1
  }

  lemma OnlySons(k: nat, u: nat, p: nat)
    requires u < k && 1 <= p <= 2 * k && Father(k, p) == u
    ensures p == Sons(k, u) || p == Sons(k, u) + 1
  {
  }

  /** An inner node gets its length, and sets aside what its sons will take. */
  lemma InnerStep(order: seq<nat>, dads: seq<nat>, dl: seq<nat>, elems: nat, k: nat, pos: seq<nat>, max: nat, i: nat,
      shares: seq<nat>, late: seq<nat>, bits: nat)
    returns (shares': seq<nat>, late': seq<nat>)
    requires Ordered(order, dads, elems, k, pos) && Halfway(order, dl, elems, k, pos, max, i, shares, late)
    requires i < |order|
    requires order[i] >= elems && 1 <= bits <= max
    ensures Halfway(order, dl[order[i] := bits], elems, k, pos, max, i + 1, shares', late')
    ensures Sum(shares') == Sum(shares) - shares[i] + 2 * Share(bits, max)
    ensures Sum(late') == Sum(late) - late[i] + if bits == max then 2 else 0
  {
    hide Sum, Share, Assigned;
    PlaceIs(order, dads, elems, k, pos, i);
    NodeInRange(order, dl, elems, k, max, i);
    AssignOne(order, dl, elems, k, max, i, bits);
    var u := order[i] - elems;
    var c, w, l := Sons(k, u), Share(bits, max), if bits >= max then 1 else 0;
    assert c > i;
    assert SetAside(dl, elems, k, pos, max, i, shares[c], late[c], c);
    assert SetAside(dl, elems, k, pos, max, i, shares[c + 1], late[c + 1], c + 1);
    shares', late' := shares[i := 0][c := w][c + 1 := w], late[i := 0][c := l][c + 1 := l];
    ThreeUpdates(shares, i, c, w);
    ThreeUpdates(late, i, c, l);
    var d := dl[order[i] := bits];
    forall p | i + 1 <= p < |order|
      ensures SetAside(d, elems, k, pos, max, i + 1, shares'[p], late'[p], p)
    {
      if Father(k, p) == u {
        OnlySons(k, u, p);
      } else {
        SetAsideStill(order, dads, dl, elems, k, pos, max, i, shares[p], late[p], bits, p);
        assert p != c && p != c + 1;
      }
    }
  }

  lemma PlaceIs(order: seq<nat>, dads: seq<nat>, elems: nat, k: nat, pos: seq<nat>, i: nat)
    requires Ordered(order, dads, elems, k, pos) && 1 <= i < |order| && order[i] >= elems
    ensures order[i] - elems < k && pos[order[i] - elems] == i
  {
    var u := order[i] - elems;
    assert order[pos[u]] == elems + u;
  }

  lemma ThreeUpdates(s: seq<nat>, i: nat, c: nat, w: nat)
    requires i < c && c + 1 < |s| && s[c] == 0 && s[c + 1] == 0
    ensures Sum(s[i := 0][c := w][c + 1 := w]) == Sum(s) - s[i] + 2 * w
  {
    SumUpdate(s, i, 0);
    SumUpdate(s[i := 0], c, w);
    SumUpdate(s[i := 0][c := w], c + 1, w);
  }

  // Depths.

  /** The first nodes are each one longer than their fathers. */
  ghost predicate Depths(order: seq<nat>, elems: nat, k: nat, lens: seq<nat>, n: nat) {
    && 1 <= n <= |order| == 2 * k + 1 && elems + k <= |lens| && (forall p :: 0 <= p < |order| ==> order[p] < |lens|)
    && lens[order[0]] == 0 && forall p :: 1 <= p < n ==> lens[order[p]] == lens[elems + Father(k, p)] + 1
  }

  /** A node is deeper than the limit. */
  ghost predicate TooDeep(order: seq<nat>, elems: nat, k: nat, max: nat, lens: seq<nat>, p: nat) {
    1 <= p < |order| && Depths(order, elems, k, lens, p + 1) && lens[order[p]] == max + 1
  }

  /** What the first pass has come to: the depths of the tree, or a node that is too deep. */
  ghost predicate DeepOrNot(order: seq<nat>, elems: nat, k: nat, dl: seq<nat>, max: nat, i: nat, cut: bool,
      lens: seq<nat>, p: nat) {
    if cut then TooDeep(order, elems, k, max, lens, p) else Depths(order, elems, k, dl, i)
  }

  lemma DepthStart(order: seq<nat>, dads: seq<nat>, elems: nat, k: nat, pos: seq<nat>)
    requires Ordered(order, dads, elems, k, pos)
    ensures order[0] < |dads| && Depths(order, elems, k, dads[order[0] := 0], 1)
  {
  }

  lemma DepthStep(order: seq<nat>, dads: seq<nat>, dl: seq<nat>, elems: nat, k: nat, pos: seq<nat>, i: nat)
    requires Ordered(order, dads, elems, k, pos) && 1 <= i < |order| && Depths(order, elems, k, dl, i)
    ensures Depths(order, elems, k, dl[order[i] := dl[elems + Father(k, i)] + 1], i + 1)
  {
    var d := dl[order[i] := dl[elems + Father(k, i)] + 1];
    forall p | 0 <= p <= i ensures p >= 1 ==> d[order[p]] == d[elems + Father(k, p)] + 1 && d[order[0]] == 0 {
      if p >= 1 {
        var t := Father(k, p);
        assert order[pos[t]] == elems + t && pos[t] < p;
        assert order[0] != order[i];
      }
    }
  }

  // Counting the lengths.

  /** The code space taken so far and that set aside make up the whole, but for one unit more for every
      inner node at the limit; each of these has two sons that are too long. */
  ghost predicate Balance(counts: seq<nat>, max: nat, shares: seq<nat>, late: seq<nat>, inner: nat, overflow: nat) {
    && 1 <= max < |counts| && Space(counts, max) + Sum(shares) == Pow2(max) + inner
    && 2 * inner == overflow + Sum(late) && counts[max] + inner >= overflow
  }

  lemma BalanceLeaf(counts: seq<nat>, max: nat, shares: seq<nat>, late: seq<nat>, inner: nat, overflow: nat, i: nat,
      bits: nat)
    requires Balance(counts, max, shares, late, inner, overflow) && i < |shares| && i < |late| && 1 <= bits <= max
    requires shares[i] == Pow2(max - bits) && late[i] <= 1 && (late[i] == 1 ==> bits == max)
    requires Sum(shares) >= shares[i] && Sum(late) >= late[i]
    ensures Sum(shares[i := 0]) == Sum(shares) - shares[i] && Sum(late[i := 0]) == Sum(late) - late[i]
    ensures Balance(counts[bits := counts[bits] + 1], max, shares[i := 0], late[i := 0], inner, overflow + late[i])
  {
    hide Space, Sum;
    SumUpdate(shares, i, 0);
    SumUpdate(late, i, 0);
    SpaceMore(counts, bits, max);
  }

  lemma BalanceInner(counts: seq<nat>, max: nat, shares: seq<nat>, late: seq<nat>, shares': seq<nat>, late': seq<nat>,
      inner: nat, overflow: nat, i: nat, bits: nat)
    requires Balance(counts, max, shares, late, inner, overflow) && i < |shares| && i < |late| && 1 <= bits <= max
    requires shares[i] == Pow2(max - bits) && late[i] <= 1 && (late[i] == 1 ==> bits == max)
    requires Sum(shares') == Sum(shares) - shares[i] + 2 * Share(bits, max)
    requires Sum(late') == Sum(late) - late[i] + if bits == max then 2 else 0
    ensures Balance(counts, max, shares', late', inner + (if bits == max then 1 else 0), overflow + late[i])
  {
    hide Space, Sum, Share;
    ShareSplits(bits, max);
  }

  /** Where each leaf stands, if it is in the tree. */
  ghost predicate Placed(order: seq<nat>, elems: nat, place: seq<int>) {
    && |place| <= elems
    && (forall n :: 0 <= n < |place| ==> place[n] == -1 || (1 <= place[n] < |order| && order[place[n]] == n))
    && (forall p :: 1 <= p < |order| && order[p] < elems ==> order[p] < |place| && place[order[p]] == p)
  }

  /** The lengths of the leaves between two positions; zero for all others. */
  ghost function LensIn(place: seq<int>, dl: seq<nat>, from: nat, to: nat): (r: seq<nat>)
    requires |place| <= |dl|
    ensures |r| == |place| && forall n :: 0 <= n < |r| ==> r[n] == if from <= place[n] < to then dl[n] else 0
  {
    seq(|place|, n requires 0 <= n < |place| => if from <= place[n] < to then dl[n] else 0)
  }

  /** How many of these nodes are leaves. */
  function Leaves(nodes: seq<nat>, elems: nat): nat {
    if |nodes| == 0 then 0 else Leaves(nodes[..|nodes| - 1], elems) + if nodes[|nodes| - 1] < elems then 1 else 0
  }

  lemma LeavesMore(order: seq<nat>, elems: nat, i: nat)
    requires 1 <= i < |order|
    ensures Leaves(order[1..i + 1], elems) == Leaves(order[1..i], elems) + if order[i] < elems then 1 else 0
  {
    assert order[1..i + 1][..i - 1] == order[1..i];
  }

  lemma {:induction false} CountUpdate(lens: seq<nat>, n: nat, v: nat, len: nat)
    requires n < |lens|
    ensures Count(lens[n := v], len) + (if lens[n] == len then 1 else 0) == Count(lens, len) + if v == len then 1 else 0
  {
    if n < |lens| - 1 {
      CountUpdate(lens[..|lens| - 1], n, v, len);
      assert lens[n := v][..|lens| - 1] == lens[..|lens| - 1][n := v];
    } else {
      assert lens[n := v][..|lens| - 1] == lens[..|lens| - 1];
    }
  }

  lemma {:induction false} CountZeros(lens: seq<nat>, len: nat)
    requires len >= 1 && forall n :: 0 <= n < |lens| ==> lens[n] == 0
    ensures Count(lens, len) == 0
  {
    if |lens| > 0 {
      CountZeros(lens[..|lens| - 1], len);
    }
  }

  ghost predicate Counts(counts: seq<nat>, lens: seq<nat>) {
    |counts| == MAX_BITS + 1 && counts[0] == 0 && forall b :: 1 <= b <= MAX_BITS ==> counts[b] == Count(lens, b)
  }

  lemma CountsMore(counts: seq<nat>, lens: seq<nat>, n: nat, bits: nat)
    requires Counts(counts, lens) && n < |lens| && lens[n] == 0 && 1 <= bits <= MAX_BITS
    ensures Counts(counts[bits := counts[bits] + 1], lens[n := bits])
  {
    hide Count;
    var more := counts[bits := counts[bits] + 1];
    forall b | 1 <= b <= MAX_BITS
      ensures more[b] == Count(lens[n := bits], b)
    {
      CountUpdate(lens, n, bits, b);
    }
  }

  lemma CountsNone(counts: seq<nat>, lens: seq<nat>)
    requires |counts| == MAX_BITS + 1 && (forall b :: 0 <= b <= MAX_BITS ==> counts[b] == 0)
    requires (forall n :: 0 <= n < |lens| ==> lens[n] == 0)
    ensures Counts(counts, lens)
  {
    forall b | 1 <= b <= MAX_BITS ensures Count(lens, b) == 0 {
      CountZeros(lens, b);
    }
  }

  lemma LensMore(order: seq<nat>, elems: nat, place: seq<int>, dl: seq<nat>, i: nat, bits: nat)
    requires Placed(order, elems, place) && 1 <= i < |order| && |place| <= |dl| && order[i] < elems
    ensures order[i] < |place| && LensIn(place, dl, 1, i)[order[i]] == 0
    ensures LensIn(place, dl[order[i] := bits], 1, i + 1) == LensIn(place, dl, 1, i)[order[i] := bits]
  {
  }

  lemma LensSame(order: seq<nat>, elems: nat, place: seq<int>, dl: seq<nat>, i: nat, bits: nat)
    requires Placed(order, elems, place) && 1 <= i < |order| && |place| <= |dl| && elems <= order[i] < |dl|
    ensures LensIn(place, dl[order[i] := bits], 1, i + 1) == LensIn(place, dl, 1, i)
  {
  }

  /** What the first pass has counted before position i. */
  ghost predicate Counted(order: seq<nat>, elems: nat, place: seq<int>, dl: seq<nat>, max: nat, counts: seq<nat>,
      i: nat)
    requires 1 <= i <= |order|
  {
    && |place| <= |dl| && 1 <= max <= MAX_BITS && Counts(counts, LensIn(place, dl, 1, i))
    && (forall b :: max < b <= MAX_BITS ==> counts[b] == 0)
    && Total(counts, max) == Leaves(order[1..i], elems)
  }

  lemma CountedLeaf(order: seq<nat>, elems: nat, place: seq<int>, dl: seq<nat>, max: nat, counts: seq<nat>, i: nat,
      bits: nat)
    requires Placed(order, elems, place) && 1 <= i < |order| && order[i] < elems && order[i] < |dl|
    requires Counted(order, elems, place, dl, max, counts, i) && 1 <= bits <= max
    ensures Counted(order, elems, place, dl[order[i] := bits], max, counts[bits := counts[bits] + 1], i + 1)
  {
    hide Total, Counts, LensIn, Leaves;
    LeavesMore(order, elems, i);
    LensMore(order, elems, place, dl, i, bits);
    CountsMore(counts, LensIn(place, dl, 1, i), order[i], bits);
    CountsSize(counts, LensIn(place, dl, 1, i));
    TotalMore(counts, bits, max);
  }

  lemma CountsSize(counts: seq<nat>, lens: seq<nat>)
    requires Counts(counts, lens)
    ensures |counts| == MAX_BITS + 1
  {
  }

  lemma CountedInner(order: seq<nat>, elems: nat, place: seq<int>, dl: seq<nat>, max: nat, counts: seq<nat>, i: nat,
      bits: nat)
    requires Placed(order, elems, place) && 1 <= i < |order| && elems <= order[i] < |dl|
    requires Counted(order, elems, place, dl, max, counts, i)
    ensures Counted(order, elems, place, dl[order[i] := bits], max, counts, i + 1)
  {
    hide Total, Counts, LensIn, Leaves;
    LeavesMore(order, elems, i);
    LensSame(order, elems, place, dl, i, bits);
  }

  // gen_bitlen().

  /** One turn of the first loop, for the node at position i. */
  method AssignNode(dl: array<nat>, order: seq<nat>, ghost elems: nat, ghost k: nat, max: nat, maxCode: nat, i: nat,
      counts: array<nat>, ghost dads: seq<nat>, ghost pos: seq<nat>, ghost place: seq<int>, ghost shares: seq<nat>,
      ghost late: seq<nat>, ghost inner: nat, ghost overflow: nat)
    returns (over: bool, ghost shares': seq<nat>, ghost late': seq<nat>, ghost inner': nat)
    requires dl != counts && Ordered(order, dads, elems, k, pos) && Placed(order, elems, place) && 1 <= i < |order|
    requires |place| == maxCode + 1
    requires Halfway(order, dl[..], elems, k, pos, max, i, shares, late)
    requires Balance(counts[..], max, shares, late, inner, overflow)
    requires Counted(order, elems, place, dl[..], max, counts[..], i)
    modifies dl, counts
    ensures Halfway(order, dl[..], elems, k, pos, max, i + 1, shares', late')
    ensures Balance(counts[..], max, shares', late', inner', overflow + if over then 1 else 0)
    ensures Counted(order, elems, place, dl[..], max, counts[..], i + 1)
    ensures dl[..] == old(dl[..])[order[i] := dl[order[i]]] && dl[order[i]] >= 1
    ensures order[i] < dl.Length && old(dl[order[i]]) < dl.Length
    ensures var bits := old(dl[dl[order[i]]]) + 1;
      old(dl[dl[order[i]]]) <= max && over == (bits > max) && dl[order[i]] == if over then max else bits
  {
    hide Halfway, Balance, Counted, Ordered, Placed, Share, Sum;
    ghost var d, c := dl[..], counts[..];
    FatherKnown(order, dads, d, elems, k, pos, max, i, shares, late);
    Sizes(order, elems, place, d, max, c, i, k, pos, shares, late);
    var n := order[i];
    var bits: nat := dl[dl[n]] + 1;
    over := bits > max;
    if over {
      bits := max;
    }
    dl[n] := bits;
    assert dl[..] == d[n := bits];
    IsInner(order, elems, place, i);
    if n > maxCode {
      shares', late' := InnerStep(order, dads, d, elems, k, pos, max, i, shares, late, bits);
      inner' := inner + if bits == max then 1 else 0;
      BalanceInner(c, max, shares, late, shares', late', inner, overflow, i, bits);
      CountedInner(order, elems, place, d, max, c, i, bits);
    } else {
      LeafStep(order, dads, d, elems, k, pos, max, i, shares, late, bits);
      shares', late', inner' := shares[i := 0], late[i := 0], inner;
      BalanceLeaf(c, max, shares, late, inner, overflow, i, bits);
      CountedLeaf(order, elems, place, d, max, c, i, bits);
      counts[bits] := counts[bits] + 1;
      assert counts[..] == c[bits := c[bits] + 1];
    }
  }

  /** The same, keeping track of the depths. */
  method AssignDeep(dl: array<nat>, order: seq<nat>, ghost elems: nat, ghost k: nat, max: nat, maxCode: nat, i: nat,
      counts: array<nat>, ghost dads: seq<nat>, ghost pos: seq<nat>, ghost place: seq<int>, ghost shares: seq<nat>,
      ghost late: seq<nat>, ghost inner: nat, ghost overflow: nat, ghost lens: seq<nat>, ghost p: nat)
    returns (over: bool, ghost shares': seq<nat>, ghost late': seq<nat>, ghost inner': nat, ghost lens': seq<nat>,
      ghost p': nat)
    requires dl != counts && Ordered(order, dads, elems, k, pos) && Placed(order, elems, place) && 1 <= i < |order|
    requires |place| == maxCode + 1
    requires Halfway(order, dl[..], elems, k, pos, max, i, shares, late)
    requires Balance(counts[..], max, shares, late, inner, overflow)
    requires Counted(order, elems, place, dl[..], max, counts[..], i)
    requires DeepOrNot(order, elems, k, dl[..], max, i, overflow > 0, lens, p)
    modifies dl, counts
    ensures Halfway(order, dl[..], elems, k, pos, max, i + 1, shares', late')
    ensures Balance(counts[..], max, shares', late', inner', overflow + if over then 1 else 0)
    ensures Counted(order, elems, place, dl[..], max, counts[..], i + 1)
    ensures dl[..] == old(dl[..])[order[i] := dl[order[i]]] && dl[order[i]] >= 1
    ensures DeepOrNot(order, elems, k, dl[..], max, i + 1, overflow > 0 || over, lens', p')
  {
    hide Halfway, Balance, Counted, Ordered, Placed, DeepOrNot, Assigned;
    ghost var before := dl[..];
    HalfwayParts(order, before, elems, k, pos, max, i, shares, late);
    over, shares', late', inner' := AssignNode(dl, order, elems, k, max, maxCode, i, counts, dads, pos, place, shares,
      late, inner, overflow);
    lens', p' := DeepMore(order, dads, before, dl[..], elems, k, pos, max, i, overflow > 0, lens, p, over);
  }

  lemma HalfwayParts(order: seq<nat>, dl: seq<nat>, elems: nat, k: nat, pos: seq<nat>, max: nat, i: nat,
      shares: seq<nat>, late: seq<nat>)
    requires Halfway(order, dl, elems, k, pos, max, i, shares, late) && i < |order|
    ensures Assigned(order, dl, elems, k, max, i) && elems + k <= |dl|
  {
  }

  lemma IsInner(order: seq<nat>, elems: nat, place: seq<int>, i: nat)
    requires Placed(order, elems, place) && 1 <= i < |order|
    ensures order[i] >= |place| <==> order[i] >= elems
  {
  }

  lemma Sizes(order: seq<nat>, elems: nat, place: seq<int>, dl: seq<nat>, max: nat, counts: seq<nat>, i: nat, k: nat,
      pos: seq<nat>, shares: seq<nat>, late: seq<nat>)
    requires 1 <= i < |order| && Counted(order, elems, place, dl, max, counts, i)
    requires Halfway(order, dl, elems, k, pos, max, i, shares, late)
    ensures |counts| == MAX_BITS + 1 && 1 <= max <= MAX_BITS && |shares| == |late| == |order|
    ensures Sum(shares) >= shares[i] && Sum(late) >= late[i]
  {
    SumOver(shares, i);
    SumOver(late, i);
  }

  lemma {:induction false} SumOver(s: seq<nat>, i: nat)
    requires i < |s|
    ensures s[i] <= Sum(s)
  {
    if i < |s| - 1 {
      SumOver(s[..|s| - 1], i);
    }
  }

  /** Symbols without a place in the tree have no length. */
  ghost predicate OthersZero(place: seq<int>, dl: seq<nat>) {
    |place| <= |dl| && forall n :: 0 <= n < |place| && place[n] == -1 ==> dl[n] == 0
  }

  function UpTo(n: nat): (r: set<nat>)
    ensures |r| == n && forall i: nat :: i in r <==> i < n
  {
    if n == 0 then {} else UpTo(n - 1) + {n - 1}
  }

  lemma Subset(a: set<nat>, b: set<nat>)
    requires a <= b
    ensures |a| <= |b|
  {
    assert b == a + (b - a);
  }

  /** Different leaves are no more than the elements. */
  lemma LeavesBound(nodes: seq<nat>, elems: nat)
    requires forall i, j :: 0 <= i < j < |nodes| ==> nodes[i] != nodes[j]
    ensures Leaves(nodes, elems) <= elems
  {
    var s := LeafSet(nodes, elems);
    Subset(s, UpTo(elems));
  }

  lemma {:induction false} LeafSet(nodes: seq<nat>, elems: nat) returns (s: set<nat>)
    requires forall i, j :: 0 <= i < j < |nodes| ==> nodes[i] != nodes[j]
    ensures |s| == Leaves(nodes, elems) && forall n :: n in s ==> n < elems && n in nodes
  {
    s := {};
    if |nodes| > 0 {
      var last := nodes[|nodes| - 1];
      s := LeafSet(nodes[..|nodes| - 1], elems);
      if last < elems {
        s := s + {last};
      }
    }
  }

  /** What sending takes so far: with the lengths the leaves before position i have now, and with those of
      another tree. */
  ghost predicate Charged(opt: int, stat: int, freq: seq<nat>, lens: seq<nat>, extra: seq<nat>, base: nat,
      stree: seq<nat>) {
    && |lens| <= |freq| && opt == Cost(freq, lens, extra, base) && stat == Cost(freq, Other(lens, stree), extra, base)
  }

  lemma ChargeLeaf(opt: int, stat: int, freq: seq<nat>, lens: seq<nat>, extra: seq<nat>, base: nat, stree: seq<nat>,
      n: nat, bits: nat)
    requires n < |lens| && Charged(opt, stat, freq, lens, extra, base, stree) && lens[n] == 0 && bits >= 1
    requires stree == [] || (n < |stree| && stree[n] != 0)
    ensures var f, x := freq[n], XBits(extra, base, n);
      Charged(opt + f * (bits + x), stat + (if stree == [] then 0 else f * (stree[n] + x)), freq, lens[n := bits],
          extra, base, stree)
  {
    hide XBits, Cost;
    var was := Other(lens, stree);
    CostUpdate(freq, lens, extra, base, n, bits);
    if stree == [] {
      assert Other(lens[n := bits], stree) == was;
    } else {
      CostUpdate(freq, was, extra, base, n, stree[n]);
      assert Other(lens[n := bits], stree) == was[n := stree[n]];
    }
  }

  /** The lengths of what is to be sent grow by all occurrences of a leaf. */
  method Charge(optLen: nat, staticLen: nat, freq: seq<nat>, extra: seq<nat>, base: nat, stree: seq<nat>, n: nat,
      bits: nat, ghost lens: seq<nat>) returns (opt: nat, stat: nat)
    requires n < |lens| && Charged(optLen, staticLen, freq, lens, extra, base, stree) && lens[n] == 0 && bits >= 1
    requires Covers(stree, |lens|)
    ensures Charged(opt, stat, freq, lens[n := bits], extra, base, stree)
  {
    hide XBits, Cost;
    ChargeLeaf(optLen, staticLen, freq, lens, extra, base, stree, n, bits);
    var x := XBits(extra, base, n);
    opt, stat := optLen + freq[n] * (bits + x), staticLen;
    if |stree| > 0 {
      stat := stat + freq[n] * (stree[n] + x);
    }
  }

  lemma ChargeNone(freq: seq<nat>, lens: seq<nat>, extra: seq<nat>, base: nat, stree: seq<nat>)
    requires |lens| <= |freq| && forall n :: 0 <= n < |lens| ==> lens[n] == 0
    ensures Charged(0, 0, freq, lens, extra, base, stree)
  {
    CostNone(freq, lens, extra, base);
    CostNone(freq, Other(lens, stree), extra, base);
  }

  ghost predicate Covers(stree: seq<nat>, n: nat) {
    stree == [] || (n <= |stree| && forall i :: 0 <= i < n ==> stree[i] != 0)
  }

  /** The first loop of gen_bitlen(): the depth of each node below its father's, up to the limit. */
  method FirstPass(dl: array<nat>, order: seq<nat>, ghost elems: nat, ghost k: nat, max: nat, maxCode: nat,
      counts: array<nat>, freq: seq<nat>, extra: seq<nat>, base: nat, stree: seq<nat>, ghost pos: seq<nat>,
      ghost place: seq<int>)
    returns (overflow: nat, opt: nat, stat: nat, ghost deepLens: seq<nat>, ghost deep: nat)
    requires dl != counts && Ordered(order, dl[..], elems, k, pos) && Placed(order, elems, place)
    requires OthersZero(place, dl[..]) && |place| == maxCode + 1
    requires 1 <= max <= MAX_BITS && elems < Pow2(max) && counts.Length == MAX_BITS + 1
    requires forall b :: 0 <= b <= MAX_BITS ==> counts[b] == 0
    requires |place| <= |freq| && Covers(stree, |place|)
    modifies dl, counts
    ensures Overfull(counts[..], max, Leaves(order[1..], elems), overflow) && OthersZero(place, dl[..])
    ensures Counted(order, elems, place, dl[..], max, counts[..], |order|)
    ensures Assigned(order, dl[..], elems, k, max, |order|)
    ensures Charged(opt, stat, freq, LensIn(place, dl[..], 1, |order|), extra, base, stree)
    ensures DeepOrNot(order, elems, k, dl[..], max, |order|, overflow > 0, deepLens, deep)
    ensures forall n :: 0 <= n < dl.Length && (forall p :: 0 <= p < |order| ==> order[p] != n) ==> dl[n] == old(dl[n])
  {
    hide Halfway, Balance, Counted, Share, Sum, Counts, Space, Total, Pow2, LensIn, Count, Charged, XBits, Covers;
    hide DeepOrNot, Depths;
    ghost var dads, zero := dl[..], counts[..];
    ghost var shares, late := Start(order, dads, elems, k, pos, max);
    dl[order[0]] := 0;
    assert dl[..] == dads[order[0] := 0];
    overflow, opt, stat, deepLens, deep := 0, 0, 0, [], 0;
    DepthStart(order, dads, elems, k, pos);
    StartDeep(order, elems, k, dl[..], max);
    NothingCharged(place, dl[..], freq, extra, base, stree);
    ghost var inner: nat := 0;
    StartCounted(order, elems, place, dl[..], max, zero, shares, late);
    for i := 1 to |order|
      invariant Halfway(order, dl[..], elems, k, pos, max, i, shares, late)
      invariant Balance(counts[..], max, shares, late, inner, overflow)
      invariant Counted(order, elems, place, dl[..], max, counts[..], i) && OthersZero(place, dl[..])
      invariant Charged(opt, stat, freq, LensIn(place, dl[..], 1, i), extra, base, stree)
      invariant DeepOrNot(order, elems, k, dl[..], max, i, overflow > 0, deepLens, deep)
      invariant forall n :: 0 <= n < dl.Length && (forall p :: 0 <= p < |order| ==> order[p] != n) ==>
                  dl[n] == old(dl[n])
    {
      ghost var before := dl[..];
      ghost var shares', late', inner';
      var over;
      over, shares', late', inner', deepLens, deep := AssignDeep(dl, order, elems, k, max, maxCode, i, counts, dads,
        pos, place, shares, late, inner, overflow, deepLens, deep);
      shares, late, inner := shares', late', inner';
      if over {
        overflow := overflow + 1;
      }
      var n := order[i];
      IsInner(order, elems, place, i);
      LensNext(order, elems, place, before, dl[..], i);
      if n <= maxCode {
        opt, stat := Charge(opt, stat, freq, extra, base, stree, n, dl[n], LensIn(place, before, 1, i));
      }
    }
    FirstPassEnds(order, dads, dl[..], elems, k, pos, place, max, counts[..], shares, late, inner, overflow);
  }

  lemma StartDeep(order: seq<nat>, elems: nat, k: nat, dl: seq<nat>, max: nat)
    requires Depths(order, elems, k, dl, 1)
    ensures DeepOrNot(order, elems, k, dl, max, 1, false, [], 0)
  {
  }

  lemma DeepMore(order: seq<nat>, dads: seq<nat>, before: seq<nat>, dl: seq<nat>, elems: nat, k: nat, pos: seq<nat>,
      max: nat, i: nat, cut: bool, lens: seq<nat>, p: nat, over: bool) returns (lens': seq<nat>, p': nat)
    requires Ordered(order, dads, elems, k, pos) && 1 <= i < |order| && Assigned(order, before, elems, k, max, i)
    requires DeepOrNot(order, elems, k, before, max, i, cut, lens, p) && elems + k <= |before|
    requires before[order[i]] < |before| && before[before[order[i]]] <= max
    requires over == (before[before[order[i]]] + 1 > max)
    requires dl == before[order[i] := if over then max else before[before[order[i]]] + 1]
    ensures DeepOrNot(order, elems, k, dl, max, i + 1, cut || over, lens', p')
  {
    lens', p' := lens, p;
    if !cut {
      DepthStep(order, dads, before, elems, k, pos, i);
      if over {
        lens', p' := before[order[i] := max + 1], i;
      }
    }
  }

  lemma NothingCharged(place: seq<int>, dl: seq<nat>, freq: seq<nat>, extra: seq<nat>, base: nat, stree: seq<nat>)
    requires |place| <= |dl| && |place| <= |freq|
    ensures Charged(0, 0, freq, LensIn(place, dl, 1, 1), extra, base, stree)
  {
    ChargeNone(freq, LensIn(place, dl, 1, 1), extra, base, stree);
  }

  lemma LensNext(order: seq<nat>, elems: nat, place: seq<int>, before: seq<nat>, dl: seq<nat>, i: nat)
    requires Placed(order, elems, place) && 1 <= i < |order| && |place| <= |before| && order[i] < |before| == |dl|
    requires dl == before[order[i] := dl[order[i]]]
    ensures order[i] >= |place| ==> LensIn(place, dl, 1, i + 1) == LensIn(place, before, 1, i)
    ensures order[i] < |place| ==> LensIn(place, before, 1, i)[order[i]] == 0
    ensures order[i] < |place| ==>
              LensIn(place, dl, 1, i + 1) == LensIn(place, before, 1, i)[order[i] := dl[order[i]]]
  {
    if order[i] < elems {
      LensMore(order, elems, place, before, i, dl[order[i]]);
    } else {
      LensSame(order, elems, place, before, i, dl[order[i]]);
    }
  }

  lemma StartCounted(order: seq<nat>, elems: nat, place: seq<int>, dl: seq<nat>, max: nat, zero: seq<nat>,
      shares: seq<nat>, late: seq<nat>)
    requires |zero| == MAX_BITS + 1 && (forall b :: 0 <= b <= MAX_BITS ==> zero[b] == 0) && 1 <= max <= MAX_BITS
    requires 1 <= |order|
    requires |place| <= |dl| && Sum(shares) == Pow2(max) && Sum(late) == 0
    ensures Balance(zero, max, shares, late, 0, 0) && Counted(order, elems, place, dl, max, zero, 1)
  {
    hide Sum, Pow2;
    SpaceOfNone(zero, max);
    TotalOfNone(zero, max);
    CountsNone(zero, LensIn(place, dl, 1, 1));
    assert order[1..1] == [];
  }

  lemma {:induction false} TotalOfNone(counts: seq<nat>, len: nat)
    requires len < |counts| && forall b :: 1 <= b <= len ==> counts[b] == 0
    ensures Total(counts, len) == 0
  {
    if len > 0 {
      TotalOfNone(counts, len - 1);
    }
  }

  lemma FirstPassEnds(order: seq<nat>, dads: seq<nat>, dl: seq<nat>, elems: nat, k: nat, pos: seq<nat>,
      place: seq<int>, max: nat, counts: seq<nat>, shares: seq<nat>, late: seq<nat>, inner: nat, overflow: nat)
    requires Ordered(order, dads, elems, k, pos) && Halfway(order, dl, elems, k, pos, max, |order|, shares, late)
    requires Balance(counts, max, shares, late, inner, overflow)
    requires Counted(order, elems, place, dl, max, counts, |order|) && elems < Pow2(max)
    ensures Overfull(counts, max, Leaves(order[1..], elems), overflow) && Assigned(order, dl, elems, k, max, |order|)
  {
    hide Space, Total, Pow2, Leaves, Assigned, Counts;
    SumZero(shares);
    SumZero(late);
    LeavesBound(order[1..], elems);
    assert order[1..|order|] == order[1..];
  }

  // After a repair the lengths are given out anew.

  /** The leaves from position h on have been given the greatest lengths: all those beyond `bits`, and all
      but `left` of that length. */
  ghost predicate GivenOut(order: seq<nat>, elems: nat, place: seq<int>, dl: seq<nat>, max: nat, counts: seq<nat>,
      h: nat, bits: nat, left: nat)
    requires 1 <= h <= |order|
  {
    && |place| <= |dl| && |counts| == MAX_BITS + 1 && bits <= max <= MAX_BITS && left <= counts[bits]
    && (forall b :: 1 <= b <= MAX_BITS ==> Count(LensIn(place, dl, h, |order|), b) == Given(counts, max, bits, left, b))
    && Leaves(order[1..h], elems) == Total(counts, bits) - (counts[bits] - left)
    && (forall p :: h <= p < |order| && order[p] < elems ==> order[p] < |dl| && 1 <= dl[order[p]] <= max)
  }

  function Given(counts: seq<nat>, max: nat, bits: nat, left: nat, b: nat): int
    requires bits < |counts| && b < |counts|
  {
    if b > max || b < bits then 0 else if b == bits then counts[b] - left else counts[b]
  }

  lemma LensBack(order: seq<nat>, elems: nat, place: seq<int>, dl: seq<nat>, h: nat, bits: nat)
    requires Placed(order, elems, place) && 1 <= h < |order| && |place| <= |dl| && order[h] < elems
    ensures order[h] < |place| && LensIn(place, dl, h + 1, |order|)[order[h]] == 0
    ensures LensIn(place, dl[order[h] := bits], h, |order|) == LensIn(place, dl, h + 1, |order|)[order[h] := bits]
  {
  }

  lemma LensPast(order: seq<nat>, elems: nat, place: seq<int>, dl: seq<nat>, h: nat)
    requires Placed(order, elems, place) && 1 <= h < |order| && |place| <= |dl| && order[h] >= elems
    ensures LensIn(place, dl, h, |order|) == LensIn(place, dl, h + 1, |order|)
  {
  }

  lemma GiveOne(order: seq<nat>, elems: nat, place: seq<int>, dl: seq<nat>, max: nat, counts: seq<nat>, h: nat,
      bits: nat, left: nat)
    requires Placed(order, elems, place) && 1 <= h < |order| && order[h] < elems && left > 0 && bits >= 1
    requires GivenOut(order, elems, place, dl, max, counts, h + 1, bits, left)
    ensures order[h] < |place| && GivenOut(order, elems, place, dl[order[h] := bits], max, counts, h, bits, left - 1)
  {
    hide Total, LensIn, Leaves, Count;
    LensBack(order, elems, place, dl, h, bits);
    LeavesMore(order, elems, h);
    var lens, more := LensIn(place, dl, h + 1, |order|), LensIn(place, dl[order[h] := bits], h, |order|);
    forall b | 1 <= b <= MAX_BITS
      ensures Count(more, b) == Given(counts, max, bits, left - 1, b)
    {
      CountUpdate(lens, order[h], bits, b);
    }
  }

  lemma GiveNone(order: seq<nat>, elems: nat, place: seq<int>, dl: seq<nat>, max: nat, counts: seq<nat>, h: nat,
      bits: nat, left: nat)
    requires Placed(order, elems, place) && 1 <= h < |order| && order[h] >= elems
    requires GivenOut(order, elems, place, dl, max, counts, h + 1, bits, left)
    ensures GivenOut(order, elems, place, dl, max, counts, h, bits, left)
  {
    hide Total, LensIn, Leaves, Count;
    LensPast(order, elems, place, dl, h);
    LeavesMore(order, elems, h);
  }

  /** All of one length are given out; the next shorter one follows. */
  lemma NextLength(order: seq<nat>, elems: nat, place: seq<int>, dl: seq<nat>, max: nat, counts: seq<nat>, h: nat,
      bits: nat)
    requires 1 <= h <= |order| && bits >= 1 && GivenOut(order, elems, place, dl, max, counts, h, bits, 0)
    ensures GivenOut(order, elems, place, dl, max, counts, h, bits - 1, counts[bits - 1])
  {
    hide LensIn, Leaves, Count;
  }

  lemma SomeLeft(order: seq<nat>, elems: nat, place: seq<int>, dl: seq<nat>, max: nat, counts: seq<nat>, h: nat,
      bits: nat, left: nat)
    requires 1 <= h <= |order| && bits >= 1 && left > 0 && GivenOut(order, elems, place, dl, max, counts, h, bits, left)
    ensures h > 1
  {
    hide LensIn, Count, Given;
    TotalOver(counts, bits, bits);
    assert order[1..1] == [];
  }

  lemma {:induction false} NoLeaves(order: seq<nat>, elems: nat, h: nat)
    requires 1 <= h <= |order| && Leaves(order[1..h], elems) == 0
    ensures forall p :: 1 <= p < h ==> order[p] >= elems
  {
    if h > 1 {
      LeavesMore(order, elems, h - 1);
      NoLeaves(order, elems, h - 1);
    }
  }

  /** When nothing is left to give out, every leaf has its length. */
  lemma AllGiven(order: seq<nat>, elems: nat, place: seq<int>, dl: seq<nat>, max: nat, counts: seq<nat>, h: nat)
    requires Placed(order, elems, place) && 1 <= h <= |order| && |counts| == MAX_BITS + 1
    requires GivenOut(order, elems, place, dl, max, counts, h, 0, 0)
    requires counts[0] == 0 && forall b :: max < b <= MAX_BITS ==> counts[b] == 0
    ensures Counts(counts, LensIn(place, dl, 1, |order|))
    ensures forall p :: 1 <= p < |order| && order[p] < elems ==> order[p] < |dl| && 1 <= dl[order[p]] <= max
  {
    hide Count, Leaves;
    NoLeaves(order, elems, h);
    assert LensIn(place, dl, 1, |order|) == LensIn(place, dl, h, |order|);
  }

  /** The last loop of gen_bitlen(): from the rarest leaf on, the longest lengths first. */
  method GiveOut(dl: array<nat>, order: seq<nat>, ghost elems: nat, max: nat, maxCode: nat, counts: array<nat>,
      freq: seq<nat>, extra: seq<nat>, base: nat, optLen: int, ghost place: seq<int>) returns (opt: int)
    requires dl != counts && Placed(order, elems, place) && |place| == maxCode + 1 && |order| >= 1
    requires counts.Length == MAX_BITS + 1 && 1 <= max <= MAX_BITS
    requires Total(counts[..], max) == Leaves(order[1..], elems) && counts[0] == 0
    requires forall b :: max < b <= MAX_BITS ==> counts[b] == 0
    requires OthersZero(place, dl[..]) && forall p :: 0 <= p < |order| ==> order[p] < dl.Length
    requires |place| <= |freq| && optLen == Cost(freq, dl[..maxCode + 1], extra, base)
    requires forall n :: 0 <= n <= maxCode && place[n] != -1 ==> dl[n] != 0
    modifies dl
    ensures opt == Cost(freq, dl[..maxCode + 1], extra, base)
    ensures forall n :: maxCode < n < dl.Length ==> dl[n] == old(dl[n])
    ensures Counts(counts[..], LensIn(place, dl[..], 1, |order|)) && OthersZero(place, dl[..])
    ensures forall p :: 1 <= p < |order| && order[p] < elems ==> 1 <= dl[order[p]] <= max
  {
    hide GivenOut, Counts, Total, Leaves, LensIn, Cost, XBits;
    ghost var c := counts[..];
    opt := optLen;
    var h: nat := |order|;
    NothingGiven(order, elems, place, dl[..], max, c);
    var bits: nat := max;
    while bits != 0
      invariant 1 <= h <= |order| && bits <= max && GivenOut(order, elems, place, dl[..], max, c, h, bits, c[bits])
      invariant OthersZero(place, dl[..])
      invariant opt == Cost(freq, dl[..maxCode + 1], extra, base)
      invariant forall n :: 0 <= n <= maxCode && place[n] != -1 ==> dl[n] != 0
      invariant forall n :: maxCode < n < dl.Length ==> dl[n] == old(dl[n])
    {
      var n: nat := counts[bits];
      while n != 0
        invariant 1 <= h <= |order| && n <= c[bits] && GivenOut(order, elems, place, dl[..], max, c, h, bits, n)
        invariant OthersZero(place, dl[..])
        invariant opt == Cost(freq, dl[..maxCode + 1], extra, base)
        invariant forall n :: 0 <= n <= maxCode && place[n] != -1 ==> dl[n] != 0
        invariant forall n :: maxCode < n < dl.Length ==> dl[n] == old(dl[n])
        decreases h
      {
        SomeLeft(order, elems, place, dl[..], max, c, h, bits, n);
        h := h - 1;
        var m := order[h];
        ghost var before := dl[..];
        IsInner(order, elems, place, h);
        if m > maxCode {
          GiveNone(order, elems, place, before, max, c, h, bits, n);
          continue;
        }
        GiveOne(order, elems, place, before, max, c, h, bits, n);
        if dl[m] != bits {
          Recharge(freq, before[..maxCode + 1], extra, base, m, bits);
          opt := opt + (bits - dl[m]) * freq[m];
          dl[m] := bits;
          assert dl[..maxCode + 1] == before[..maxCode + 1][m := bits];
        }
        assert dl[..] == before[m := bits];
        n := n - 1;
      }
      NextLength(order, elems, place, dl[..], max, c, h, bits);
      bits := bits - 1;
    }
    AllGiven(order, elems, place, dl[..], max, c, h);
  }

  lemma Recharge(freq: seq<nat>, lens: seq<nat>, extra: seq<nat>, base: nat, m: nat, bits: nat)
    requires m < |lens| <= |freq| && lens[m] != 0 && bits != 0
    ensures Cost(freq, lens[m := bits], extra, base) == Cost(freq, lens, extra, base) + (bits - lens[m]) * freq[m]
  {
    hide Cost, XBits;
    CostUpdate(freq, lens, extra, base, m, bits);
    Distribute(freq[m], lens[m], bits, XBits(extra, base, m));
  }

  lemma Distribute(f: nat, a: nat, b: nat, x: nat)
    ensures f * (b + x) == f * (a + x) + (b - a) * f
  {
  }

  lemma NothingGiven(order: seq<nat>, elems: nat, place: seq<int>, dl: seq<nat>, max: nat, counts: seq<nat>)
    requires |place| <= |dl| && |counts| == MAX_BITS + 1 && 1 <= max <= MAX_BITS && |order| >= 1
    requires Placed(order, elems, place) && Total(counts, max) == Leaves(order[1..], elems)
    ensures GivenOut(order, elems, place, dl, max, counts, |order|, max, counts[max])
  {
    hide Count, Total, Leaves;
    var lens := LensIn(place, dl, |order|, |order|);
    forall b | 1 <= b <= MAX_BITS ensures Count(lens, b) == 0 {
      CountZeros(lens, b);
    }
    assert order[1..|order|] == order[1..];
  }

  /** gen_bitlen(): every leaf has a length within the limit, and together they take the code space
      exactly. The bits needed to send what was counted are those of the lengths in the end. */
  method GenBitLen(dl: array<nat>, order: seq<nat>, ghost elems: nat, ghost k: nat, max: nat, maxCode: nat,
      counts: array<nat>, freq: seq<nat>, extra: seq<nat>, base: nat, stree: seq<nat>, ghost pos: seq<nat>,
      ghost place: seq<int>) returns (opt: int, stat: int, ghost cut: bool, ghost deepLens: seq<nat>, ghost deep: nat)
    requires dl != counts && Ordered(order, dl[..], elems, k, pos) && Placed(order, elems, place)
    requires OthersZero(place, dl[..]) && |place| == maxCode + 1
    requires 1 <= max <= MAX_BITS && elems < Pow2(max) && counts.Length == MAX_BITS + 1 && |place| <= |freq|
    requires Covers(stree, |place|)
    modifies dl, counts
    ensures Consistent(dl[..maxCode + 1]) && Counts(counts[..], dl[..maxCode + 1])
    ensures Space(counts[..], max) == Pow2(max)
    ensures forall n :: 0 <= n <= maxCode ==> dl[n] <= max && (dl[n] == 0 <==> place[n] == -1)
    ensures Charged(opt, stat, freq, dl[..maxCode + 1], extra, base, stree)
    ensures k == 1 ==> forall n :: 0 <= n <= maxCode ==> dl[n] <= 1
    ensures forall n :: maxCode < n < elems && n < dl.Length ==> dl[n] == old(dl[n])
    ensures DeepOrNot(order, elems, k, dl[..], max, |order|, cut, deepLens, deep)
  {
    hide Ordered, Placed, OthersZero, Counted, Assigned, Overfull, Counts, Space, Total, Leaves, Count, Pow2, LensIn;
    hide Charged, Covers, Cost, Other, DeepOrNot, Depths;
    for bits := 0 to MAX_BITS + 1
      invariant forall b :: 0 <= b < bits ==> counts[b] == 0
      invariant dl[..] == old(dl[..])
    {
      counts[bits] := 0;
    }
    OrderedSize(order, dl[..], elems, k, pos);
    NotInTree(order, elems, place);
    var overflow;
    overflow, opt, stat, deepLens, deep := FirstPass(dl, order, elems, k, max, maxCode, counts, freq, extra, base,
      stree, pos, place);
    cut := overflow > 0;
    ghost var leaves := Leaves(order[1..], elems);
    InRange(order, elems, k, max, dl[..], counts[..], place, leaves, overflow);
    LensAre(order, elems, place, dl[..], max, maxCode);
    ghost var first, first' := dl[..maxCode + 1], dl[..];
    ChargedParts(opt, stat, freq, first, extra, base, stree);
    if overflow != 0 {
      Repair(counts, max, leaves, overflow);
      RepairedTotal(counts[..], max, leaves);
      opt := GiveOut(dl, order, elems, max, maxCode, counts, freq, extra, base, opt, place);
      LensAre(order, elems, place, dl[..], max, maxCode);
      DeepStays(order, elems, k, first', dl[..], max, |order|, deepLens, deep);
    }
    AllLengths(order, elems, place, dl[..], max, maxCode, counts[..], leaves);
    OtherSame(first, dl[..maxCode + 1], stree);
    ChargedNow(opt, stat, freq, dl[..maxCode + 1], extra, base, stree);
    if k == 1 {
      LeavesAtMost(order[1..], elems);
      OneBitEach(dl[..maxCode + 1], counts[..], max, leaves);
    }
  }

  lemma DeepStays(order: seq<nat>, elems: nat, k: nat, dl: seq<nat>, dl': seq<nat>, max: nat, i: nat, lens: seq<nat>,
      p: nat)
    requires DeepOrNot(order, elems, k, dl, max, i, true, lens, p)
    ensures DeepOrNot(order, elems, k, dl', max, i, true, lens, p)
  {
  }

  lemma LensAre(order: seq<nat>, elems: nat, place: seq<int>, dl: seq<nat>, max: nat, maxCode: nat)
    requires Placed(order, elems, place) && OthersZero(place, dl) && |place| == maxCode + 1
    requires forall p :: 1 <= p < |order| && order[p] < elems ==> order[p] < |dl| && 1 <= dl[order[p]] <= max
    ensures maxCode < |dl| && LensIn(place, dl, 1, |order|) == dl[..maxCode + 1]
    ensures forall n :: 0 <= n <= maxCode ==> (dl[n] == 0 <==> place[n] == -1)
  {
  }

  lemma ChargedParts(opt: int, stat: int, freq: seq<nat>, lens: seq<nat>, extra: seq<nat>, base: nat, stree: seq<nat>)
    requires Charged(opt, stat, freq, lens, extra, base, stree)
    ensures |lens| <= |freq| && opt == Cost(freq, lens, extra, base)
    ensures stat == Cost(freq, Other(lens, stree), extra, base)
  {
  }

  lemma ChargedNow(opt: int, stat: int, freq: seq<nat>, lens: seq<nat>, extra: seq<nat>, base: nat, stree: seq<nat>)
    requires |lens| <= |freq| && opt == Cost(freq, lens, extra, base)
    requires stat == Cost(freq, Other(lens, stree), extra, base)
    ensures Charged(opt, stat, freq, lens, extra, base, stree)
  {
  }

  lemma OtherSame(a: seq<nat>, b: seq<nat>, stree: seq<nat>)
    requires |a| == |b| && forall n :: 0 <= n < |a| ==> (a[n] == 0 <==> b[n] == 0)
    ensures Other(a, stree) == Other(b, stree)
  {
  }

  lemma {:induction false} LeavesAtMost(nodes: seq<nat>, elems: nat)
    ensures Leaves(nodes, elems) <= |nodes|
  {
    if |nodes| > 0 {
      LeavesAtMost(nodes[..|nodes| - 1], elems);
    }
  }

  /** A tree with two leaves gives each one bit. */
  lemma OneBitEach(lens: seq<nat>, counts: seq<nat>, max: nat, leaves: nat)
    requires Counts(counts, lens) && Overfull(counts, max, leaves, 0) && leaves <= 2 && max <= MAX_BITS
    requires forall n :: 0 <= n < |lens| ==> lens[n] <= max
    ensures forall n :: 0 <= n < |lens| ==> lens[n] <= 1
  {
    hide Pow2, Space, Count;
    if counts[1] <= 1 {
      TwoCodes(counts, max);
    }
    forall n | 0 <= n < |lens| ensures lens[n] <= 1 {
      if lens[n] > 1 {
        CountPrefix(lens, |lens|, n, lens[n]);
        assert lens[..|lens|] == lens;
        TotalOfTwo(counts, lens[n], max);
      }
    }
  }

  lemma {:induction false} TotalOfTwo(counts: seq<nat>, b: nat, len: nat)
    requires 2 <= b <= len < |counts|
    ensures counts[1] + counts[b] <= Total(counts, len)
  {
    if b < len {
      TotalOfTwo(counts, b, len - 1);
    } else {
      TotalOver(counts, 1, len - 1);
    }
  }

  lemma NotInTree(order: seq<nat>, elems: nat, place: seq<int>)
    requires Placed(order, elems, place) && |order| > 0 && order[0] >= elems
    ensures forall p :: 0 <= p < |order| ==> order[p] < |place| || order[p] >= elems
  {
  }

  lemma OrderedSize(order: seq<nat>, dads: seq<nat>, elems: nat, k: nat, pos: seq<nat>)
    requires Ordered(order, dads, elems, k, pos)
    ensures |order| == 2 * k + 1 && order[0] >= elems
  {
  }

  lemma InRange(order: seq<nat>, elems: nat, k: nat, max: nat, dl: seq<nat>, counts: seq<nat>, place: seq<int>,
      leaves: nat, overflow: nat)
    requires |order| >= 1 && Assigned(order, dl, elems, k, max, |order|)
    requires Counted(order, elems, place, dl, max, counts, |order|)
    ensures forall p :: 0 <= p < |order| ==> order[p] < |dl|
    ensures forall p :: 1 <= p < |order| && order[p] < elems ==> 1 <= dl[order[p]] <= max
    ensures |counts| == MAX_BITS + 1 && Counts(counts, LensIn(place, dl, 1, |order|)) && counts[0] == 0
    ensures forall b :: max < b <= MAX_BITS ==> counts[b] == 0
  {
    hide Count;
  }

  lemma RepairedTotal(counts: seq<nat>, max: nat, leaves: nat)
    requires Overfull(counts, max, leaves, 0)
    ensures max < |counts| && Total(counts, max) == leaves && Space(counts, max) == Pow2(max)
  {
  }

  lemma AllLengths(order: seq<nat>, elems: nat, place: seq<int>, dl: seq<nat>, max: nat, maxCode: nat,
      counts: seq<nat>, leaves: nat)
    requires Placed(order, elems, place) && OthersZero(place, dl) && |place| == maxCode + 1 && 1 <= max <= MAX_BITS
    requires Counts(counts, LensIn(place, dl, 1, |order|)) && Overfull(counts, max, leaves, 0)
    requires forall b :: max < b <= MAX_BITS ==> counts[b] == 0
    requires forall p :: 1 <= p < |order| && order[p] < elems ==> order[p] < |dl| && 1 <= dl[order[p]] <= max
    ensures maxCode < |dl| && Consistent(dl[..maxCode + 1]) && Counts(counts, dl[..maxCode + 1])
    ensures Space(counts, max) == Pow2(max)
    ensures forall n :: 0 <= n <= maxCode ==> dl[n] <= max && (dl[n] == 0 <==> place[n] == -1)
  {
    hide Count, Consistent, Total, Space;
    var lens := dl[..maxCode + 1];
    assert lens == LensIn(place, dl, 1, |order|);
    SpaceConsistent(lens, counts, max);
  }
}
