/** The heap of subtrees from which build_tree() takes the least frequent: pqdownheap() and pqremove. */
module NodeHeap {

  /** Ordered by frequency, then by depth. */
  predicate Smaller(freq: seq<nat>, depth: seq<nat>, n: nat, m: nat)
    requires n < |freq| && m < |freq| && |depth| == |freq|
  {
    freq[n] < freq[m] || (freq[n] == freq[m] && depth[n] <= depth[m])
  }

  /** Entries 1 to len are nodes. */
  ghost predicate Nodes(heap: seq<nat>, len: nat, freq: seq<nat>, depth: seq<nat>) {
    len < |heap| && |depth| == |freq| && forall i :: 1 <= i <= len ==> heap[i] < |freq|
  }

  /** No father from k on is greater than its sons. */
  ghost predicate HeapFrom(heap: seq<nat>, len: nat, freq: seq<nat>, depth: seq<nat>, k: nat)
    requires Nodes(heap, len, freq, depth)
  {
    forall j :: k <= j && 1 <= j ==> Topped(heap, len, freq, depth, j, j)
  }

  /** Entry p is not greater than the sons of entry j. */
  predicate Topped(heap: seq<nat>, len: nat, freq: seq<nat>, depth: seq<nat>, p: nat, j: nat)
    requires len < |heap| && |depth| == |freq| && 1 <= p && 1 <= j && (p <= len ==> heap[p] < |freq|)
    requires forall i :: 1 <= i <= len ==> heap[i] < |freq|
  {
    && (2 * j <= len && p <= len ==> Smaller(freq, depth, heap[p], heap[2 * j]))
    && (2 * j + 1 <= len && p <= len ==> Smaller(freq, depth, heap[p], heap[2 * j + 1]))
  }

  /** A heap but for entry k, whose sons its father already tops. */
  ghost predicate AlmostHeap(heap: seq<nat>, len: nat, freq: seq<nat>, depth: seq<nat>, top: nat, k: nat)
    requires Nodes(heap, len, freq, depth)
  {
    && 1 <= top <= k <= len
    && (forall j :: top <= j && j != k ==> Topped(heap, len, freq, depth, j, j))
    && (k > top ==> k / 2 >= top && Topped(heap, len, freq, depth, k / 2, k))
  }

  lemma SwapSame(s: seq<nat>, i: nat, j: nat)
    requires i < |s| && j < |s|
    ensures multiset(s[i := s[j]][j := s[i]]) == multiset(s)
  {
  }

  /** Exchanging entries within the heap keeps its nodes. */
  lemma SwapKeeps(heap: seq<nat>, len: nat, i: nat, j: nat)
    requires 1 <= i <= len < |heap| && 1 <= j <= len
    ensures multiset(heap[i := heap[j]][j := heap[i]][1..len + 1]) == multiset(heap[1..len + 1])
  {
    var s := heap[1..len + 1];
    SwapSame(s, i - 1, j - 1);
    assert heap[i := heap[j]][j := heap[i]][1..len + 1] == s[i - 1 := s[j - 1]][j - 1 := s[i - 1]];
  }

  /** Exchanging an entry with the smaller of its sons, if that is smaller still. */
  lemma SwapDown(heap: seq<nat>, len: nat, freq: seq<nat>, depth: seq<nat>, top: nat, k: nat, j: nat)
    requires Nodes(heap, len, freq, depth) && AlmostHeap(heap, len, freq, depth, top, k)
    requires (j == 2 * k || j == 2 * k + 1) && j <= len
    requires !Smaller(freq, depth, heap[k], heap[j])
    requires j == 2 * k && j < len ==> !Smaller(freq, depth, heap[j + 1], heap[j])
    requires j == 2 * k + 1 ==> Smaller(freq, depth, heap[j], heap[j - 1])
    ensures var h := heap[k := heap[j]][j := heap[k]];
      Nodes(h, len, freq, depth) && AlmostHeap(h, len, freq, depth, top, j)
  {
    var h := heap[k := heap[j]][j := heap[k]];
    forall i | top <= i && i != j ensures Topped(h, len, freq, depth, i, i) {
      assert i != k ==> Topped(heap, len, freq, depth, i, i);
    }
    assert Topped(heap, len, freq, depth, j, j);
  }

  lemma Settled(heap: seq<nat>, len: nat, freq: seq<nat>, depth: seq<nat>, top: nat, k: nat)
    requires Nodes(heap, len, freq, depth) && AlmostHeap(heap, len, freq, depth, top, k)
    requires 2 * k > len || Topped(heap, len, freq, depth, k, k)
    ensures HeapFrom(heap, len, freq, depth, top)
  {
  }

  /** The smaller of the sons of entry k. */
  method SmallerSon(heap: array<nat>, len: nat, freq: seq<nat>, depth: seq<nat>, k: nat, ghost h: seq<nat>)
    returns (j: nat)
    requires 1 <= k && 2 * k <= len && Nodes(h, len, freq, depth) && |h| == heap.Length
    requires forall i :: 0 <= i < heap.Length && i != k ==> heap[i] == h[i]
    ensures (j == 2 * k || j == 2 * k + 1) && j <= len && heap[j] == h[j]
    ensures j == 2 * k && j < len ==> !Smaller(freq, depth, h[j + 1], h[j])
    ensures j == 2 * k + 1 ==> Smaller(freq, depth, h[j], h[j - 1])
  {
    j := 2 * k;
    if j < len && Smaller(freq, depth, heap[j + 1], heap[j]) {
      j := j + 1;
    }
  }

  lemma TopsBoth(heap: seq<nat>, len: nat, freq: seq<nat>, depth: seq<nat>, k: nat, j: nat)
    requires Nodes(heap, len, freq, depth) && 1 <= k && (j == 2 * k || j == 2 * k + 1) && j <= len
    requires j == 2 * k && j < len ==> !Smaller(freq, depth, heap[j + 1], heap[j])
    requires j == 2 * k + 1 ==> Smaller(freq, depth, heap[j], heap[j - 1])
    requires Smaller(freq, depth, heap[k], heap[j])
    ensures Topped(heap, len, freq, depth, k, k)
  {
  }

  ghost predicate SameNodes(a: seq<nat>, b: seq<nat>, len: nat) {
    |a| == |b| > len && multiset(a[1..len + 1]) == multiset(b[1..len + 1]) && a[len + 1..] == b[len + 1..]
        && a[0] == b[0]
  }

  /** pqdownheap(): entry `top` moves down to where it belongs. */
  method PqDownHeap(heap: array<nat>, len: nat, freq: seq<nat>, depth: seq<nat>, top: nat)
    requires 1 <= top <= len && Nodes(heap[..], len, freq, depth) && HeapFrom(heap[..], len, freq, depth, top + 1)
    modifies heap
    ensures Nodes(heap[..], len, freq, depth) && HeapFrom(heap[..], len, freq, depth, top)
    ensures SameNodes(heap[..], old(heap[..]), len)
  {
    hide HeapFrom, AlmostHeap, Smaller, Topped, SameNodes;
    var v := heap[top];
    var k := top;
    ghost var before, h := heap[..], heap[..];
    Begin(h, len, freq, depth, top);
    SameAtFirst(h, len);
    var settled := 2 * k > len;
    while !settled
      invariant 1 <= k <= len && |h| == heap.Length && h[k] == v
      invariant (forall i :: 0 <= i < heap.Length && i != k ==> heap[i] == h[i])
      invariant Nodes(h, len, freq, depth) && AlmostHeap(h, len, freq, depth, top, k) && SameNodes(h, before, len)
      invariant settled ==> 2 * k > len || Topped(h, len, freq, depth, k, k)
      invariant !settled ==> 2 * k <= len
      decreases !settled, len - k
    {
      var j := SmallerSon(heap, len, freq, depth, k, h);
      if Smaller(freq, depth, v, heap[j]) {
        TopsBoth(h, len, freq, depth, k, j);
        settled := true;
      } else {
        SwapDown(h, len, freq, depth, top, k, j);
        SwapSameNodes(h, before, len, k, j);
        heap[k] := heap[j];
        h := h[k := h[j]][j := v];
        k := j;
        settled := 2 * k > len;
      }
    }
    Settled(h, len, freq, depth, top, k);
    heap[k] := v;
    assert heap[..] == h;
  }

  lemma SameAtFirst(a: seq<nat>, len: nat)
    requires len < |a|
    ensures SameNodes(a, a, len)
  {
  }

  lemma SwapSameNodes(a: seq<nat>, b: seq<nat>, len: nat, i: nat, j: nat)
    requires SameNodes(a, b, len) && 1 <= i <= len && 1 <= j <= len
    ensures SameNodes(a[i := a[j]][j := a[i]], b, len)
  {
    SwapKeeps(a, len, i, j);
  }

  lemma Begin(heap: seq<nat>, len: nat, freq: seq<nat>, depth: seq<nat>, top: nat)
    requires 1 <= top <= len && Nodes(heap, len, freq, depth) && HeapFrom(heap, len, freq, depth, top + 1)
    ensures AlmostHeap(heap, len, freq, depth, top, top)
  {
  }

  /** The first entry of a heap is the least. */
  lemma {:induction false} TopIsLeast(heap: seq<nat>, len: nat, freq: seq<nat>, depth: seq<nat>, i: nat)
    requires Nodes(heap, len, freq, depth) && HeapFrom(heap, len, freq, depth, 1) && 1 <= i <= len
    ensures Smaller(freq, depth, heap[1], heap[i])
  {
    if i > 1 {
      TopIsLeast(heap, len, freq, depth, i / 2);
      assert Topped(heap, len, freq, depth, i / 2, i / 2);
    }
  }

  /** The heap holds each of these nodes once. */
  ghost predicate Holds(heap: seq<nat>, len: nat, live: set<nat>) {
    len < |heap| && multiset(heap[1..len + 1]) == multiset(live)
  }

  lemma HeldNode(heap: seq<nat>, len: nat, live: set<nat>, i: nat)
    requires Holds(heap, len, live) && 1 <= i <= len
    ensures heap[i] in live
  {
    assert heap[1..len + 1][i - 1] == heap[i];
    assert heap[i] in multiset(heap[1..len + 1]);
  }

  lemma HeldSize(heap: seq<nat>, len: nat, live: set<nat>)
    requires Holds(heap, len, live)
    ensures |live| == len
  {
    assert |multiset(heap[1..len + 1])| == len;
  }

  /** A node that is held stands somewhere in the heap. */
  lemma WhereHeld(heap: seq<nat>, len: nat, live: set<nat>, x: nat) returns (i: nat)
    requires Holds(heap, len, live) && x in live
    ensures 1 <= i <= len && heap[i] == x
  {
    assert x in multiset(heap[1..len + 1]);
    assert x in heap[1..len + 1];
    var j :| 0 <= j < len && heap[1..len + 1][j] == x;
    i := j + 1;
  }

  lemma SameHeld(a: seq<nat>, b: seq<nat>, len: nat, live: set<nat>)
    requires SameNodes(a, b, len) && Holds(b, len, live)
    ensures Holds(a, len, live)
  {
  }

  /** The last entry in place of the first. */
  lemma FirstReplaced(heap: seq<nat>, len: nat, live: set<nat>)
    requires Holds(heap, len, live) && len >= 2
    ensures heap[1] in live && Holds(heap[1 := heap[len]], len - 1, live - {heap[1]})
  {
    var s := heap[1..len + 1];
    var t := heap[1 := heap[len]][1..len];
    assert s == [heap[1]] + heap[2..len] + [heap[len]];
    assert t == [heap[len]] + heap[2..len];
    assert multiset(s) == multiset([heap[1]]) + multiset(t);
    HeldNode(heap, len, live, 1);
    assert multiset(live) == multiset(live - {heap[1]}) + multiset([heap[1]]);
    assert multiset(t) == multiset(s) - multiset([heap[1]]);
    assert heap[1 := heap[len]][1..len - 1 + 1] == t;
  }

  lemma NodeReplaced(heap: seq<nat>, len: nat, live: set<nat>, node: nat)
    requires Holds(heap, len, live) && len >= 1 && node !in live
    ensures heap[1] in live && Holds(heap[1 := node], len, live - {heap[1]} + {node})
  {
    var s := heap[1..len + 1];
    var t := heap[1 := node][1..len + 1];
    assert s == [heap[1]] + heap[2..len + 1];
    assert t == [node] + heap[2..len + 1];
    HeldNode(heap, len, live, 1);
  }

  lemma HeldNodes(heap: seq<nat>, len: nat, live: set<nat>, freq: seq<nat>, depth: seq<nat>)
    requires Holds(heap, len, live) && |depth| == |freq| && forall x :: x in live ==> x < |freq|
    ensures Nodes(heap, len, freq, depth)
  {
    forall i | 1 <= i <= len ensures heap[i] < |freq| {
      HeldNode(heap, len, live, i);
    }
  }

  lemma ShorterHeap(heap: seq<nat>, len: nat, freq: seq<nat>, depth: seq<nat>, v: nat, len': nat)
    requires Nodes(heap, len, freq, depth) && HeapFrom(heap, len, freq, depth, 1) && 1 <= len' <= len && v < |freq|
    ensures Nodes(heap[1 := v], len', freq, depth) && HeapFrom(heap[1 := v], len', freq, depth, 2)
  {
    var h := heap[1 := v];
    forall j | 2 <= j ensures Topped(h, len', freq, depth, j, j) {
      assert Topped(heap, len, freq, depth, j, j);
    }
  }

  /** pqremove: the least of the nodes is taken out. */
  method PqRemove(heap: array<nat>, len: nat, freq: seq<nat>, depth: seq<nat>, ghost live: set<nat>) returns (top: nat)
    requires len >= 2 && Nodes(heap[..], len, freq, depth) && HeapFrom(heap[..], len, freq, depth, 1)
    requires Holds(heap[..], len, live)
    modifies heap
    ensures top in live && top < |freq| && Holds(heap[..], len - 1, live - {top})
    ensures Nodes(heap[..], len - 1, freq, depth) && HeapFrom(heap[..], len - 1, freq, depth, 1)
    ensures forall x :: x in live && x < |freq| ==>
      freq[top] < freq[x] || (freq[top] == freq[x] && depth[top] <= depth[x])
    ensures forall i :: len <= i < heap.Length ==> heap[i] == old(heap[i])
  {
    hide HeapFrom, Smaller, Topped, Holds;
    ghost var before := heap[..];
    top := heap[1];
    LeastHeld(before, len, freq, depth, live);
    FirstReplaced(before, len, live);
    ShorterHeap(before, len, freq, depth, before[len], len - 1);
    heap[1] := heap[len];
    assert heap[..] == before[1 := before[len]];
    PqDownHeap(heap, len - 1, freq, depth, 1);
    SameHeld(heap[..], before[1 := before[len]], len - 1, live - {top});
    RestSame(heap[..], before[1 := before[len]], len - 1);
  }

  lemma RestSame(a: seq<nat>, b: seq<nat>, len: nat)
    requires SameNodes(a, b, len)
    ensures |a| == |b| && forall i :: len < i < |a| ==> a[i] == b[i]
  {
    forall i | len < i < |a| ensures a[i] == b[i] {
      assert a[len + 1..][i - len - 1] == a[i];
    }
  }

  lemma LeastHeld(heap: seq<nat>, len: nat, freq: seq<nat>, depth: seq<nat>, live: set<nat>)
    requires len >= 1 && Nodes(heap, len, freq, depth) && HeapFrom(heap, len, freq, depth, 1) && Holds(heap, len, live)
    ensures heap[1] in live && forall x :: x in live && x < |freq| ==>
      freq[heap[1]] < freq[x] || (freq[heap[1]] == freq[x] && depth[heap[1]] <= depth[x])
  {
    hide Holds, HeapFrom, Topped;
    HeldNode(heap, len, live, 1);
    forall x | x in live && x < |freq|
      ensures freq[heap[1]] < freq[x] || (freq[heap[1]] == freq[x] && depth[heap[1]] <= depth[x])
    {
      var i := WhereHeld(heap, len, live, x);
      TopIsLeast(heap, len, freq, depth, i);
    }
  }

  /** A new node in place of the first, and down to where it belongs. */
  method PqReplace(heap: array<nat>, len: nat, freq: seq<nat>, depth: seq<nat>, node: nat, ghost live: set<nat>)
    requires len >= 1 && Nodes(heap[..], len, freq, depth) && HeapFrom(heap[..], len, freq, depth, 1)
    requires Holds(heap[..], len, live)
    requires node < |freq| && node !in live
    modifies heap
    ensures Holds(heap[..], len, live - {old(heap[1])} + {node})
    ensures Nodes(heap[..], len, freq, depth) && HeapFrom(heap[..], len, freq, depth, 1)
    ensures forall i :: len < i < heap.Length ==> heap[i] == old(heap[i])
  {
    hide HeapFrom, Smaller, Topped, Holds;
    ghost var before := heap[..];
    NodeReplaced(before, len, live, node);
    ShorterHeap(before, len, freq, depth, node, len);
    heap[1] := node;
    assert heap[..] == before[1 := node];
    PqDownHeap(heap, len, freq, depth, 1);
    SameHeld(heap[..], before[1 := node], len, live - {before[1]} + {node});
    RestSame(heap[..], before[1 := node], len);
  }

  /** The heap does not mind a node it does not hold. */
  lemma OtherNode(heap: seq<nat>, len: nat, freq: seq<nat>, depth: seq<nat>, live: set<nat>, node: nat, f: nat, d: nat)
    requires Nodes(heap, len, freq, depth) && HeapFrom(heap, len, freq, depth, 1) && Holds(heap, len, live)
    requires node < |freq| && node !in live
    ensures Nodes(heap, len, freq[node := f], depth[node := d])
    ensures HeapFrom(heap, len, freq[node := f], depth[node := d], 1)
  {
    hide Holds;
    var freq', depth' := freq[node := f], depth[node := d];
    forall i | 1 <= i <= len ensures heap[i] != node {
      HeldNode(heap, len, live, i);
    }
    forall j | 1 <= j ensures Topped(heap, len, freq', depth', j, j) {
      assert Topped(heap, len, freq, depth, j, j);
    }
  }

  lemma NodeAdded(heap: seq<nat>, len: nat, live: set<nat>, x: nat)
    requires Holds(heap, len, live) && len + 1 < |heap| && x !in live
    ensures Holds(heap[len + 1 := x], len + 1, live + {x})
  {
    assert heap[len + 1 := x][1..len + 2] == heap[1..len + 1] + [x];
  }

  lemma NoneHeld(heap: seq<nat>)
    requires |heap| > 0
    ensures Holds(heap, 0, {})
  {
    assert heap[1..1] == [];
  }
}
