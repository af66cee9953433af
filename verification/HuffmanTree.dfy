/** build_tree(): the Huffman tree of a set of frequencies, its code lengths and its codes. */
module HuffmanTree {
  import opened Bits
  import opened PrefixCodes
  import opened Kraft
  import opened NodeHeap
  import opened HuffmanLengths
  import opened HuffmanOptimal
  import opened BitCost

  // Where a node is: in the heap, or at the place where it was put when it was taken from the heap.

  const ABSENT: int := -2
  const LIVE: int := -1

  /** The nodes taken so far stand from heapMax on, each with its father; inner nodes are taken after
      those whose fathers they are. */
  ghost predicate Built(heap: seq<nat>, dl: seq<nat>, elems: nat, node: nat, heapMax: nat, at: seq<int>) {
    && |at| == |dl| && elems <= node <= |dl| && heapMax <= |heap|
    && (forall p :: heapMax <= p < |heap| ==> TakenAt(heap, dl, elems, at, p))
    && (forall x :: 0 <= x < |at| && at[x] != ABSENT && at[x] != LIVE ==> heapMax <= at[x] < |heap| && heap[at[x]] == x)
    && (forall x :: node <= x < |at| ==> at[x] == ABSENT)
    && (forall x :: elems <= x < node ==> at[x] != ABSENT && (at[x] >= 0 ==> at[x] <= |heap| - 3 - 2 * (x - elems)))
  }

  ghost predicate TakenAt(heap: seq<nat>, dl: seq<nat>, elems: nat, at: seq<int>, p: nat)
    requires p < |heap| && |at| == |dl|
  {
    var father := elems + (|heap| - 1 - p) / 2;
    heap[p] < |at| && at[heap[p]] == p && dl[heap[p]] == father && heap[p] < father
  }

  ghost predicate LiveAre(at: seq<int>, live: set<nat>) {
    forall x: nat :: x in live <==> x < |at| && at[x] == LIVE
  }

  /** A live node is put in front of those taken before it. */
  lemma TakeOne(heap: seq<nat>, dl: seq<nat>, elems: nat, node: nat, heapMax: nat, at: seq<int>, live: set<nat>, x: nat)
    requires Built(heap, dl, elems, node, heapMax, at) && LiveAre(at, live) && x in live
    requires heapMax >= 1 && (|heap| - heapMax) / 2 == node - elems
    ensures x < node
    ensures var at' := at[x := heapMax - 1];
      Built(heap[heapMax - 1 := x], dl[x := node], elems, node, heapMax - 1, at') && LiveAre(at', live - {x})
  {
    var h, d, at' := heap[heapMax - 1 := x], dl[x := node], at[x := heapMax - 1];
    forall p | heapMax - 1 <= p < |h| ensures TakenAt(h, d, elems, at', p) {
      if p >= heapMax {
        assert TakenAt(heap, dl, elems, at, p);
      }
    }
  }

  /** The father of the two nodes just taken joins the live ones. */
  lemma AddNode(heap: seq<nat>, dl: seq<nat>, elems: nat, node: nat, heapMax: nat, at: seq<int>, live: set<nat>)
    requires Built(heap, dl, elems, node, heapMax, at) && LiveAre(at, live) && node < |dl|
    ensures node !in live
    ensures Built(heap, dl, elems, node + 1, heapMax, at[node := LIVE]) && LiveAre(at[node := LIVE], live + {node})
  {
    var at' := at[node := LIVE];
    forall p | heapMax <= p < |heap| ensures TakenAt(heap, dl, elems, at', p) {
      assert TakenAt(heap, dl, elems, at, p);
    }
  }

  lemma BuiltRest(heap: seq<nat>, h: seq<nat>, dl: seq<nat>, elems: nat, node: nat, heapMax: nat, at: seq<int>)
    requires Built(heap, dl, elems, node, heapMax, at) && |h| == |heap|
    requires forall i :: heapMax <= i < |heap| ==> h[i] == heap[i]
    ensures Built(h, dl, elems, node, heapMax, at)
  {
    forall p | heapMax <= p < |h| ensures TakenAt(h, dl, elems, at, p) {
      assert TakenAt(heap, dl, elems, at, p);
    }
  }

  /** The nodes taken are sorted by frequency, and none is more frequent than a live one. */
  ghost predicate Sorted(heap: seq<nat>, heapMax: nat, freq: seq<nat>, live: set<nat>) {
    && heapMax <= |heap|
    && (forall p :: heapMax <= p < |heap| ==> heap[p] < |freq|)
    && (forall p, q :: heapMax <= p < q < |heap| ==> freq[heap[p]] >= freq[heap[q]])
    && (forall p, x :: heapMax <= p < |heap| && x in live && x < |freq| ==> freq[heap[p]] <= freq[x])
  }

  lemma SortedTake(heap: seq<nat>, heapMax: nat, freq: seq<nat>, live: set<nat>, x: nat)
    requires Sorted(heap, heapMax, freq, live) && heapMax >= 1 && x in live && x < |freq|
    requires forall y :: y in live && y < |freq| ==> freq[x] <= freq[y]
    ensures Sorted(heap[heapMax - 1 := x], heapMax - 1, freq, live - {x})
  {
  }

  lemma SortedAdd(heap: seq<nat>, heapMax: nat, freq: seq<nat>, live: set<nat>, node: nat, f: nat)
    requires Sorted(heap, heapMax, freq, live) && node < |freq|
    requires (forall p :: heapMax <= p < |heap| ==> heap[p] != node)
    requires heapMax < |heap| && f >= freq[heap[heapMax]]
    ensures Sorted(heap, heapMax, freq[node := f], live + {node})
  {
  }

  lemma SortedRest(heap: seq<nat>, h: seq<nat>, heapMax: nat, freq: seq<nat>, live: set<nat>)
    requires Sorted(heap, heapMax, freq, live) && |h| == |heap| && forall i :: heapMax <= i < |heap| ==> h[i] == heap[i]
    ensures Sorted(h, heapMax, freq, live)
  {
  }

  /** Every node made so far weighs what the two taken for it do. */
  ghost predicate Fathers(heap: seq<nat>, freq: seq<nat>, elems: nat, rounds: nat) {
    && 2 * rounds <= |heap| && elems + rounds <= |freq|
    && forall t :: 0 <= t < rounds ==> FatherOf(heap, freq, elems, t)
  }

  ghost predicate FatherOf(heap: seq<nat>, freq: seq<nat>, elems: nat, t: nat)
    requires 2 * t + 2 <= |heap| && elems + t < |freq|
  {
    var n, m := heap[|heap| - 1 - 2 * t], heap[|heap| - 2 - 2 * t];
    n < elems + t && m < elems + t && freq[elems + t] == freq[n] + freq[m]
  }

  lemma FathersMore(heap: seq<nat>, h: seq<nat>, freq: seq<nat>, f: seq<nat>, elems: nat, rounds: nat)
    requires Fathers(heap, freq, elems, rounds) && |h| == |heap| && |f| == |freq|
    requires 2 * rounds + 2 <= |heap| && elems + rounds < |freq|
    requires forall i :: |heap| - 2 * rounds <= i < |heap| ==> h[i] == heap[i]
    requires f == freq[elems + rounds := f[elems + rounds]] && FatherOf(h, f, elems, rounds)
    ensures Fathers(h, f, elems, rounds + 1)
  {
    forall t | 0 <= t < rounds + 1 ensures FatherOf(h, f, elems, t) {
      if t < rounds {
        assert FatherOf(heap, freq, elems, t);
      }
    }
  }

  /** Between two rounds: `heapLen` nodes are live, the others have been taken. */
  ghost predicate Combining(heap: seq<nat>, dl: seq<nat>, freq: seq<nat>, depth: seq<nat>, elems: nat, node: nat,
      heapLen: nat, heapMax: nat, at: seq<int>, live: set<nat>) {
    && |freq| == |dl| && Built(heap, dl, elems, node, heapMax, at) && LiveAre(at, live)
    && Sorted(heap, heapMax, freq, live)
    && Nodes(heap, heapLen, freq, depth) && HeapFrom(heap, heapLen, freq, depth, 1) && Holds(heap, heapLen, live)
    && (node > elems ==> node - 1 in live)
  }

  /** What becomes of the leaves: none comes or goes, and those outside the tree are not touched. */
  ghost predicate LeavesStay(at: seq<int>, at': seq<int>, dl: seq<nat>, dl': seq<nat>, freq: seq<nat>,
      freq': seq<nat>, elems: nat) {
    && elems <= |at| == |at'| == |dl| == |dl'| == |freq| == |freq'|
    && forall x :: 0 <= x < elems ==>
         (at[x] == ABSENT <==> at'[x] == ABSENT) && freq[x] == freq'[x] && (at[x] == ABSENT ==> dl[x] == dl'[x])
  }

  lemma StayTwice(at: seq<int>, at1: seq<int>, at2: seq<int>, dl: seq<nat>, dl1: seq<nat>, dl2: seq<nat>,
      freq: seq<nat>, freq1: seq<nat>, freq2: seq<nat>, elems: nat)
    requires LeavesStay(at, at1, dl, dl1, freq, freq1, elems) && LeavesStay(at1, at2, dl1, dl2, freq1, freq2, elems)
    ensures LeavesStay(at, at2, dl, dl2, freq, freq2, elems)
  {
  }

  /** Pairs taken and nodes left add up. */
  predicate Sizes(size: nat, elems: nat, leaves: nat, node: nat, heapLen: nat, heapMax: nat) {
    elems <= node && node - elems + heapLen == leaves && heapMax + 2 * (node - elems) == size && 2 * leaves <= size
        && leaves <= elems
  }

  lemma LowSame(a: seq<nat>, b: seq<nat>, len: nat, freq: seq<nat>, depth: seq<nat>, live: set<nat>)
    requires Nodes(a, len, freq, depth) && HeapFrom(a, len, freq, depth, 1) && Holds(a, len, live)
    requires |a| == |b| && forall i :: 0 <= i <= len ==> a[i] == b[i]
    ensures Nodes(b, len, freq, depth) && HeapFrom(b, len, freq, depth, 1) && Holds(b, len, live)
  {
    assert a[1..len + 1] == b[1..len + 1];
    forall j | 1 <= j ensures Topped(b, len, freq, depth, j, j) {
      assert Topped(a, len, freq, depth, j, j);
    }
  }

  /** The two least frequent nodes are put away, and get a father. */
  method PutAway(heap: array<nat>, dl: array<nat>, elems: nat, node: nat, heapLen: nat, heapMax: nat, n: nat, m: nat,
      ghost freq: seq<nat>, ghost depth: seq<nat>, ghost at: seq<int>, ghost live: set<nat>)
    returns (ghost at': seq<int>)
    requires heap != dl && Built(heap[..], dl[..], elems, node, heapMax, at) && LiveAre(at, live)
    requires Sorted(heap[..], heapMax, freq, live) && |freq| == dl.Length
    requires 1 <= heapLen && heapLen + 2 < heapMax && elems <= node && heapMax + 2 * (node - elems) == heap.Length
    requires node < dl.Length
    requires n in live && m in live - {n} && (forall x :: x in live && x < |freq| ==> freq[n] <= freq[x])
    requires forall x :: x in live - {n} && x < |freq| ==> freq[m] <= freq[x]
    requires Nodes(heap[..], heapLen, freq, depth) && HeapFrom(heap[..], heapLen, freq, depth, 1)
    requires Holds(heap[..], heapLen, live - {n})
    modifies heap, dl
    ensures Built(heap[..], dl[..], elems, node + 1, heapMax - 2, at') && LiveAre(at', live - {n} - {m} + {node})
    ensures Sorted(heap[..], heapMax - 2, freq, live - {n} - {m}) && heap[heapMax - 2] == m && node !in live
    ensures forall p :: heapMax - 2 <= p < heap.Length ==> heap[p] < node
    ensures heap[heapMax - 1] == n && forall p :: heapMax <= p < heap.Length ==> heap[p] == old(heap[p])
    ensures Nodes(heap[..], heapLen, freq, depth) && HeapFrom(heap[..], heapLen, freq, depth, 1)
    ensures Holds(heap[..], heapLen, live - {n})
    ensures heap[1] == old(heap[1])
    ensures LeavesStay(at, at', old(dl[..]), dl[..], freq, freq, elems)
  {
    hide Built, LiveAre, Sorted, HeapFrom, Topped, Holds;
    ghost var h, d := heap[..], dl[..];
    LiveInRange(at, live, d, elems, node, heapMax, h);
    TakeOne(h, d, elems, node, heapMax, at, live, n);
    SortedTake(h, heapMax, freq, live, n);
    ghost var h1, d1, at1 := h[heapMax - 1 := n], d[n := node], at[n := heapMax - 1];
    TakeOne(h1, d1, elems, node, heapMax - 1, at1, live - {n}, m);
    SortedTake(h1, heapMax - 1, freq, live - {n}, m);
    ghost var h2, d2, at2 := h1[heapMax - 2 := m], d1[m := node], at1[m := heapMax - 2];
    heap[heapMax - 1] := n;
    heap[heapMax - 2] := m;
    dl[n] := node;
    dl[m] := node;
    assert heap[..] == h2 && dl[..] == d2;
    AddNode(h2, d2, elems, node, heapMax - 2, at2, live - {n} - {m});
    TakenBelow(h2, d2, elems, node, heapMax - 2, at2);
    LowSame(h, h2, heapLen, freq, depth, live - {n});
    at' := at2[node := LIVE];
    LiveNotAbsent(at, live, n);
    LiveNotAbsent(at, live, m);
  }

  lemma LiveNotAbsent(at: seq<int>, live: set<nat>, x: nat)
    requires LiveAre(at, live) && x in live
    ensures x < |at| && at[x] == LIVE
  {
  }

  lemma LiveInRange(at: seq<int>, live: set<nat>, dl: seq<nat>, elems: nat, node: nat, heapMax: nat, heap: seq<nat>)
    requires Built(heap, dl, elems, node, heapMax, at) && LiveAre(at, live)
    ensures |at| == |dl| && forall x :: x in live ==> x < node && x < |dl| && x < |at|
    ensures node !in live
  {
  }

  lemma TakenBelow(heap: seq<nat>, dl: seq<nat>, elems: nat, node: nat, heapMax: nat, at: seq<int>)
    requires Built(heap, dl, elems, node, heapMax, at)
    ensures forall p :: heapMax <= p < |heap| ==> heap[p] < node
  {
    forall p | heapMax <= p < |heap| ensures heap[p] < node {
      assert TakenAt(heap, dl, elems, at, p);
    }
  }

  /** The two least frequent nodes are taken from the heap; the second stays at its top for now. */
  method TakeTwo(heap: array<nat>, dl: array<nat>, fc: array<nat>, depth: array<nat>, elems: nat, node: nat,
      heapLen: nat, heapMax: nat, ghost leaves: nat, ghost at: seq<int>, ghost live: set<nat>)
    returns (n: nat, m: nat, ghost at': seq<int>)
    requires heap != dl && heap != fc && heap != depth && dl != fc && dl != depth && fc != depth
    requires fc.Length <= depth.Length
    requires Combining(heap[..], dl[..], fc[..], depth[..fc.Length], elems, node, heapLen, heapMax, at, live)
    requires Sizes(heap.Length, elems, leaves, node, heapLen, heapMax) && heapLen >= 2 && 2 * elems <= dl.Length
    modifies heap, dl
    ensures node < fc.Length == dl.Length && n < node && m < node && node !in live && heapMax >= 2
    ensures Built(heap[..], dl[..], elems, node + 1, heapMax - 2, at') && LiveAre(at', live - {n} - {m} + {node})
    ensures Sorted(heap[..], heapMax - 2, fc[..], live - {n} - {m}) && heap[1] == m
    ensures forall p :: heapMax - 2 <= p < heap.Length ==> heap[p] < node
    ensures heap[heapMax - 1] == n && heap[heapMax - 2] == m
    ensures forall p :: heapMax <= p < heap.Length ==> heap[p] == old(heap[p])
    ensures Nodes(heap[..], heapLen - 1, fc[..], depth[..fc.Length])
    ensures HeapFrom(heap[..], heapLen - 1, fc[..], depth[..fc.Length], 1)
    ensures Holds(heap[..], heapLen - 1, live - {n})
    ensures LeavesStay(at, at', old(dl[..]), dl[..], fc[..], fc[..], elems)
  {
    hide Built, LiveAre, Sorted, HeapFrom, Topped, Holds, Smaller;
    ghost var h, d, freq, deep := heap[..], dl[..], fc[..], depth[..fc.Length];
    LiveInRange(at, live, d, elems, node, heapMax, h);
    n := PqRemove(heap, heapLen, fc[..], depth[..fc.Length], live);
    BuiltRest(h, heap[..], d, elems, node, heapMax, at);
    SortedRest(h, heap[..], heapMax, freq, live);
    LeastHeld(heap[..], heapLen - 1, freq, deep, live - {n});
    m := heap[1];
    at' := PutAway(heap, dl, elems, node, heapLen - 1, heapMax, n, m, freq, deep, at, live);
  }

  /** One round of the loop in build_tree(): the two least frequent nodes become sons of a new one. */
  method Combine(heap: array<nat>, dl: array<nat>, fc: array<nat>, depth: array<nat>, elems: nat, node: nat,
      heapLen: nat, heapMax: nat, ghost leaves: nat, ghost at: seq<int>, ghost live: set<nat>)
    returns (ghost at': seq<int>, ghost live': set<nat>)
    requires heap != dl && heap != fc && heap != depth && dl != fc && dl != depth && fc != depth
    requires fc.Length <= depth.Length
    requires Combining(heap[..], dl[..], fc[..], depth[..fc.Length], elems, node, heapLen, heapMax, at, live)
    requires Sizes(heap.Length, elems, leaves, node, heapLen, heapMax) && heapLen >= 2 && 2 * elems <= dl.Length
    requires Fathers(heap[..], fc[..], elems, node - elems)
    modifies heap, dl, fc, depth
    ensures Fathers(heap[..], fc[..], elems, node + 1 - elems)
    ensures Combining(heap[..], dl[..], fc[..], depth[..fc.Length], elems, node + 1, heapLen - 1, heapMax - 2, at',
        live')
    ensures Sizes(heap.Length, elems, leaves, node + 1, heapLen - 1, heapMax - 2)
    ensures LeavesStay(at, at', old(dl[..]), dl[..], old(fc[..]), fc[..], elems)
  {
    hide Built, LiveAre, Sorted, HeapFrom, Topped, Holds, Smaller, Fathers, Nodes;
    ghost var h, d, freq, deep := heap[..], dl[..], fc[..], depth[..fc.Length];
    var n, m;
    n, m, at' := TakeTwo(heap, dl, fc, depth, elems, node, heapLen, heapMax, leaves, at, live);
    fc[node] := fc[n] + fc[m];
    depth[node] := (if depth[n] >= depth[m] then depth[n] else depth[m]) + 1;
    assert fc[..] == freq[node := fc[node]] && depth[..fc.Length] == deep[node := depth[node]];
    SortedAdd(heap[..], heapMax - 2, freq, live - {n} - {m}, node, fc[node]);
    OtherNode(heap[..], heapLen - 1, freq, deep, live - {n}, node, fc[node], depth[node]);
    FathersMore(h, heap[..], freq, fc[..], elems, node - elems);
    live' := live - {n} - {m} + {node};
    FatherIn(heap, dl[..], fc[..], depth[..fc.Length], elems, node, heapLen - 1, heapMax - 2, live - {n}, live', at');
    assert LeavesStay(at', at', dl[..], dl[..], freq, fc[..], elems);
    StayTwice(at, at', at', d, dl[..], dl[..], freq, freq, fc[..], elems);
  }

  /** The new node takes its place in the heap. */
  method FatherIn(heap: array<nat>, ghost dl: seq<nat>, freq: seq<nat>, depth: seq<nat>, ghost elems: nat, node: nat,
      len: nat, heapMax: nat, ghost held: set<nat>, ghost live': set<nat>, ghost at: seq<int>)
    requires 1 <= len < heapMax <= heap.Length && node < |freq| && node !in held && elems <= node
    requires Nodes(heap[..], len, freq, depth) && HeapFrom(heap[..], len, freq, depth, 1) && Holds(heap[..], len, held)
    requires Built(heap[..], dl, elems, node + 1, heapMax, at) && Sorted(heap[..], heapMax, freq, live')
    requires Fathers(heap[..], freq, elems, node + 1 - elems) && heapMax + 2 * (node + 1 - elems) == heap.Length
    modifies heap
    ensures Nodes(heap[..], len, freq, depth) && HeapFrom(heap[..], len, freq, depth, 1)
    ensures Holds(heap[..], len, held - {old(heap[1])} + {node})
    ensures Built(heap[..], dl, elems, node + 1, heapMax, at) && Sorted(heap[..], heapMax, freq, live')
    ensures Fathers(heap[..], freq, elems, node + 1 - elems)
  {
    hide Built, Sorted, HeapFrom, Holds, Fathers;
    ghost var h := heap[..];
    PqReplace(heap, len, freq, depth, node, held);
    BuiltRest(h, heap[..], dl, elems, node + 1, heapMax, at);
    SortedRest(h, heap[..], heapMax, freq, live');
    FathersRest(h, heap[..], freq, elems, node + 1 - elems);
  }

  lemma FathersRest(heap: seq<nat>, h: seq<nat>, freq: seq<nat>, elems: nat, rounds: nat)
    requires Fathers(heap, freq, elems, rounds) && |h| == |heap|
    requires forall i :: |heap| - 2 * rounds <= i < |heap| ==> h[i] == heap[i]
    ensures Fathers(h, freq, elems, rounds)
  {
    forall t | 0 <= t < rounds ensures FatherOf(h, freq, elems, t) {
      assert FatherOf(heap, freq, elems, t);
    }
  }

  // When one node is left, it is the root.

  ghost function Positions(at: seq<int>, from: nat, to: nat, heapMax: nat): (r: seq<nat>)
    requires from <= to <= |at| && forall x :: from <= x < to ==> at[x] >= heapMax
    ensures |r| == to - from && forall i :: 0 <= i < |r| ==> r[i] == at[from + i] - heapMax
  {
    seq(to - from, i requires 0 <= i < to - from => at[from + i] - heapMax)
  }

  ghost function Places(at: seq<int>, n: nat, heapMax: nat): (r: seq<int>)
    requires n <= |at|
    ensures |r| == n && forall x :: 0 <= x < n ==> r[x] == if at[x] == ABSENT then -1 else at[x] - heapMax
  {
    seq(n, x requires 0 <= x < n => if at[x] == ABSENT then -1 else at[x] - heapMax)
  }

  /** The root is put in front of all others, and the nodes stand in order. */
  lemma InOrderNow(heap: seq<nat>, dl: seq<nat>, elems: nat, node: nat, heapMax: nat, at: seq<int>, maxCode: nat)
    returns (pos: seq<nat>, place: seq<int>)
    requires Built(heap, dl, elems, node, heapMax, at) && node > elems && LiveAre(at, {node - 1}) && heapMax >= 1
    requires heapMax + 2 * (node - elems) == |heap| && maxCode < elems
    requires forall x :: maxCode < x < elems ==> at[x] == ABSENT
    ensures var order := heap[heapMax - 1 := node - 1][heapMax - 1..];
      Ordered(order, dl, elems, node - elems, pos) && Placed(order, elems, place)
    ensures |place| == maxCode + 1 && forall n :: 0 <= n <= maxCode ==> (place[n] == -1 <==> at[n] == ABSENT)
  {
    var k, h, d, at' := node - elems, heap[heapMax - 1 := node - 1], dl, at[node - 1 := heapMax - 1];
    var order := h[heapMax - 1..];
    RootLast(heap, dl, elems, node, heapMax, at);
    forall x | elems <= x < node ensures at'[x] >= heapMax - 1 {
      assert x != node - 1 ==> at[x] != LIVE;
    }
    pos := Positions(at', elems, node, heapMax - 1);
    place := Places(at, maxCode + 1, heapMax - 1);
    OrderedNow(heap, dl, elems, node, heapMax, at, order, pos);
    PlacedNow(heap, dl, elems, node, heapMax, at, order, maxCode, place);
  }

  lemma RootLast(heap: seq<nat>, dl: seq<nat>, elems: nat, node: nat, heapMax: nat, at: seq<int>)
    requires Built(heap, dl, elems, node, heapMax, at) && node > elems && LiveAre(at, {node - 1})
    ensures at[node - 1] == LIVE && forall x :: 0 <= x < |at| && x != node - 1 ==> at[x] != LIVE
  {
    assert node - 1 in {node - 1};
    forall x: nat | x < |at| && x != node - 1 ensures at[x] != LIVE {
      assert x !in {node - 1};
    }
  }

  lemma OrderedNow(heap: seq<nat>, dl: seq<nat>, elems: nat, node: nat, heapMax: nat, at: seq<int>, order: seq<nat>,
      pos: seq<nat>)
    requires Built(heap, dl, elems, node, heapMax, at) && node > elems && heapMax >= 1
    requires heapMax + 2 * (node - elems) == |heap|
    requires at[node - 1] == LIVE && forall x :: 0 <= x < |at| && x != node - 1 ==> at[x] != LIVE
    requires order == heap[heapMax - 1 := node - 1][heapMax - 1..] && |pos| == node - elems
    requires forall t :: 0 <= t < node - elems ==> pos[t] == if t == node - elems - 1 then 0
        else at[elems + t] - (heapMax - 1)
    ensures Ordered(order, dl, elems, node - elems, pos)
  {
    var k := node - elems;
    assert |order| == 2 * k + 1;
    forall i | 1 <= i < |order|
      ensures order[i] < |dl| && order[i] != node - 1 && at[order[i]] == heapMax - 1 + i
      ensures dl[order[i]] == elems + Father(k, i) && order[i] < elems + Father(k, i)
    {
      assert TakenAt(heap, dl, elems, at, heapMax - 1 + i);
      assert order[i] == heap[heapMax - 1 + i];
    }
    forall t | 0 <= t < k ensures pos[t] <= 2 * (k - 1 - t) && order[pos[t]] == elems + t {
      if t < k - 1 {
        assert at[elems + t] != LIVE;
      }
    }
  }

  lemma PlacedNow(heap: seq<nat>, dl: seq<nat>, elems: nat, node: nat, heapMax: nat, at: seq<int>, order: seq<nat>,
      maxCode: nat, place: seq<int>)
    requires Built(heap, dl, elems, node, heapMax, at) && node > elems && heapMax >= 1 && maxCode < elems
    requires at[node - 1] == LIVE && forall x :: 0 <= x < |at| && x != node - 1 ==> at[x] != LIVE
    requires forall x :: maxCode < x < elems ==> at[x] == ABSENT
    requires order == heap[heapMax - 1 := node - 1][heapMax - 1..] && |place| == maxCode + 1
    requires forall x :: 0 <= x <= maxCode ==> place[x] == if at[x] == ABSENT then -1 else at[x] - (heapMax - 1)
    ensures Placed(order, elems, place)
  {
    forall p | 1 <= p < |order| && order[p] < elems ensures order[p] < |place| && place[order[p]] == p {
      assert TakenAt(heap, dl, elems, at, heapMax - 1 + p);
    }
  }

  // The leaves.

  /** The heap holds the symbols in use, up to the last of them. */
  ghost predicate Gathered(heap: seq<nat>, heapLen: nat, live: set<nat>, maxCode: int) {
    && Holds(heap, heapLen, live) && -1 <= maxCode && (maxCode == -1 <==> live == {})
    && (maxCode >= 0 ==> maxCode in live) && forall x :: x in live ==> x <= maxCode
  }

  ghost predicate Used(freq: seq<nat>, n: nat, live: set<nat>)
    requires n <= |freq|
  {
    forall x: nat :: x in live <==> x < n && freq[x] != 0
  }

  /** The first loop of build_tree(). */
  method Gather(heap: array<nat>, dl: array<nat>, fc: array<nat>, depth: array<nat>, elems: nat)
    returns (heapLen: nat, maxCode: int, ghost live: set<nat>)
    requires heap != dl && heap != fc && heap != depth && dl != fc && dl != depth && fc != depth
    requires elems + 1 < heap.Length && elems <= fc.Length == dl.Length <= depth.Length
    modifies heap, dl, depth
    ensures Gathered(heap[..], heapLen, live, maxCode) && Used(fc[..], elems, live)
    ensures forall n :: 0 <= n < elems && n !in live ==> dl[n] == 0
    ensures heapLen <= elems
  {
    hide Holds;
    heapLen, maxCode, live := 0, -1, {};
    NoneHeld(heap[..]);
    for n := 0 to elems
      invariant Gathered(heap[..], heapLen, live, maxCode) && Used(fc[..], n, live) && heapLen <= n
      invariant forall i :: 0 <= i < n && i !in live ==> dl[i] == 0
    {
      if fc[n] != 0 {
        NodeAdded(heap[..], heapLen, live, n);
        ghost var h := heap[..];
        heapLen := heapLen + 1;
        heap[heapLen] := n;
        assert heap[..] == h[heapLen := n];
        maxCode := n;
        depth[n] := 0;
        live := live + {n};
      } else {
        dl[n] := 0;
      }
    }
  }

  /** The counts with one occurrence made up for each of these symbols. */
  ghost function MadeUp(freq: seq<nat>, added: seq<nat>): (r: seq<nat>)
    requires forall i :: 0 <= i < |added| ==> added[i] < |freq|
    ensures |r| == |freq|
  {
    if |added| == 0 then freq else MadeUp(freq, added[..|added| - 1])[added[|added| - 1] := 1]
  }

  /** What sending the symbols made up takes, with the given lengths. */
  ghost function MadeUpCost(added: seq<nat>, lens: seq<nat>): nat
    requires forall i :: 0 <= i < |added| ==> added[i] < |lens|
  {
    if |added| == 0 then 0 else MadeUpCost(added[..|added| - 1], lens) + lens[added[|added| - 1]]
  }

  /** The symbols added did not occur, and have no extra bits. */
  ghost predicate GoodAdded(freq: seq<nat>, added: seq<nat>, extra: seq<nat>, base: nat) {
    && (forall i :: 0 <= i < |added| ==> added[i] < |freq| && freq[added[i]] == 0 && XBits(extra, base, added[i]) == 0)
    && (forall i, j :: 0 <= i < j < |added| ==> added[i] != added[j])
  }

  lemma {:induction false} MadeUpFreq(freq: seq<nat>, added: seq<nat>)
    requires forall i :: 0 <= i < |added| ==> added[i] < |freq|
    ensures forall n :: 0 <= n < |freq| ==> MadeUp(freq, added)[n] == if n in added then 1 else freq[n]
  {
    if |added| > 0 {
      MadeUpFreq(freq, added[..|added| - 1]);
      assert added == added[..|added| - 1] + [added[|added| - 1]];
    }
  }

  /** Counting the symbols made up as well adds exactly what they take. */
  lemma {:induction false} CostMadeUp(freq: seq<nat>, added: seq<nat>, lens: seq<nat>, extra: seq<nat>, base: nat)
    requires |lens| <= |freq| && GoodAdded(freq, added, extra, base)
    requires forall i :: 0 <= i < |added| ==> added[i] < |lens|
    ensures Cost(MadeUp(freq, added), lens, extra, base) == Cost(freq, lens, extra, base) + MadeUpCost(added, lens)
  {
    hide Cost, XBits;
    if |added| > 0 {
      var rest, n := added[..|added| - 1], added[|added| - 1];
      CostMadeUp(freq, rest, lens, extra, base);
      MadeUpFreq(freq, rest);
      CostMore(MadeUp(freq, rest), lens, extra, base, n);
    }
  }

  /** At least two symbols are needed for a tree: symbols without occurrences are added. What they would
      take is deducted beforehand. */
  method AtLeastTwo(heap: array<nat>, dl: array<nat>, fc: array<nat>, depth: array<nat>, elems: nat, len: nat,
      last: int, stree: seq<nat>, ghost extra: seq<nat>, ghost base: nat, ghost used: set<nat>)
    returns (heapLen: nat, maxCode: int, opt: int, stat: int, ghost live: set<nat>, ghost added: seq<nat>)
    requires heap != fc && heap != depth && fc != depth && dl != heap && dl != fc && dl != depth && 3 <= elems
    requires elems + 1 < heap.Length
    requires elems <= fc.Length == dl.Length <= depth.Length && Gathered(heap[..], len, used, last)
    requires Used(fc[..], elems, used) && len <= elems
    requires (stree == [] || elems <= |stree|) && forall n :: 0 <= n < 3 ==> XBits(extra, base, n) == 0
    modifies heap, fc, depth
    ensures Gathered(heap[..], heapLen, live, maxCode) && Used(fc[..], elems, live) && 2 <= heapLen <= elems
    ensures used <= live
    ensures 1 <= maxCode < elems && maxCode >= last
    ensures GoodAdded(old(fc[..]), added, extra, base) && fc[..] == MadeUp(old(fc[..]), added)
    ensures (added != [] ==> heapLen == 2)
    ensures (forall i :: 0 <= i < |added| ==> added[i] in live && added[i] < elems)
    ensures (forall i :: 0 <= i < |added| ==> added[i] <= 2) && (2 in added <==> used == {1})
    ensures Deducted(added, stree, elems, opt, stat)
  {
    hide Adding, Holds, Gathered, Used, GoodAdded, MadeUp, Deducted, XBits;
    ghost var freq0 := fc[..];
    UsedUpTo(heap[..], len, used, last);
    heapLen, maxCode, live, added := len, last, used, [];
    opt, stat := 0, 0;
    NoneAdded(heap[..], freq0, elems, len, last, used, extra, base, stree);
    while heapLen < 2
      invariant heapLen <= elems
      invariant Adding(heap[..], fc[..], freq0, elems, len, last, heapLen, maxCode, used, live, added, extra, base)
      invariant Deducted(added, stree, elems, opt, stat)
      decreases 2 - heapLen
    {
      var node;
      maxCode, node, live, added := AddMore(heap, fc, depth, elems, len, last, heapLen, maxCode, freq0, extra, base,
        used, live, added);
      DeductedMore(added[..|added| - 1], stree, elems, opt, stat, node);
      heapLen := heapLen + 1;
      opt := opt - 1;
      if |stree| > 0 {
        stat := stat - stree[node];
      }
    }
    EnoughAdded(heap[..], fc[..], freq0, elems, len, last, heapLen, maxCode, used, live, added, extra, base);
  }

  /** What holds while symbols are added. */
  ghost predicate Adding(heap: seq<nat>, freq: seq<nat>, freq0: seq<nat>, elems: nat, len: nat, last: int,
      heapLen: nat, maxCode: int, used: set<nat>, live: set<nat>, added: seq<nat>, extra: seq<nat>, base: nat) {
    && elems <= |freq| && Gathered(heap, heapLen, live, maxCode) && Used(freq, elems, live) && used <= live
    && maxCode >= last && (added != [] ==> heapLen <= 2)
    && GoodAdded(freq0, added, extra, base) && freq == MadeUp(freq0, added)
    && (forall i :: 0 <= i < |added| ==> added[i] in live && added[i] < elems)
    && SoAdded(added, len, last, heapLen, maxCode)
  }

  lemma NoneAdded(heap: seq<nat>, freq: seq<nat>, elems: nat, len: nat, last: int, used: set<nat>, extra: seq<nat>,
      base: nat, stree: seq<nat>)
    requires elems <= |freq| && Gathered(heap, len, used, last) && Used(freq, elems, used)
    requires stree == [] || elems <= |stree|
    ensures Adding(heap, freq, freq, elems, len, last, len, last, used, used, [], extra, base)
    ensures Deducted([], stree, elems, 0, 0)
  {
    hide Gathered, Used;
  }

  method AddMore(heap: array<nat>, fc: array<nat>, depth: array<nat>, elems: nat, ghost len: nat, ghost last: int,
      heapLen: nat, code: int, ghost freq0: seq<nat>, ghost extra: seq<nat>, ghost base: nat, ghost used: set<nat>,
      ghost live: set<nat>, ghost added: seq<nat>)
    returns (maxCode: int, node: nat, ghost live': set<nat>, ghost added': seq<nat>)
    requires heap != fc && heap != depth && fc != depth && 3 <= elems <= fc.Length <= depth.Length
    requires elems + 1 < heap.Length && heapLen < 2 && forall n :: 0 <= n < 3 ==> XBits(extra, base, n) == 0
    requires Adding(heap[..], fc[..], freq0, elems, len, last, heapLen, code, used, live, added, extra, base)
    modifies heap, fc, depth
    ensures node < elems && added' == added + [node]
    ensures Adding(heap[..], fc[..], freq0, elems, len, last, heapLen + 1, maxCode, used, live', added', extra, base)
  {
    hide Gathered, Used, MadeUp, XBits, SoAdded;
    CodeRange(heap[..], heapLen, live, code);
    SoAddedMore(added, len, last, heapLen, code);
    maxCode, node, live', added' := AddOne(heap, fc, depth, elems, heapLen, code, freq0, extra, base, live, added);
  }

  lemma CodeRange(heap: seq<nat>, heapLen: nat, live: set<nat>, maxCode: int)
    requires Gathered(heap, heapLen, live, maxCode)
    ensures maxCode >= -1
  {
  }

  lemma EnoughAdded(heap: seq<nat>, freq: seq<nat>, freq0: seq<nat>, elems: nat, len: nat, last: int, heapLen: nat,
      maxCode: int, used: set<nat>, live: set<nat>, added: seq<nat>, extra: seq<nat>, base: nat)
    requires Adding(heap, freq, freq0, elems, len, last, heapLen, maxCode, used, live, added, extra, base)
    requires heapLen >= 2 && InUseUpTo(len, last, used)
    ensures Gathered(heap, heapLen, live, maxCode) && Used(freq, elems, live) && used <= live
    ensures 1 <= maxCode < elems && maxCode >= last && (added != [] ==> heapLen == 2)
    ensures GoodAdded(freq0, added, extra, base) && freq == MadeUp(freq0, added)
    ensures forall i :: 0 <= i < |added| ==> added[i] in live && added[i] < elems && added[i] <= 2
    ensures 2 in added <==> used == {1}
  {
    hide Holds, MadeUp, XBits;
    WhichAdded(added, len, last, heapLen, maxCode, used, live);
    HeldSize(heap, heapLen, live);
    MoreThanZero(live, maxCode);
  }

  /** The symbols in use are so many, up to the last. */
  ghost predicate InUseUpTo(len: nat, last: int, used: set<nat>) {
    && |used| == len && -1 <= last && (last == -1 <==> used == {}) && (last >= 0 ==> last in used)
    && forall x :: x in used ==> x <= last
  }

  /** The symbols made up so far, from `len` in use up to `last`. */
  ghost predicate SoAdded(added: seq<nat>, len: nat, last: int, heapLen: nat, maxCode: int) {
    && heapLen == len + |added| && (added == [] || heapLen <= 2)
    && (added == [] ==> maxCode == last)
    && (|added| == 1 ==> added[0] == (if last < 2 then last + 1 else 0) && (last < 2 ==> maxCode == last + 1))
    && (|added| == 2 ==> last == -1 ==> added == [0, 1])
  }

  lemma UsedUpTo(heap: seq<nat>, len: nat, used: set<nat>, last: int)
    requires Gathered(heap, len, used, last)
    ensures InUseUpTo(len, last, used)
  {
    hide Holds;
    HeldSize(heap, len, used);
  }

  lemma SoAddedMore(added: seq<nat>, len: nat, last: int, heapLen: nat, maxCode: int)
    requires SoAdded(added, len, last, heapLen, maxCode) && heapLen < 2 && maxCode >= -1
    ensures var node := if maxCode < 2 then maxCode + 1 else 0;
      SoAdded(added + [node], len, last, heapLen + 1, if maxCode < 2 then node else maxCode)
  {
  }

  lemma WhichAdded(added: seq<nat>, len: nat, last: int, heapLen: nat, maxCode: int, used: set<nat>, live: set<nat>)
    requires SoAdded(added, len, last, heapLen, maxCode) && heapLen >= 2 && |used| == len && used <= live
    requires (last == -1 <==> used == {}) && (last >= 0 ==> last in used) && (forall x :: x in used ==> x <= last)
    ensures (forall i :: 0 <= i < |added| ==> added[i] <= 2) && (2 in added <==> used == {1})
  {
    if len == 1 {
      OnlyOne(used, last);
      assert used == {last};
    }
  }

  /** The next symbol up to 2, or symbol 0, is made up. */
  method AddOne(heap: array<nat>, fc: array<nat>, depth: array<nat>, elems: nat, heapLen: nat, last: int,
      ghost freq0: seq<nat>, ghost extra: seq<nat>, ghost base: nat, ghost live: set<nat>, ghost added: seq<nat>)
    returns (maxCode: int, node: nat, ghost live': set<nat>, ghost added': seq<nat>)
    requires heap != fc && heap != depth && fc != depth && 3 <= elems <= fc.Length <= depth.Length
    requires heapLen + 1 < heap.Length && heapLen < 2
    requires Gathered(heap[..], heapLen, live, last) && Used(fc[..], elems, live)
    requires GoodAdded(freq0, added, extra, base) && fc[..] == MadeUp(freq0, added)
    requires forall i :: 0 <= i < |added| ==> added[i] in live
    requires forall n :: 0 <= n < 3 ==> XBits(extra, base, n) == 0
    modifies heap, fc, depth
    ensures node < elems && live' == live + {node} && added' == added + [node]
    ensures if last < 2 then node == maxCode == last + 1 else node == 0 && maxCode == last
    ensures Gathered(heap[..], heapLen + 1, live', maxCode) && Used(fc[..], elems, live')
    ensures GoodAdded(freq0, added', extra, base) && fc[..] == MadeUp(freq0, added')
  {
    hide Holds, MadeUp, XBits;
    HeldSize(heap[..], heapLen, live);
    maxCode, node := last, 0;
    if maxCode < 2 {
      maxCode := maxCode + 1;
      node := maxCode;
    } else {
      OnlyOne(live, maxCode);
    }
    MadeUpFreq(freq0, added);
    AddedMore(freq0, added, node);
    AddSymbol(heap, fc, depth, elems, heapLen, node, maxCode, live);
    live', added' := live + {node}, added + [node];
  }

  /** A symbol made up joins the others. */
  method AddSymbol(heap: array<nat>, fc: array<nat>, depth: array<nat>, elems: nat, heapLen: nat, node: nat,
      ghost maxCode: int, ghost live: set<nat>)
    requires heap != fc && heap != depth && fc != depth && node < elems <= fc.Length <= depth.Length
    requires heapLen + 1 < heap.Length
    requires Holds(heap[..], heapLen, live) && Used(fc[..], elems, live) && node !in live && node <= maxCode
    requires (forall x :: x in live ==> x <= maxCode) && (maxCode in live || maxCode == node)
    modifies heap, fc, depth
    ensures Gathered(heap[..], heapLen + 1, live + {node}, maxCode) && Used(fc[..], elems, live + {node})
    ensures fc[..] == old(fc[..])[node := 1]
  {
    hide Holds;
    NodeAdded(heap[..], heapLen, live, node);
    ghost var h := heap[..];
    heap[heapLen + 1] := node;
    assert heap[..] == h[heapLen + 1 := node];
    fc[node] := 1;
    depth[node] := 0;
  }

  /** One bit, and the bits of the other tree, for each symbol made up. */
  ghost predicate Deducted(added: seq<nat>, stree: seq<nat>, elems: nat, opt: int, stat: int) {
    && opt + |added| == 0
    && (stree != [] ==> elems <= |stree| && forall i :: 0 <= i < |added| ==> added[i] < |stree|)
    && (stree != [] ==> stat + MadeUpCost(added, stree) == 0)
    && (stree == [] ==> stat == 0)
  }

  lemma AddedMore(freq: seq<nat>, added: seq<nat>, n: nat)
    requires n < |freq| && forall i :: 0 <= i < |added| ==> added[i] < |freq|
    ensures MadeUp(freq, added + [n]) == MadeUp(freq, added)[n := 1]
  {
    assert (added + [n])[..|added|] == added;
  }

  lemma DeductedMore(added: seq<nat>, stree: seq<nat>, elems: nat, opt: int, stat: int, n: nat)
    requires Deducted(added, stree, elems, opt, stat) && n < elems
    ensures Deducted(added + [n], stree, elems, opt - 1, if |stree| > 0 then stat - stree[n] else stat)
  {
    assert (added + [n])[..|added|] == added;
  }

  lemma OnlyOne(live: set<nat>, x: nat)
    requires x in live && |live| < 2
    ensures forall y :: y in live ==> y == x
  {
    forall y | y in live ensures y == x {
      if y != x {
        Subset({x, y}, live);
      }
    }
  }

  lemma MoreThanZero(live: set<nat>, maxCode: int)
    requires |live| >= 2 && forall x :: x in live ==> x <= maxCode
    ensures maxCode >= 1
  {
    if maxCode < 1 {
      Subset(live, {0});
    }
  }

  /** Establishing the heap, from the last father up. */
  method Heapify(heap: array<nat>, heapLen: nat, freq: seq<nat>, depth: seq<nat>, ghost live: set<nat>)
    requires 1 <= heapLen && Holds(heap[..], heapLen, live) && Nodes(heap[..], heapLen, freq, depth)
    modifies heap
    ensures Holds(heap[..], heapLen, live) && Nodes(heap[..], heapLen, freq, depth)
    ensures HeapFrom(heap[..], heapLen, freq, depth, 1)
  {
    hide Holds, Smaller;
    var n: nat := heapLen / 2;
    Childless(heap[..], heapLen, freq, depth);
    while n >= 1
      invariant n <= heapLen / 2 && Holds(heap[..], heapLen, live) && Nodes(heap[..], heapLen, freq, depth)
      invariant HeapFrom(heap[..], heapLen, freq, depth, n + 1)
    {
      ghost var h := heap[..];
      PqDownHeap(heap, heapLen, freq, depth, n);
      SameHeld(heap[..], h, heapLen, live);
      n := n - 1;
    }
  }

  lemma Childless(heap: seq<nat>, len: nat, freq: seq<nat>, depth: seq<nat>)
    requires Nodes(heap, len, freq, depth)
    ensures HeapFrom(heap, len, freq, depth, len / 2 + 1)
  {
  }

  // The whole.

  /** Leaves are live, and no other node exists. */
  ghost function Everywhere(live: set<nat>, n: nat): (at: seq<int>)
    ensures |at| == n && forall x :: 0 <= x < n ==> at[x] == if x in live then LIVE else ABSENT
  {
    seq(n, x => if x in live then LIVE else ABSENT)
  }

  lemma StartCombining(heap: seq<nat>, dl: seq<nat>, freq: seq<nat>, depth: seq<nat>, elems: nat, heapLen: nat,
      live: set<nat>)
    requires |freq| == |dl| == |depth| && elems <= |dl| && Holds(heap, heapLen, live)
    requires Nodes(heap, heapLen, freq, depth) && HeapFrom(heap, heapLen, freq, depth, 1)
    requires forall x :: x in live ==> x < elems
    ensures Combining(heap, dl, freq, depth, elems, elems, heapLen, |heap|, Everywhere(live, |dl|), live)
  {
    hide Holds, HeapFrom, Nodes;
  }

  /** The middle of build_tree(): combining until one node is left, and putting that away as well. */
  method CombineAll(heap: array<nat>, dl: array<nat>, fc: array<nat>, depth: array<nat>, elems: nat, leaves: nat,
      maxCode: nat, ghost used: set<nat>)
    returns (heapMax: nat, ghost k: nat, ghost pos: seq<nat>, ghost place: seq<int>)
    requires heap != dl && heap != fc && heap != depth && dl != fc && dl != depth && fc != depth
    requires fc.Length == dl.Length <= depth.Length && 2 * elems <= dl.Length && 2 <= leaves <= elems
    requires 2 * leaves <= heap.Length
    requires Holds(heap[..], leaves, used) && Nodes(heap[..], leaves, fc[..], depth[..fc.Length])
    requires HeapFrom(heap[..], leaves, fc[..], depth[..fc.Length], 1)
    requires maxCode < elems && (forall x :: x in used ==> x <= maxCode)
    requires forall n :: 0 <= n < elems && n !in used ==> dl[n] == 0
    modifies heap, dl, fc, depth
    ensures heapMax <= heap.Length && Ordered(heap[heapMax..], dl[..], elems, k, pos)
    ensures Placed(heap[heapMax..], elems, place) && OthersZero(place, dl[..])
    ensures |place| == maxCode + 1 && forall n :: 0 <= n <= maxCode ==> (place[n] == -1 <==> n !in used)
    ensures Weighed(heap[heapMax..], elems, k, fc[..])
    ensures k == leaves - 1 && forall n :: 0 <= n < elems ==> fc[n] == old(fc[n])
    ensures forall n :: 0 <= n < elems && n !in used ==> dl[n] == 0
  {
    hide Combining, LeavesStay, Ordered, Placed, Holds, Nodes, HeapFrom, Fathers, Weighed;
    var heapLen: nat := leaves;
    heapMax := heap.Length;
    var node: nat := elems;
    ghost var at, live := Everywhere(used, dl.Length), used;
    ghost var at0, d0, f0 := at, dl[..], fc[..];
    StartCombining(heap[..], d0, f0, depth[..fc.Length], elems, heapLen, used);
    NothingMoves(at, d0, f0, elems);
    NoFathers(heap[..], f0, elems);
    while heapLen >= 2
      invariant heapLen >= 1
      invariant Combining(heap[..], dl[..], fc[..], depth[..fc.Length], elems, node, heapLen, heapMax, at, live)
      invariant Sizes(heap.Length, elems, leaves, node, heapLen, heapMax)
      invariant LeavesStay(at0, at, d0, dl[..], f0, fc[..], elems)
      invariant Fathers(heap[..], fc[..], elems, node - elems)
    {
      ghost var at1, d1, f1 := at, dl[..], fc[..];
      at, live := Combine(heap, dl, fc, depth, elems, node, heapLen, heapMax, leaves, at, live);
      StayTwice(at0, at1, at, d0, d1, dl[..], f0, f1, fc[..], elems);
      node, heapLen, heapMax := node + 1, heapLen - 1, heapMax - 2;
    }
    ghost var h := heap[..];
    OneLeft(h, dl[..], fc[..], depth[..fc.Length], elems, node, heapMax, at, live);
    StillAbsent(at0, at, d0, dl[..], f0, fc[..], elems, used, maxCode);
    pos, place := InOrderNow(h, dl[..], elems, node, heapMax, at, maxCode);
    WeighedNow(h, dl[..], fc[..], depth[..fc.Length], elems, node, heapMax, at, live);
    heapMax := heapMax - 1;
    heap[heapMax] := heap[1];
    assert heap[..] == h[heapMax := h[1]];
    StaysParts(at0, at, d0, dl[..], f0, fc[..], elems);
    k := node - elems;
  }

  lemma NoFathers(heap: seq<nat>, freq: seq<nat>, elems: nat)
    requires elems <= |freq|
    ensures Fathers(heap, freq, elems, 0)
  {
  }

  /** In the end the nodes are in the order of their weights. */
  lemma WeighedNow(heap: seq<nat>, dl: seq<nat>, freq: seq<nat>, depth: seq<nat>, elems: nat, node: nat, heapMax: nat,
      at: seq<int>, live: set<nat>)
    requires Combining(heap, dl, freq, depth, elems, node, 1, heapMax, at, live) && node > elems && heapMax >= 1
    requires heapMax + 2 * (node - elems) == |heap| && Fathers(heap, freq, elems, node - elems) && |heap| > 1
    requires heap[1] == node - 1 && node <= |freq|
    ensures Weighed(heap[heapMax - 1 := heap[1]][heapMax - 1..], elems, node - elems, freq)
  {
    hide Built, LiveAre, Nodes, HeapFrom, Holds;
    var k, order := node - elems, heap[heapMax - 1 := heap[1]][heapMax - 1..];
    forall t | 0 <= t < k ensures freq[elems + t] == freq[Lighter(order, k, t)] + freq[Heavier(order, k, t)] {
      assert FatherOf(heap, freq, elems, t);
    }
  }

  lemma StaysParts(at: seq<int>, at': seq<int>, dl: seq<nat>, dl': seq<nat>, freq: seq<nat>, freq': seq<nat>,
      elems: nat)
    requires LeavesStay(at, at', dl, dl', freq, freq', elems)
    ensures elems <= |freq| == |freq'| && forall n :: 0 <= n < elems ==> freq[n] == freq'[n]
  {
  }

  lemma NothingMoves(at: seq<int>, dl: seq<nat>, freq: seq<nat>, elems: nat)
    requires elems <= |at| == |dl| == |freq|
    ensures LeavesStay(at, at, dl, dl, freq, freq, elems)
  {
  }

  lemma OneLeft(heap: seq<nat>, dl: seq<nat>, freq: seq<nat>, depth: seq<nat>, elems: nat, node: nat, heapMax: nat,
      at: seq<int>, live: set<nat>)
    requires Combining(heap, dl, freq, depth, elems, node, 1, heapMax, at, live) && node > elems
    ensures Built(heap, dl, elems, node, heapMax, at) && LiveAre(at, {node - 1}) && |heap| > 1 && heap[1] == node - 1
  {
    hide Built, LiveAre, Sorted, HeapFrom, Topped, Nodes;
    HeldSize(heap, 1, live);
    OnlyOne(live, node - 1);
    HeldNode(heap, 1, live, 1);
    assert live == {node - 1};
  }

  lemma StillAbsent(at0: seq<int>, at: seq<int>, d0: seq<nat>, dl: seq<nat>, f0: seq<nat>, freq: seq<nat>, elems: nat,
      used: set<nat>, maxCode: nat)
    requires LeavesStay(at0, at, d0, dl, f0, freq, elems) && at0 == Everywhere(used, |at0|) && maxCode < elems
    requires (forall x :: x in used ==> x <= maxCode) && forall n :: 0 <= n < elems && n !in used ==> d0[n] == 0
    ensures elems <= |at| && elems <= |dl|
    ensures forall x :: 0 <= x < elems ==> (at[x] == ABSENT <==> x !in used) && (x !in used ==> dl[x] == 0)
  {
  }

  /** The tables that describe a tree: which symbols have extra bits, how long codes may be, and the
      fixed code to compare with, if there is one. */
  datatype Desc = Desc(extra: seq<nat>, base: nat, elems: nat, max: nat, stree: seq<nat>)

  ghost predicate GoodDesc(d: Desc) {
    && 3 <= d.elems < Pow2(d.max) && 1 <= d.max <= MAX_BITS && Covers(d.stree, d.elems)
    && forall n :: 0 <= n < 3 ==> XBits(d.extra, d.base, n) == 0
  }

  /** The lengths give every symbol in use a code within the limit, and take the code space exactly. */
  ghost predicate Complete(lens: seq<nat>, freq: seq<nat>, max: nat, counts: seq<nat>) {
    && Consistent(lens) && Counts(counts, lens) && max < |counts| && Space(counts, max) == Pow2(max)
    && (forall n :: 0 <= n < |lens| ==> lens[n] <= max)
    && (forall n :: 0 <= n < |lens| <= |freq| && freq[n] != 0 ==> lens[n] != 0)
  }

  /** The first half of build_tree(): the symbols for which there is to be a code, in a heap. */
  method StartTree(heap: array<nat>, dl: array<nat>, fc: array<nat>, depth: array<nat>, d: Desc)
    returns (heapLen: nat, maxCode: nat, opt: int, stat: int, ghost live: set<nat>, ghost added: seq<nat>)
    requires heap != dl && heap != fc && heap != depth && dl != fc && dl != depth && fc != depth
    requires fc.Length == dl.Length <= depth.Length && 2 * d.elems <= dl.Length && 2 * d.elems <= heap.Length
    requires GoodDesc(d)
    modifies heap, dl, fc, depth
    ensures 2 <= heapLen <= d.elems && 1 <= maxCode < d.elems && Used(fc[..], d.elems, live)
    ensures Holds(heap[..], heapLen, live) && Nodes(heap[..], heapLen, fc[..], depth[..fc.Length])
    ensures HeapFrom(heap[..], heapLen, fc[..], depth[..fc.Length], 1)
    ensures (forall x :: x in live ==> x <= maxCode) && forall n :: 0 <= n < d.elems && n !in live ==> dl[n] == 0
    ensures forall n :: 0 <= n < d.elems && old(fc[n]) != 0 ==> n in live
    ensures GoodAdded(old(fc[..]), added, d.extra, d.base) && fc[..] == MadeUp(old(fc[..]), added)
    ensures (added != [] ==> heapLen == 2)
    ensures (forall i :: 0 <= i < |added| ==> added[i] in live) && Deducted(added, d.stree, d.elems, opt, stat)
  {
    hide Gathered, Holds, HeapFrom, Pow2, Nodes, Covers, Deducted, GoodAdded, MadeUp;
    ghost var used;
    var len, last;
    len, last, used := Gather(heap, dl, fc, depth, d.elems);
    GatheredUpTo(heap[..], len, used, last);
    CoversParts(d.stree, d.elems);
    var code;
    heapLen, code, opt, stat, live, added := AtLeastTwo(heap, dl, fc, depth, d.elems, len, last, d.stree, d.extra,
      d.base, used);
    maxCode := code;
    GatheredUpTo(heap[..], heapLen, live, maxCode);
    HeldNodes(heap[..], heapLen, live, fc[..], depth[..fc.Length]);
    Heapify(heap, heapLen, fc[..], depth[..fc.Length], live);
  }

  /** build_tree(): every symbol in use gets a length within the limit and the canonical code of that
      length, the codes take the code space exactly, and the bits needed for what was counted are known. */
  method BuildTree(heap: array<nat>, dl: array<nat>, fc: array<nat>, depth: array<nat>, counts: array<nat>, d: Desc)
    returns (maxCode: nat, opt: int, stat: int, ghost cut: bool)
    requires heap != dl && heap != fc && heap != depth && dl != fc && dl != depth && fc != depth && counts != dl
    requires counts != fc && counts != heap && counts != depth
    requires fc.Length == dl.Length <= depth.Length && 2 * d.elems <= dl.Length && 2 * d.elems <= heap.Length
    requires counts.Length == MAX_BITS + 1 && GoodDesc(d)
    modifies heap, dl, fc, depth, counts
    ensures 1 <= maxCode < d.elems && Complete(dl[..maxCode + 1], old(fc[..]), d.max, counts[..])
    ensures forall n :: 0 <= n < d.elems && old(fc[n]) != 0 ==> n <= maxCode
    ensures forall n :: maxCode < n < d.elems ==> dl[n] == 0
    ensures forall n :: 0 <= n <= maxCode && dl[n] != 0 ==> Reversed(fc[n], dl[..maxCode + 1], n)
    ensures opt == Cost(old(fc[..]), dl[..maxCode + 1], d.extra, d.base)
    ensures stat == if d.stree == [] then 0 else Cost(old(fc[..]), d.stree[..maxCode + 1], d.extra, d.base)
    ensures !cut ==> Least(old(fc[..]), dl[..maxCode + 1], d.extra, d.base)
    ensures cut ==> Sum(old(fc[..d.elems])) >= Fib(d.max + 1)
  {
    hide Gathered, Ordered, Placed, OthersZero, Holds, HeapFrom, Consistent, Counts, Space, Pow2, Nodes, Reversed;
    hide Covers, Charged, Deducted, GoodAdded, MadeUp, Least, Fib, Sum, Weighed, DeepOrNot, Used;
    ghost var live, added, deep, deepest;
    ghost var freq0 := fc[..];
    var heapLen;
    heapLen, maxCode, opt, stat, live, added := StartTree(heap, dl, fc, depth, d);
    var heapMax;
    ghost var k, pos, place;
    ghost var freq := fc[..];
    heapMax, k, pos, place := CombineAll(heap, dl, fc, depth, d.elems, heapLen, maxCode, live);
    CoversFewer(d.stree, d.elems, maxCode + 1);
    var more, moreStatic;
    ghost var dads := dl[..];
    more, moreStatic, cut, deep, deepest := GenBitLen(dl, heap[heapMax..], d.elems, k, d.max, maxCode, counts, fc[..],
      d.extra, d.base, d.stree, pos, place);
    CountsParts(counts[..], dl[..maxCode + 1]);
    AllCharged(old(fc[..]), freq, fc[..], dl[..maxCode + 1], d, added, opt, stat, more, moreStatic);
    opt, stat := opt + more, stat + moreStatic;
    Judged(heap[heapMax..], dads, d, k, pos, place, fc[..], freq0, freq, dl[..], live, added, maxCode, cut, deep,
      deepest);
    assert old(fc[..])[..d.elems] == old(fc[..d.elems]);
    GenCodes(dl[..maxCode + 1], counts[..], fc);
  }

  /** The lengths are the best there are, unless the tree was too deep. */
  lemma Judged(order: seq<nat>, dads: seq<nat>, d: Desc, k: nat, pos: seq<nat>, place: seq<int>, w: seq<nat>,
      freq0: seq<nat>, freq: seq<nat>, lens: seq<nat>, live: set<nat>, added: seq<nat>, maxCode: nat, cut: bool,
      deep: seq<nat>, p: nat)
    requires Ordered(order, dads, d.elems, k, pos) && Placed(order, d.elems, place) && Weighed(order, d.elems, k, w)
    requires |w| == |dads| == |lens| == |freq| == |freq0| && d.elems <= |w| && maxCode < d.elems && d.max >= 1
    requires DeepOrNot(order, d.elems, k, lens, d.max, |order|, cut, deep, p)
    requires |place| == maxCode + 1 && forall n :: 0 <= n <= maxCode ==> (place[n] == -1 <==> n !in live)
    requires Used(freq, d.elems, live) && (forall x :: x in live ==> x <= maxCode)
    requires forall n :: 0 <= n < d.elems ==> w[n] == freq[n]
    requires forall i :: 0 <= i < |added| ==> added[i] < |freq0|
    requires freq == MadeUp(freq0, added) && (added != [] ==> k == 1)
    requires forall n :: 0 <= n <= maxCode ==> (lens[n] == 0 <==> place[n] == -1)
    requires k == 1 ==> forall n :: 0 <= n <= maxCode ==> lens[n] <= 1
    ensures !cut ==> Least(freq0, lens[..maxCode + 1], d.extra, d.base)
    ensures cut ==> Sum(freq0[..d.elems]) >= Fib(d.max + 1)
  {
    hide Ordered, Placed, Weighed, Least, Fib, Sum, DeepOrNot;
    if added == [] {
      LeastOrDeep(order, dads, d.elems, k, pos, place, w, freq0, lens, d.extra, d.base, d.max, cut, deep, p);
    } else {
      TwoLeaves(order, d.elems, k, lens, d.max, cut, deep, p, dads, pos);
      OneBitIsLeast(freq0, lens[..maxCode + 1], d.extra, d.base);
    }
  }

  lemma CoversParts(stree: seq<nat>, n: nat)
    requires Covers(stree, n)
    ensures stree == [] || (n <= |stree| && forall i :: 0 <= i < n ==> stree[i] != 0)
  {
  }

  lemma CoversFewer(stree: seq<nat>, n: nat, m: nat)
    requires Covers(stree, n) && m <= n
    ensures Covers(stree, m)
  {
  }

  /** In the end exactly what occurs has been counted. */
  lemma AllCharged(freq0: seq<nat>, freq: seq<nat>, now: seq<nat>, lens: seq<nat>, d: Desc, added: seq<nat>, opt: int,
      stat: int, more: int, moreStatic: int)
    requires GoodAdded(freq0, added, d.extra, d.base) && freq == MadeUp(freq0, added)
    requires |lens| <= d.elems <= |freq0| == |now|
    requires Charged(more, moreStatic, now, lens, d.extra, d.base, d.stree)
    requires Deducted(added, d.stree, d.elems, opt, stat)
    requires forall n :: 0 <= n < |lens| ==> now[n] == freq[n]
    requires forall i :: 0 <= i < |added| ==> added[i] < |lens| && lens[added[i]] == 1
    requires Covers(d.stree, d.elems) && forall n :: 0 <= n < |lens| && freq0[n] != 0 ==> lens[n] != 0
    ensures opt + more == Cost(freq0, lens, d.extra, d.base)
    ensures stat + moreStatic == if d.stree == [] then 0 else Cost(freq0, d.stree[..|lens|], d.extra, d.base)
  {
    hide Cost, XBits, MadeUp, GoodAdded;
    CostSame(now, freq, lens, lens, d.extra, d.base);
    CostMadeUp(freq0, added, lens, d.extra, d.base);
    OnesCost(added, lens);
    var other := Other(lens, d.stree);
    CostSame(now, freq, other, other, d.extra, d.base);
    CostMadeUp(freq0, added, other, d.extra, d.base);
    if d.stree == [] {
      CostNone(now, other, d.extra, d.base);
    } else {
      SameCost(added, other, d.stree);
      CostSame(freq0, freq0, other, d.stree[..|lens|], d.extra, d.base);
    }
  }

  lemma {:induction false} OnesCost(added: seq<nat>, lens: seq<nat>)
    requires forall i :: 0 <= i < |added| ==> added[i] < |lens| && lens[added[i]] == 1
    ensures MadeUpCost(added, lens) == |added|
  {
    if |added| > 0 {
      OnesCost(added[..|added| - 1], lens);
    }
  }

  lemma {:induction false} SameCost(added: seq<nat>, a: seq<nat>, b: seq<nat>)
    requires forall i :: 0 <= i < |added| ==> added[i] < |a| && added[i] < |b| && a[added[i]] == b[added[i]]
    ensures MadeUpCost(added, a) == MadeUpCost(added, b)
  {
    if |added| > 0 {
      SameCost(added[..|added| - 1], a, b);
    }
  }

  lemma CountsParts(counts: seq<nat>, lens: seq<nat>)
    requires Counts(counts, lens)
    ensures |counts| == MAX_BITS + 1 && counts[0] == 0 && forall b :: 1 <= b <= MAX_BITS ==> counts[b] == Count(lens, b)
  {
  }

  lemma GatheredUpTo(heap: seq<nat>, heapLen: nat, live: set<nat>, maxCode: int)
    requires Gathered(heap, heapLen, live, maxCode)
    ensures Holds(heap, heapLen, live) && forall x :: x in live ==> x <= maxCode
  {
  }
}
