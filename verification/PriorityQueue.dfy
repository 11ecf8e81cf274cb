/**
 * The bounded min-heap of the outbox (src/common/utils/priority-queue.util.js),
 * with the default comparator: priority, then insertion sequence.
 *
 * The heap refines a plain sorted list: every method is proved against a list
 * operation, and the queue's promises are theorems about those operations.
 */
module PriorityQueue {
  import opened Prelude

  /** A heap slot. Priorities are exact numbers. */
  datatype Entry<T> = Entry(priority: real, value: T, insertSeq: nat)

  /** The comparator is negative. */
  predicate Less<T>(a: Entry<T>, b: Entry<T>) {
    a.priority < b.priority || (a.priority == b.priority && a.insertSeq < b.insertSeq)
  }

  predicate AtMost<T>(a: Entry<T>, b: Entry<T>) { !Less(b, a) }

  // ---------- the list the heap stands for ----------

  ghost predicate Ordered<T>(q: seq<Entry<T>>) {
    forall i, j | 0 <= i < j < |q| :: Less(q[i], q[j])
  }

  /** In an ordered list a lower priority number comes first, and of equal ones the entry that arrived first. */
  lemma OrderedByPriorityThenArrival<T>(q: seq<Entry<T>>)
    ensures Ordered(q) <==> forall i, j | 0 <= i < j < |q| ::
      q[i].priority < q[j].priority || (q[i].priority == q[j].priority && q[i].insertSeq < q[j].insertSeq)
  {
  }

  function Insert<T>(q: seq<Entry<T>>, e: Entry<T>): seq<Entry<T>> {
    if q == [] then [e]
    else if Less(e, q[0]) then [e] + q
    else [q[0]] + Insert(q[1..], e)
  }

  function Take<T>(q: seq<T>, k: nat): seq<T> { if k <= |q| then q[..k] else q }

  /** Bounded insertion: a full queue gives up its last entry for a better one, and drops any other. */
  function Offer<T>(q: seq<Entry<T>>, max: Option<int>, e: Entry<T>): seq<Entry<T>>
    requires max.Some? ==> 1 <= max.value
  {
    if max.None? || |q| < max.value then Insert(q, e)
    else if Less(e, q[|q| - 1]) then Insert(q[..|q| - 1], e)
    else q
  }

  function Keep<T>(q: seq<Entry<T>>, p: T -> bool): seq<Entry<T>> {
    if q == [] then []
    else if p(q[0].value) then Keep(q[1..], p)
    else [q[0]] + Keep(q[1..], p)
  }

  function Values<T>(q: seq<Entry<T>>): seq<T> {
    if q == [] then [] else [q[0].value] + Values(q[1..])
  }

  lemma {:induction false} ValuesAt<T>(q: seq<Entry<T>>, i: nat)
    requires i < |q|
    ensures |Values(q)| == |q| && Values(q)[i] == q[i].value
  {
    if i > 0 { ValuesAt(q[1..], i - 1); } else if |q| > 1 { ValuesAt(q[1..], 0); }
  }

  lemma {:induction false} InsertKeepsOrder<T>(q: seq<Entry<T>>, e: Entry<T>)
    requires Ordered(q) && forall i | 0 <= i < |q| :: q[i].insertSeq != e.insertSeq
    ensures Ordered(Insert(q, e)) && multiset(Insert(q, e)) == multiset(q) + multiset{e}
  {
    if q == [] {
    } else if Less(e, q[0]) {
      forall i, j | 0 <= i < j < |[e] + q| ensures Less(([e] + q)[i], ([e] + q)[j]) {
        if i == 0 && j > 1 { assert Less(q[0], q[j - 1]); }
      }
    } else {
      InsertKeepsOrder(q[1..], e);
      assert q == [q[0]] + q[1..];
      var rest := Insert(q[1..], e);
      forall j | 0 <= j < |rest| ensures Less(q[0], rest[j]) {
        assert rest[j] in multiset(q[1..]) + multiset{e};
        if rest[j] != e {
          assert rest[j] in q[1..];
        }
      }
    }
  }

  lemma SameFirst<T>(p: seq<Entry<T>>, q: seq<Entry<T>>)
    requires Ordered(p) && Ordered(q) && multiset(p) == multiset(q) && p != [] && q != []
    ensures p[0] == q[0]
  {
    assert p[0] in multiset(q) && q[0] in multiset(p);
  }

  lemma TailElements<T>(p: seq<T>)
    requires p != []
    ensures multiset(p[1..]) == multiset(p) - multiset{p[0]}
  {
    assert p == [p[0]] + p[1..];
  }

  /** A list without repetitions in this order is determined by its elements. */
  lemma {:induction false} OrderIsUnique<T>(p: seq<Entry<T>>, q: seq<Entry<T>>)
    requires Ordered(p) && Ordered(q) && multiset(p) == multiset(q)
    ensures p == q
  {
    SameSize(p, q);
    if p != [] {
      SameFirst(p, q);
      TailElements(p);
      TailElements(q);
      OrderIsUnique(p[1..], q[1..]);
      assert p == [p[0]] + p[1..] && q == [q[0]] + q[1..];
    }
  }

  // ---------- bounded enqueueing keeps the k least entries ----------

  lemma {:induction false} InsertAppend<T>(q: seq<Entry<T>>, e: Entry<T>)
    requires q != [] && Less(e, q[|q| - 1])
    ensures Insert(q, e) == Insert(q[..|q| - 1], e) + [q[|q| - 1]]
  {
    var n := |q| - 1;
    if n > 0 && !Less(e, q[0]) {
      assert q[1..][..n - 1] == q[..n][1..];
      InsertAppend(q[1..], e);
    } else if n > 0 {
      assert q == q[..n] + [q[n]];
    }
  }

  lemma TakeCons<T>(x: T, t: seq<T>, k: nat)
    requires k >= 1
    ensures Take([x] + t, k) == [x] + Take(t, k - 1)
  {
  }

  lemma TakeTake<T>(t: seq<T>, j: nat, k: nat)
    requires j <= k
    ensures Take(Take(t, k), j) == Take(t, j)
  {
  }

  lemma {:induction false} TakeInsert<T>(s: seq<Entry<T>>, k: nat, e: Entry<T>)
    requires k >= 1
    ensures Take(Insert(s, e), k) == Take(Insert(Take(s, k), e), k)
    decreases |s|
  {
    if s != [] {
      var x, t := s[0], s[1..];
      assert s == [x] + t;
      TakeCons(x, t, k);
      if Less(e, x) {
        TakeCons(e, s, k);
        TakeCons(e, Take(s, k), k);
        TakeTake(s, k - 1, k);
      } else {
        TakeCons(x, Insert(t, e), k);
        TakeCons(x, Insert(Take(t, k - 1), e), k);
        if k > 1 { TakeInsert(t, k - 1, e); }
      }
    }
  }

  lemma {:induction false} InsertLength<T>(q: seq<Entry<T>>, e: Entry<T>)
    ensures |Insert(q, e)| == |q| + 1
  {
    if q != [] && !Less(e, q[0]) { InsertLength(q[1..], e); }
  }

  /** An entry that is not better than anything goes last. */
  lemma {:induction false} InsertLast<T>(q: seq<Entry<T>>, e: Entry<T>)
    requires forall i | 0 <= i < |q| :: !Less(e, q[i])
    ensures Insert(q, e) == q + [e]
  {
    if q != [] { InsertLast(q[1..], e); }
  }

  /** The bounded step is: insert, then cut to k. */
  lemma OfferIsCutInsert<T>(q: seq<Entry<T>>, k: int, e: Entry<T>)
    requires Ordered(q) && |q| <= k && k >= 1
    ensures Offer(q, Some(k), e) == Take(Insert(q, e), k)
  {
    InsertLength(q, e);
    if |q| == k {
      if Less(e, q[k - 1]) {
        InsertAppend(q, e);
        InsertLength(q[..k - 1], e);
      } else {
        forall i | 0 <= i < k ensures !Less(e, q[i]) {
          if i < k - 1 { assert Less(q[i], q[k - 1]); }
        }
        InsertLast(q, e);
      }
    }
  }

  /** The entries an enqueue-only run creates, numbered from the queue's counter. */
  function Arrivals<T>(items: seq<(T, real)>, from: nat): seq<Entry<T>> {
    seq(|items|, i requires 0 <= i < |items| => Entry(items[i].1, items[i].0, from + i))
  }

  function OfferAll<T>(q: seq<Entry<T>>, max: Option<int>, es: seq<Entry<T>>): seq<Entry<T>>
    requires max.Some? ==> 1 <= max.value
    decreases |es|
  {
    if es == [] then q else OfferAll(Offer(q, max, es[0]), max, es[1..])
  }

  function SortAll<T>(q: seq<Entry<T>>, es: seq<Entry<T>>): seq<Entry<T>>
    decreases |es|
  {
    if es == [] then q else SortAll(Insert(q, es[0]), es[1..])
  }

  /** Every entry of s was created before every entry of es, and es is in order of creation. */
  ghost predicate Fresher<T>(s: seq<Entry<T>>, es: seq<Entry<T>>) {
    && (forall i, j | 0 <= i < |s| && 0 <= j < |es| :: s[i].insertSeq < es[j].insertSeq)
    && (forall i, j | 0 <= i < j < |es| :: es[i].insertSeq < es[j].insertSeq)
  }

  lemma FresherStep<T>(s: seq<Entry<T>>, es: seq<Entry<T>>)
    requires es != [] && Ordered(s) && Fresher(s, es)
    ensures Ordered(Insert(s, es[0])) && multiset(Insert(s, es[0])) == multiset(s) + multiset{es[0]}
    ensures Fresher(Insert(s, es[0]), es[1..])
  {
    var e := es[0];
    InsertKeepsOrder(s, e);
    var s' := Insert(s, e);
    forall i, j | 0 <= i < |s'| && 0 <= j < |es[1..]|
      ensures s'[i].insertSeq < es[1..][j].insertSeq
    {
      assert s'[i] in multiset(s) + multiset{e};
      if s'[i] != e { assert s'[i] in s; }
    }
  }

  lemma {:induction false} SortKeepsElements<T>(s: seq<Entry<T>>, es: seq<Entry<T>>)
    requires Ordered(s) && Fresher(s, es)
    ensures Ordered(SortAll(s, es)) && multiset(SortAll(s, es)) == multiset(s) + multiset(es)
    decreases |es|
  {
    if es != [] {
      FresherStep(s, es);
      SortKeepsElements(Insert(s, es[0]), es[1..]);
      assert es == [es[0]] + es[1..];
    }
  }

  lemma {:induction false} CutSort<T>(s: seq<Entry<T>>, k: int, es: seq<Entry<T>>)
    requires k >= 1 && Ordered(s) && Fresher(s, es)
    ensures OfferAll(Take(s, k), Some(k), es) == Take(SortAll(s, es), k)
    decreases |es|
  {
    hide Ordered;
    hide Fresher;
    if es != [] {
      TakeKeepsOrder(s, k);
      OfferIsCutInsert(Take(s, k), k, es[0]);
      TakeInsert(s, k, es[0]);
      FresherStep(s, es);
      CutSort(Insert(s, es[0]), k, es[1..]);
    }
  }

  lemma TakeKeepsOrder<T>(s: seq<Entry<T>>, k: nat)
    requires Ordered(s)
    ensures Ordered(Take(s, k)) && |Take(s, k)| <= k
  {
  }

  lemma PrefixIsLeast<T>(sorted: seq<Entry<T>>, k: nat, kept: Entry<T>, gone: Entry<T>)
    requires Ordered(sorted)
    ensures |Take(sorted, k)| == Min(k, |sorted|) && multiset(Take(sorted, k)) <= multiset(sorted)
    ensures Ordered(Take(sorted, k))
    ensures kept in Take(sorted, k) && gone in sorted && gone !in Take(sorted, k) ==> Less(kept, gone)
  {
    var q := Take(sorted, k);
    var rest := sorted[|q|..];
    assert sorted == q + rest;
    if kept in q && gone in sorted && gone !in q {
      var i :| 0 <= i < |q| && q[i] == kept;
      var j :| 0 <= j < |sorted| && sorted[j] == gone;
      if j < |q| { assert false; }
      assert sorted[i] == kept;
    }
  }

  /**
   * A bounded queue is a top-k filter: after any run of enqueues into a fresh queue of
   * size k, it holds min(k, n) of the n entries ever offered, and everything it holds
   * precedes everything it does not.
   */
  lemma BoundedQueueKeepsTheLeast<T>(items: seq<(T, real)>, k: int, kept: Entry<T>, gone: Entry<T>)
    requires k >= 1
    ensures var all, q := Arrivals(items, 0), OfferAll([], Some(k), Arrivals(items, 0));
      && |all| == |items| && (forall i | 0 <= i < |items| :: all[i] == Entry(items[i].1, items[i].0, i))
      && |q| == Min(k, |items|) && multiset(q) <= multiset(all) && Ordered(q)
      && (kept in q && gone in all && gone !in q ==>
            kept.priority < gone.priority || (kept.priority == gone.priority && kept.insertSeq < gone.insertSeq))
  {
    hide Ordered;
    hide SortAll;
    hide OfferAll;
    var all := Arrivals(items, 0);
    var s: seq<Entry<T>> := [];
    assert Ordered(s) by { OrderedEmpty<T>(); }
    CutSort(s, k, all);
    SortKeepsElements(s, all);
    var sorted := SortAll(s, all);
    assert multiset(sorted) == multiset(all);
    SameSize(sorted, all);
    PrefixIsLeast(sorted, k, kept, gone);
    assert gone in all ==> gone in multiset(sorted);
  }

  lemma OrderedEmpty<T>()
    ensures Ordered<T>([])
  {
  }

  // ---------- removal ----------

  lemma {:induction false} KeepIsSubsequence<T>(q: seq<Entry<T>>, p: T -> bool)
    requires Ordered(q)
    ensures Ordered(Keep(q, p))
    ensures forall e | e in Keep(q, p) :: e in q && !p(e.value)
  {
    if q != [] {
      KeepIsSubsequence(q[1..], p);
      assert q == [q[0]] + q[1..];
      if !p(q[0].value) {
        var rest := Keep(q[1..], p);
        forall j | 0 <= j < |rest| ensures Less(q[0], rest[j]) {
          assert rest[j] in q[1..];
        }
      }
    }
  }

  lemma {:induction false} KeepConcat<T>(a: seq<Entry<T>>, b: seq<Entry<T>>, p: T -> bool)
    ensures Keep(a + b, p) == Keep(a, p) + Keep(b, p)
  {
    if a == [] {
      assert a + b == b;
    } else {
      assert (a + b)[1..] == a[1..] + b;
      KeepConcat(a[1..], b, p);
    }
  }

  lemma KeepHead<T>(e: Entry<T>, back: seq<Entry<T>>, p: T -> bool)
    ensures Keep([e] + back, p) == (if p(e.value) then [] else [e]) + Keep(back, p)
  {
    assert ([e] + back)[1..] == back;
  }

  /** Taking a piece out of a sequence takes its elements out. */
  lemma MultisetMiddle<T>(front: seq<T>, piece: seq<T>, back: seq<T>)
    ensures multiset(front + (piece + back)) == multiset(front + back) + multiset(piece)
  {
  }

  lemma KeepWithout<T>(q: seq<Entry<T>>, i: nat, p: T -> bool)
    requires i < |q|
    ensures multiset(Keep(q, p))
         == multiset(Keep(q[..i] + q[i + 1..], p)) + (if p(q[i].value) then multiset{} else multiset{q[i]})
  {
    var front, back := q[..i], q[i + 1..];
    var tail := [q[i]] + back;
    assert q == front + tail;
    KeepConcat(front, tail, p);
    KeepConcat(front, back, p);
    KeepHead(q[i], back, p);
    hide Keep;
    MultisetMiddle(Keep(front, p), if p(q[i].value) then [] else [q[i]], Keep(back, p));
  }

  /** Filtering keeps the same entries however they are arranged. */
  lemma {:induction false} KeepOfSameElements<T>(h: seq<Entry<T>>, q: seq<Entry<T>>, p: T -> bool)
    requires multiset(h) == multiset(q)
    ensures multiset(Keep(h, p)) == multiset(Keep(q, p))
  {
    hide Keep;
    SameSize(h, q);
    if h == [] {
      assert q == [];
    } else {
      assert h[0] in multiset(q);
      var i :| 0 <= i < |q| && q[i] == h[0];
      RemoveAt(h, 0);
      RemoveAt(q, i);
      KeepOfSameElements(h[..0] + h[1..], q[..i] + q[i + 1..], p);
      KeepWithout(h, 0, p);
      KeepWithout(q, i, p);
    }
  }

  /** The drain order after a removal is the drain order before it, minus the matching values. */
  lemma {:induction false} RemovalKeepsDrainOrder<T>(q: seq<Entry<T>>, p: T -> bool)
    ensures Values(Keep(q, p)) == Unmatched(Values(q), p)
  {
    if q != [] {
      RemovalKeepsDrainOrder(q[1..], p);
      assert Values(q)[1..] == Values(q[1..]);
    }
  }

  function Unmatched<T>(vs: seq<T>, p: T -> bool): seq<T> {
    if vs == [] then []
    else if p(vs[0]) then Unmatched(vs[1..], p)
    else [vs[0]] + Unmatched(vs[1..], p)
  }

  // ---------- heap shape ----------

  function Parent(j: nat): nat
    requires j > 0
  {
    (j - 1) / 2
  }

  /** Every node whose parent is at lo or beyond is at least its parent. */
  ghost predicate HeapFrom<T>(h: seq<Entry<T>>, lo: nat) {
    forall j | 0 < j < |h| && Parent(j) >= lo :: AtMost(h[Parent(j)], h[j])
  }

  lemma {:induction false} RootIsLeast<T>(h: seq<Entry<T>>, j: nat)
    requires HeapFrom(h, 0) && j < |h|
    ensures AtMost(h[0], h[j])
  {
    if j > 0 {
      RootIsLeast(h, Parent(j));
      assert AtMost(h[Parent(j)], h[j]);
    }
  }

  /** Below every node there is a leaf that is at least as large, so a maximum is found among the leaves. */
  lemma {:induction false} LeafBelow<T>(h: seq<Entry<T>>, j: nat) returns (leaf: nat)
    requires HeapFrom(h, 0) && j < |h|
    ensures |h| / 2 <= leaf < |h| && AtMost(h[j], h[leaf])
    decreases |h| - j
  {
    if j >= |h| / 2 {
      leaf := j;
    } else {
      var child := 2 * j + 1;
      assert Parent(child) == j && AtMost(h[j], h[child]);
      leaf := LeafBelow(h, child);
    }
  }

  function Swap<T>(h: seq<T>, i: nat, j: nat): seq<T>
    requires i < |h| && j < |h|
  {
    h[i := h[j]][j := h[i]]
  }

  /** The state of a sift up that has reached idx: only idx may be less than its parent. */
  ghost predicate Rising<T>(h: seq<Entry<T>>, idx: nat) {
    && idx < |h|
    && (forall j | 0 < j < |h| && j != idx :: AtMost(h[Parent(j)], h[j]))
    && (idx > 0 ==> forall j | 0 < j < |h| && Parent(j) == idx :: AtMost(h[Parent(idx)], h[j]))
  }

  lemma RiseOneLevel<T>(h: seq<Entry<T>>, idx: nat)
    requires Rising(h, idx) && idx > 0 && Less(h[idx], h[Parent(idx)])
    ensures Rising(Swap(h, idx, Parent(idx)), Parent(idx))
  {
    var p := Parent(idx);
    var h' := Swap(h, idx, p);
    forall j | 0 < j < |h| && j != p
      ensures AtMost(h'[Parent(j)], h'[j])
    {
      if j == idx {
      } else if Parent(j) == idx {
        assert AtMost(h[p], h[j]);
      } else {
        assert AtMost(h[Parent(j)], h[j]);
      }
    }
    if p > 0 {
      forall j | 0 < j < |h| && Parent(j) == p
        ensures AtMost(h'[Parent(p)], h'[j])
      {
        assert AtMost(h[Parent(p)], h[p]);
        assert j != idx ==> AtMost(h[p], h[j]);
      }
    }
  }

  /** The state of a sift down from start that has reached idx: only idx may exceed its children. */
  ghost predicate Sinking<T>(h: seq<Entry<T>>, start: nat, idx: nat) {
    && start <= idx
    && (forall j | 0 < j < |h| && Parent(j) >= start && Parent(j) != idx :: AtMost(h[Parent(j)], h[j]))
    && (idx > start ==> Parent(idx) >= start)
    && (idx > start && idx < |h| ==> forall j | 0 < j < |h| && Parent(j) == idx :: AtMost(h[Parent(idx)], h[j]))
  }

  predicate ChildrenAtLeast<T>(h: seq<Entry<T>>, idx: nat, e: Entry<T>) {
    && (2 * idx + 1 < |h| ==> AtMost(e, h[2 * idx + 1]))
    && (2 * idx + 2 < |h| ==> AtMost(e, h[2 * idx + 2]))
  }

  lemma SankToRest<T>(h: seq<Entry<T>>, start: nat, idx: nat)
    requires Sinking(h, start, idx) && (idx < |h| ==> ChildrenAtLeast(h, idx, h[idx]))
    ensures HeapFrom(h, start)
  {
    forall j | 0 < j < |h| && Parent(j) >= start ensures AtMost(h[Parent(j)], h[j]) {
      if Parent(j) == idx { assert j == 2 * idx + 1 || j == 2 * idx + 2; }
    }
  }

  lemma SinkOneLevel<T>(h: seq<Entry<T>>, start: nat, idx: nat, child: nat)
    requires Sinking(h, start, idx) && child < |h| && (child == 2 * idx + 1 || child == 2 * idx + 2)
    requires Less(h[child], h[idx]) && ChildrenAtLeast(h, idx, h[child])
    ensures Sinking(Swap(h, idx, child), start, child)
  {
    var h' := Swap(h, idx, child);
    forall j | 0 < j < |h| && Parent(j) >= start && Parent(j) != child
      ensures AtMost(h'[Parent(j)], h'[j])
    {
      if Parent(j) == idx {
        assert j == 2 * idx + 1 || j == 2 * idx + 2;
      } else if j == idx {
        assert AtMost(h[Parent(idx)], h[child]);
      } else {
        assert AtMost(h[Parent(j)], h[j]);
      }
    }
    forall j | 0 < j < |h| && Parent(j) == child
      ensures AtMost(h'[idx], h'[j])
    {
      assert AtMost(h[child], h[j]);
    }
  }

  lemma SwapKeepsElements<T>(h: seq<T>, i: nat, j: nat)
    requires i < |h| && j < |h|
    ensures multiset(Swap(h, i, j)) == multiset(h)
  {
  }

  /** The first entry of the list is the least element of the heap. */
  lemma HeadIsRoot<T>(h: seq<Entry<T>>, q: seq<Entry<T>>)
    requires h != [] && HeapFrom(h, 0) && Ordered(q) && multiset(h) == multiset(q)
    ensures q != [] && q[0] == h[0]
  {
    assert h[0] in multiset(q);
    var i :| 0 <= i < |q| && q[i] == h[0];
    assert q[0] in multiset(h);
    var j :| 0 <= j < |h| && h[j] == q[0];
    RootIsLeast(h, j);
    if i > 0 { assert Less(q[0], q[i]); }
  }

  /** The last entry of the list is the greatest element of the heap. */
  lemma LastIsMax<T>(h: seq<Entry<T>>, q: seq<Entry<T>>, m: nat)
    requires m < |h| && Ordered(q) && multiset(h) == multiset(q)
    requires forall j | 0 <= j < |h| :: AtMost(h[j], h[m])
    ensures q != [] && q[|q| - 1] == h[m]
  {
    assert h[m] in multiset(q);
    var i :| 0 <= i < |q| && q[i] == h[m];
    var n := |q| - 1;
    assert q[n] in multiset(h);
    var j :| 0 <= j < |h| && h[j] == q[n];
    if i < n { assert false; }
  }

  lemma RemoveAt<T>(h: seq<T>, i: nat)
    requires i < |h|
    ensures multiset(h[..i] + h[i + 1..]) == multiset(h) - multiset{h[i]}
  {
    assert h == h[..i] + [h[i]] + h[i + 1..];
  }

  /** The heap stands for the list. */
  ghost predicate Standing<T>(h: seq<Entry<T>>, q: seq<Entry<T>>) {
    HeapFrom(h, 0) && Ordered(q) && multiset(h) == multiset(q)
  }

  lemma StandingSize<T>(h: seq<Entry<T>>, q: seq<Entry<T>>)
    requires Standing(h, q)
    ensures |h| == |q|
  {
    SameSize(h, q);
  }

  lemma HeadStands<T>(h: seq<Entry<T>>, q: seq<Entry<T>>)
    requires Standing(h, q) && h != []
    ensures q != [] && q[0] == h[0] && (|h| == 1 ==> Standing([], q[1..]))
  {
    HeadIsRoot(h, q);
    SameSize(h, q);
  }

  lemma Restood<T>(h: seq<Entry<T>>, q: seq<Entry<T>>)
    requires HeapFrom(h, 0) && Ordered(q) && multiset(h) == multiset(q)
    ensures Standing(h, q)
  {
  }

  lemma SameSize<T>(h: seq<T>, q: seq<T>)
    requires multiset(h) == multiset(q)
    ensures |h| == |q|
  {
    assert |h| == |multiset(h)| == |multiset(q)| == |q|;
  }

  lemma InsertedFrom<T>(h: seq<Entry<T>>, q: seq<Entry<T>>, e: Entry<T>, bound: nat)
    requires Standing(h, q) && (forall i | 0 <= i < |q| :: q[i].insertSeq < e.insertSeq) && e.insertSeq < bound
    ensures forall i | 0 <= i < |Insert(q, e)| :: Insert(q, e)[i].insertSeq < bound
  {
    InsertKeepsOrder(q, e);
    var q' := Insert(q, e);
    forall i | 0 <= i < |q'| ensures q'[i].insertSeq < bound {
      assert q'[i] in multiset(q) + multiset{e};
      if q'[i] != e { assert q'[i] in q; }
    }
  }

  lemma LastOverRoot<T>(h: seq<T>)
    requires |h| >= 2
    ensures multiset([h[|h| - 1]] + h[1..|h| - 1]) == multiset(h) - multiset{h[0]}
  {
    var n := |h| - 1;
    assert h == [h[0]] + h[1..n] + [h[n]];
  }

  lemma LastOverRootShape<T>(h: seq<Entry<T>>)
    requires |h| >= 2 && HeapFrom(h, 0)
    ensures HeapFrom([h[|h| - 1]] + h[1..|h| - 1], 1)
  {
    var h' := [h[|h| - 1]] + h[1..|h| - 1];
    forall j | 0 < j < |h'| && Parent(j) >= 1 ensures AtMost(h'[Parent(j)], h'[j]) {
      assert h'[j] == h[j] && h'[Parent(j)] == h[Parent(j)];
    }
  }

  /** Taking the last slot to the root removes the head and breaks the heap at the root only. */
  lemma MoveLastToRoot<T>(h: seq<Entry<T>>, q: seq<Entry<T>>)
    requires Standing(h, q) && |h| >= 2
    ensures q != [] && Ordered(q[1..]) && multiset([h[|h| - 1]] + h[1..|h| - 1]) == multiset(q[1..])
    ensures HeapFrom([h[|h| - 1]] + h[1..|h| - 1], 1)
  {
    HeadIsRoot(h, q);
    LastOverRoot(h);
    LastOverRootShape(h);
    RemoveAt(q, 0);
    assert q[..0] + q[1..] == q[1..];
  }

  lemma DropLast<T>(q: seq<Entry<T>>)
    requires q != [] && Ordered(q)
    ensures Ordered(q[..|q| - 1]) && multiset(q[..|q| - 1]) == multiset(q) - multiset{q[|q| - 1]}
  {
    assert q == q[..|q| - 1] + [q[|q| - 1]];
  }

  ghost predicate IsWorst<T>(h: seq<Entry<T>>, m: nat) {
    m < |h| && forall j | 0 <= j < |h| :: AtMost(h[j], h[m])
  }

  lemma WorstIsLast<T>(h: seq<Entry<T>>, q: seq<Entry<T>>, m: nat)
    requires IsWorst(h, m) && Standing(h, q)
    ensures q != [] && h[m] == q[|q| - 1]
    ensures Ordered(q[..|q| - 1]) && multiset(h[..m] + h[m + 1..]) == multiset(q[..|q| - 1])
  {
    hide Ordered;
    hide AtMost;
    LastIsMax(h, q, m);
    RemoveAt(h, m);
    DropLast(q);
  }

  // ---------- the queue ----------

  /** TypeError when the worst of an empty queue is compared, which a maximum below 1 causes. */
  datatype Reply<T> = TypeError | Done(evicted: Option<Entry<T>>)

  class Queue<T> {
    var heap: seq<Entry<T>>
    var maxSize: Option<int>
    var nextSeq: nat
    ghost var list: seq<Entry<T>>

    /** The heap holds the list's entries; None stands for an unbounded queue. */
    ghost predicate Valid()
      reads this
    {
      && Standing(heap, list)
      && (forall i | 0 <= i < |list| :: list[i].insertSeq < nextSeq)
      && (maxSize.Some? ==> |list| <= Max(0, maxSize.value))
    }

    constructor (maxSize: Option<int>)
      ensures Valid() && list == [] && this.maxSize == maxSize && nextSeq == 0
    {
      heap, nextSeq, list := [], 0, [];
      this.maxSize := maxSize;
    }

    method SiftUp(start: nat)
      requires Rising(heap, start)
      modifies this`heap
      ensures HeapFrom(heap, 0) && |heap| == |old(heap)| && multiset(heap) == multiset(old(heap))
    {
      var idx := start;
      while idx > 0
        invariant Rising(heap, idx) && |heap| == |old(heap)| && multiset(heap) == multiset(old(heap))
      {
        var parent := Parent(idx);
        if !Less(heap[idx], heap[parent]) { return; }
        RiseOneLevel(heap, idx);
        SwapKeepsElements(heap, idx, parent);
        heap := Swap(heap, idx, parent);
        idx := parent;
      }
    }

    method SiftDown(start: nat)
      requires HeapFrom(heap, start + 1)
      modifies this`heap
      ensures HeapFrom(heap, start) && |heap| == |old(heap)| && multiset(heap) == multiset(old(heap))
    {
      var n := |heap|;
      var idx := start;
      while true
        invariant |heap| == n && multiset(heap) == multiset(old(heap))
        invariant Sinking(heap, start, idx)
        decreases n - idx
      {
        var smallest := idx;
        var left, right := 2 * idx + 1, 2 * idx + 2;
        if left < n && Less(heap[left], heap[smallest]) { smallest := left; }
        if right < n && Less(heap[right], heap[smallest]) { smallest := right; }
        if smallest == idx {
          SankToRest(heap, start, idx);
          return;
        }
        SinkOneLevel(heap, start, idx, smallest);
        SwapKeepsElements(heap, idx, smallest);
        heap := Swap(heap, idx, smallest);
        idx := smallest;
      }
    }

    method BuildHeap()
      modifies this`heap
      ensures HeapFrom(heap, 0) && |heap| == |old(heap)| && multiset(heap) == multiset(old(heap))
    {
      var i := |heap| / 2;
      while i > 0
        invariant 0 <= i <= |heap| / 2 && |heap| == |old(heap)| && multiset(heap) == multiset(old(heap))
        invariant HeapFrom(heap, i)
      {
        i := i - 1;
        SiftDown(i);
      }
    }

    /** Scans the second half of the heap only. */
    method FindMaxIndex() returns (maxIdx: nat)
      requires heap != [] && Standing(heap, list)
      ensures IsWorst(heap, maxIdx)
    {
      var start := |heap| / 2;
      maxIdx := start;
      var i := start + 1;
      while i < |heap|
        invariant start <= maxIdx < |heap| && start + 1 <= i <= |heap|
        invariant forall j | start <= j < i :: AtMost(heap[j], heap[maxIdx])
      {
        if Less(heap[maxIdx], heap[i]) { maxIdx := i; }
        i := i + 1;
      }
      forall j | 0 <= j < |heap| ensures AtMost(heap[j], heap[maxIdx]) {
        var leaf := LeafBelow(heap, j);
        assert AtMost(heap[leaf], heap[maxIdx]);
      }
    }

    /** The tail of enqueue: push and sift up. */
    method Push(entry: Entry<T>)
      requires Standing(heap, list) && forall i | 0 <= i < |list| :: list[i].insertSeq < entry.insertSeq
      modifies this`heap, this`list
      ensures Standing(heap, list) && list == Insert(old(list), entry)
    {
      InsertKeepsOrder(list, entry);
      ghost var before := heap;
      heap := heap + [entry];
      forall j | 0 < j < |heap| && j != |heap| - 1 ensures AtMost(heap[Parent(j)], heap[j]) {
        assert heap[j] == before[j] && heap[Parent(j)] == before[Parent(j)];
      }
      SiftUp(|heap| - 1);
      list := Insert(list, entry);
    }

    /** Splice out the worst entry and rebuild. */
    method Evict(worstIdx: nat)
      requires Standing(heap, list) && IsWorst(heap, worstIdx)
      modifies this`heap, this`list
      ensures Standing(heap, list) && |old(list)| > 0 && list == old(list)[..|old(list)| - 1]
    {
      WorstIsLast(heap, list, worstIdx);
      heap := heap[..worstIdx] + heap[worstIdx + 1..];
      BuildHeap();
      list := list[..|list| - 1];
    }

    method Enqueue(value: T, priority: real) returns (r: Reply<T>)
      requires Valid()
      modifies this
      ensures Valid() && maxSize == old(maxSize) && nextSeq == old(nextSeq) + 1
      ensures var e := Entry(priority, value, old(nextSeq));
        if maxSize.Some? && maxSize.value < 1 then r == TypeError && list == old(list)
        else
          && list == Offer(old(list), maxSize, e)
          && r == Done(if maxSize.Some? && |old(list)| >= maxSize.value && Less(e, old(list)[|old(list)| - 1])
                       then Some(old(list)[|old(list)| - 1]) else None)
    {
      hide Standing;
      hide HeapFrom;
      hide Rising;
      hide IsWorst;
      hide Insert;
      hide Ordered;
      hide Less;
      var entry := Entry(priority, value, nextSeq);
      nextSeq := nextSeq + 1;
      var evicted := None;
      StandingSize(heap, list);
      if maxSize.Some? && |heap| >= maxSize.value {
        if heap == [] { return TypeError; }
        var worstIdx := FindMaxIndex();
        var worst := heap[worstIdx];
        WorstIsLast(heap, list, worstIdx);
        if !Less(entry, worst) { return Done(None); }
        evicted := Some(worst);
        Evict(worstIdx);
      }
      InsertLength(list, entry);
      InsertedFrom(heap, list, entry, nextSeq);
      Push(entry);
      return Done(evicted);
    }

    method Dequeue() returns (value: Option<T>)
      requires Valid()
      modifies this
      ensures Valid() && maxSize == old(maxSize) && nextSeq == old(nextSeq)
      ensures old(list) == [] ==> value.None? && list == []
      ensures old(list) != [] ==> value == Some(old(list)[0].value) && list == old(list)[1..]
    {
      hide Standing;
      hide Ordered;
      StandingSize(heap, list);
      if |heap| == 0 { return None; }
      HeadStands(heap, list);
      if |heap| == 1 {
        value := Some(heap[0].value);
        heap, list := [], list[1..];
        return;
      }
      var min := heap[0];
      var last := |heap| - 1;
      MoveLastToRoot(heap, list);
      heap := [heap[last]] + heap[1..last];
      list := list[1..];
      SiftDown(0);
      Restood(heap, list);
      return Some(min.value);
    }

    /** Empties the queue in order of priority, then arrival. */
    method Drain() returns (result: seq<T>)
      requires Valid()
      modifies this
      ensures Valid() && list == [] && maxSize == old(maxSize) && nextSeq == old(nextSeq)
      ensures result == Values(old(list))
    {
      result := [];
      hide Standing;
      StandingSize(heap, list);
      while |heap| != 0
        invariant Valid() && maxSize == old(maxSize) && nextSeq == old(nextSeq)
        invariant |heap| == |list| && Values(old(list)) == result + Values(list)
        decreases |list|
      {
        var value := Dequeue();
        result := result + [value.value];
        StandingSize(heap, list);
      }
    }

    method RemoveWhere(p: T -> bool) returns (removed: nat)
      requires Valid()
      modifies this
      ensures Valid() && maxSize == old(maxSize) && nextSeq == old(nextSeq)
      ensures list == Keep(old(list), p) && removed == |old(list)| - |list|
    {
      SameSize(heap, list);
      var size := |heap|;
      KeepOfSameElements(heap, list, p);
      KeepIsSubsequence(list, p);
      KeepShrinks(list, p);
      heap, list := Keep(heap, p), Keep(list, p);
      forall i | 0 <= i < |list| ensures list[i].insertSeq < nextSeq {
        assert list[i] in old(list);
      }
      SameSize(heap, list);
      BuildHeap();
      removed := size - |heap|;
    }
  }

  lemma {:induction false} KeepShrinks<T>(q: seq<Entry<T>>, p: T -> bool)
    ensures |Keep(q, p)| <= |q|
  {
    if q != [] { KeepShrinks(q[1..], p); }
  }
}
