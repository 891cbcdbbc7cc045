/**
 * The replacement policy of LRU/src/LRU.c on plain sequences: `Touch` is what
 * one call of use_page does to the resident list (most recent first), `Run`
 * is a whole trace of calls.  PageStack.dfy proves that the linked list
 * follows `Touch`; here the policy itself is studied.
 */
module LruPolicy {
  import opened Sets

  // ---------------------------------------------------------------------
  // The policy
  // ---------------------------------------------------------------------

  ghost predicate NoDup<T>(s: seq<T>) {
    forall i, j :: 0 <= i < j < |s| ==> s[i] != s[j]
  }

  /** The list without (the first occurrence of) p: what delnode leaves. */
  function Drop<T(==)>(r: seq<T>, p: T): seq<T> {
    if r == [] then [] else if r[0] == p then r[1..] else [r[0]] + Drop(r[1..], p)
  }

  /** One use_page call on the resident list of a memory of k >= 1 frames. */
  function Touch(k: int, r: seq<int>, p: int): seq<int>
    requires k >= 1
  {
    if p in r then [p] + Drop(r, p)             // settop
    else if |r| < k then [p] + r                // push
    else [p] + r[..|r| - 1]                     // swap_page
  }

  /** The resident list after a trace, starting from an empty memory. */
  function Run(k: int, tr: seq<int>): seq<int>
    requires k >= 1
  {
    if tr == [] then [] else Touch(k, Run(k, tr[..|tr| - 1]), tr[|tr| - 1])
  }

  /** How many calls of the trace find their page outside memory. */
  function Faults(k: int, tr: seq<int>): nat
    requires k >= 1
  {
    if tr == [] then 0
    else
      var before := tr[..|tr| - 1];
      Faults(k, before) + if tr[|tr| - 1] in Run(k, before) then 0 else 1
  }

  lemma RunSnoc(k: int, tr: seq<int>, p: int)
    requires k >= 1
    ensures Run(k, tr + [p]) == Touch(k, Run(k, tr), p)
    ensures Faults(k, tr + [p]) == Faults(k, tr) + if p in Run(k, tr) then 0 else 1
  {
    assert (tr + [p])[..|tr|] == tr;
  }

  // ---------------------------------------------------------------------
  // Drop
  // ---------------------------------------------------------------------

  /** Position of p in r. */
  function Find<T(==)>(r: seq<T>, p: T): (i: nat)
    requires p in r
    ensures i < |r| && r[i] == p && p !in r[..i]
  {
    if r[0] == p then 0 else 1 + Find(r[1..], p)
  }

  lemma {:induction false} DropIsCut<T>(r: seq<T>, p: T)
    requires p in r
    ensures Drop(r, p) == r[..Find(r, p)] + r[Find(r, p) + 1..]
  {
    if r[0] != p {
      DropIsCut(r[1..], p);
    }
  }

  lemma DropNoDup<T>(r: seq<T>, p: T)
    requires NoDup(r) && p in r
    ensures NoDup(Drop(r, p)) && |Drop(r, p)| == |r| - 1
    ensures forall i :: 0 <= i < |Drop(r, p)| ==> Drop(r, p)[i] in r && Drop(r, p)[i] != p
    ensures forall i :: 0 <= i < |r| && r[i] != p ==> r[i] in Drop(r, p)
  {
    DropIsCut(r, p);
    var i := Find(r, p);
    var x := Drop(r, p);
    forall j | 0 <= j < |r| && j != i ensures r[j] in x {
      assert r[j] == x[if j < i then j else j - 1];
    }
  }

  /** In a duplicate-free list, cutting at any index holding p is Drop. */
  lemma {:induction false} CutIsDrop<T>(r: seq<T>, i: nat)
    requires NoDup(r) && i < |r|
    ensures Drop(r, r[i]) == r[..i] + r[i + 1..]
  {
    DropIsCut(r, r[i]);
    assert Find(r, r[i]) == i;
  }

  // ---------------------------------------------------------------------
  // History: the resident list is the k most recently used pages
  // ---------------------------------------------------------------------

  /** Index of the last use of p in the trace, or -1 if p was never used. */
  function LastUse(tr: seq<int>, p: int): (i: int)
    ensures -1 <= i < |tr|
    ensures i >= 0 ==> tr[i] == p
    ensures forall j :: i < j < |tr| ==> tr[j] != p
  {
    if tr == [] then -1
    else if tr[|tr| - 1] == p then |tr| - 1
    else LastUse(tr[..|tr| - 1], p)
  }

  ghost function Pages(tr: seq<int>): set<int> {
    set p | p in tr
  }

  function Min(a: int, b: int): int {
    if a < b then a else b
  }

  /** The recency of every page, as a function; -1 for a page never used. */
  ghost function Recency(tr: seq<int>): int -> int {
    p => LastUse(tr, p)
  }

  /** r lists used pages by strictly decreasing recency. */
  ghost predicate Ordered(use: int -> int, r: seq<int>) {
    && (forall i :: 0 <= i < |r| ==> use(r[i]) >= 0)
    && (forall i, j :: 0 <= i < j < |r| ==> use(r[i]) > use(r[j]))
  }

  /** q is less recent than everything in r. */
  ghost predicate Behind(use: int -> int, r: seq<int>, q: int) {
    forall i :: 0 <= i < |r| ==> use(q) < use(r[i])
  }

  /** r is ordered and every page left out of it is less recent. */
  ghost predicate MostRecent(use: int -> int, r: seq<int>) {
    Ordered(use, r) && forall q :: q !in r ==> Behind(use, r, q)
  }

  /** r is the list of the min(k, distinct pages) most recently used pages. */
  ghost predicate TopK(k: int, tr: seq<int>, r: seq<int>) {
    MostRecent(Recency(tr), r) && |r| == Min(k, |Pages(tr)|)
  }

  lemma LastUseSnoc(tr: seq<int>, p: int, q: int)
    ensures LastUse(tr + [p], q) == if q == p then |tr| else LastUse(tr, q)
  {
    assert (tr + [p])[..|tr|] == tr;
  }

  /** Using p now makes it the most recent page and changes no other recency. */
  ghost predicate UsedNow(use: int -> int, now: int, p: int, use': int -> int) {
    && (forall q :: use(q) < now)
    && now >= 0
    && (forall q :: use'(q) == if q == p then now else use(q))
  }

  lemma RecencySnoc(tr: seq<int>, p: int)
    ensures UsedNow(Recency(tr), |tr|, p, Recency(tr + [p]))
  {
    forall q ensures Recency(tr + [p])(q) == if q == p then |tr| else Recency(tr)(q) {
      LastUseSnoc(tr, p, q);
    }
  }

  lemma MostRecentSnoc(use: int -> int, now: int, x: seq<int>, p: int, use': int -> int)
    requires Ordered(use, x) && p !in x && UsedNow(use, now, p, use')
    requires forall q :: q !in x && q != p ==> Behind(use, x, q)
    ensures MostRecent(use', [p] + x)
  {
    var r := [p] + x;
    assert forall i :: 0 <= i < |x| ==> x[i] in x;
    assert forall i :: 0 < i < |r| ==> r[i] == x[i - 1];
    forall q | q !in r ensures Behind(use', r, q) {
      assert q !in x && q != r[0];
      assert Behind(use, x, q);
    }
  }

  /** Cutting p itself, or the last page, out of a most-recent list. */
  lemma CutMostRecent(use: int -> int, r: seq<int>, p: int, i: nat, x: seq<int>)
    requires MostRecent(use, r) && i < |r| && x == r[..i] + r[i + 1..]
    requires r[i] == p || (i == |r| - 1 && p !in r)
    ensures Ordered(use, x) && p !in x
    ensures forall q :: q !in x && q != p ==> Behind(use, x, q)
  {
    assert forall j :: 0 <= j < |x| ==> x[j] == r[if j < i then j else j + 1];
    forall m | 0 <= m < |r| && m != i ensures r[m] in x {
      assert r[m] == x[if m < i then m else m - 1];
    }
    forall q | q !in x && q != p ensures Behind(use, x, q) {
      if q in r {
        assert q == r[i];
      } else {
        assert Behind(use, r, q);
      }
    }
  }

  lemma {:induction false} DistinctCount(r: seq<int>)
    requires NoDup(r)
    ensures |Pages(r)| == |r|
  {
    if r == [] {
      assert Pages(r) == {};
    } else {
      DistinctCount(r[1..]);
      assert Pages(r) == {r[0]} + Pages(r[1..]);
    }
  }

  lemma UsedOnce(tr: seq<int>, r: seq<int>)
    requires MostRecent(Recency(tr), r)
    ensures NoDup(r) && Pages(r) <= Pages(tr) && |Pages(r)| == |r|
  {
    DistinctCount(r);
    forall q | q in r ensures q in tr {
      assert Recency(tr)(q) >= 0;
      assert tr[LastUse(tr, q)] == q;
    }
  }

  /** A top-k list shorter than k holds every page used so far. */
  lemma AllOrFull(k: int, tr: seq<int>, r: seq<int>)
    requires TopK(k, tr, r)
    ensures |r| < k ==> Pages(r) == Pages(tr)
  {
    UsedOnce(tr, r);
    if |r| < k {
      SubsetEqual(Pages(r), Pages(tr));
    }
  }

  lemma {:induction false} RunIsTopK(k: int, tr: seq<int>)
    requires k >= 1
    ensures TopK(k, tr, Run(k, tr))
  {
    if tr == [] {
      assert Pages(tr) == {};
    } else {
      var before, p := tr[..|tr| - 1], tr[|tr| - 1];
      var r := Run(k, before);
      assert tr == before + [p];
      RunIsTopK(k, before);
      UsedOnce(before, r);
      AllOrFull(k, before, r);
      RecencySnoc(before, p);
      TouchMostRecent(k, Recency(before), |before|, r, p, Recency(tr), Pages(before));
      assert Pages(tr) == Pages(before) + {p};
    }
  }

  lemma TouchMostRecent(k: int, use: int -> int, now: int, r: seq<int>, p: int, use': int -> int, used: set<int>)
    requires k >= 1 && MostRecent(use, r) && UsedNow(use, now, p, use')
    requires NoDup(r) && |Pages(r)| == |r| && Pages(r) <= used
    requires |r| == Min(k, |used|) && (|r| < k ==> Pages(r) == used)
    ensures MostRecent(use', Touch(k, r, p))
    ensures |Touch(k, r, p)| == Min(k, |used + {p}|)
  {
    TouchSize(k, r, p, used);
    if p in r {
      TouchHit(k, use, now, r, p, use');
    } else if |r| < k {
      MostRecentSnoc(use, now, r, p, use');
    } else {
      TouchSwap(k, use, now, r, p, use');
    }
  }

  lemma TouchSize(k: int, r: seq<int>, p: int, used: set<int>)
    requires k >= 1 && Pages(r) <= used
    requires |r| == Min(k, |used|) && (|r| < k ==> Pages(r) == used)
    ensures |Touch(k, r, p)| == Min(k, |used + {p}|)
  {
    if p in r {
      DropIsCut(r, p);
      assert p in Pages(r) && used + {p} == used;
    } else if |r| < k {
      assert p !in Pages(r);
    } else {
      SubsetSize(used, used + {p});
    }
  }

  lemma TouchHit(k: int, use: int -> int, now: int, r: seq<int>, p: int, use': int -> int)
    requires k >= 1 && MostRecent(use, r) && UsedNow(use, now, p, use') && p in r
    ensures MostRecent(use', Touch(k, r, p)) && |Touch(k, r, p)| == |r|
  {
    DropIsCut(r, p);
    CutMostRecent(use, r, p, Find(r, p), Drop(r, p));
    MostRecentSnoc(use, now, Drop(r, p), p, use');
  }

  lemma TouchSwap(k: int, use: int -> int, now: int, r: seq<int>, p: int, use': int -> int)
    requires k >= 1 && MostRecent(use, r) && UsedNow(use, now, p, use') && p !in r && |r| == k
    ensures MostRecent(use', Touch(k, r, p)) && |Touch(k, r, p)| == k
  {
    var n := k - 1;
    assert r[..n] == r[..n] + r[n + 1..];
    CutMostRecent(use, r, p, n, r[..n]);
    MostRecentSnoc(use, now, r[..n], p, use');
  }

  /** History refinement: the resident list after a trace is the list of the
      most recently used pages, and nothing else meets that description. */
  lemma HistoryRefinement(k: int, tr: seq<int>, r: seq<int>)
    requires k >= 1
    ensures r == Run(k, tr) <==> TopK(k, tr, r)
  {
    RunIsTopK(k, tr);
    if TopK(k, tr, r) {
      SameList(Recency(tr), r, Run(k, tr));
    }
  }

  lemma SameList(use: int -> int, r: seq<int>, s: seq<int>)
    requires MostRecent(use, r) && MostRecent(use, s) && |r| == |s|
    ensures r == s
  {
    SamePrefix(use, r, s, |r|);
    assert r[..|r|] == r && s[..|s|] == s;
  }

  lemma {:induction false} SamePrefix(use: int -> int, r: seq<int>, s: seq<int>, n: nat)
    requires MostRecent(use, r) && MostRecent(use, s) && n <= |r| && n <= |s|
    ensures r[..n] == s[..n]
  {
    if n > 0 {
      SamePrefix(use, r, s, n - 1);
      if r[n - 1] != s[n - 1] {
        Ahead(use, r, s, n - 1);
        Ahead(use, s, r, n - 1);
      }
      assert r[..n] == r[..n - 1] + [r[n - 1]] && s[..n] == s[..n - 1] + [s[n - 1]];
    }
  }

  /** Where two most-recent lists first differ, each entry would have to be
      more recent than the other. */
  lemma Ahead(use: int -> int, r: seq<int>, s: seq<int>, n: nat)
    requires MostRecent(use, r) && MostRecent(use, s) && n < |r| && n < |s|
    requires r[..n] == s[..n] && r[n] != s[n]
    ensures use(r[n]) > use(s[n])
  {
    forall j | 0 <= j < n ensures r[j] == s[j] {
      assert r[..n][j] == s[..n][j];
    }
    if s[n] in r {
      var j :| 0 <= j < |r| && r[j] == s[n];
      assert use(r[n]) > use(r[j]);
    } else {
      assert Behind(use, r, s[n]);
    }
  }

  /** The victim of a swap is the least recently used resident page, and it
      is the only page to leave. */
  lemma VictimIsLeastRecent(k: int, tr: seq<int>, p: int)
    requires k >= 1 && p !in Run(k, tr) && |Run(k, tr)| >= k
    ensures var r := Run(k, tr);
            var v := r[|r| - 1];
            && (forall q :: q in r && q != v ==> LastUse(tr, v) < LastUse(tr, q))
            && Pages(Run(k, tr + [p])) == Pages(r) - {v} + {p}
  {
    var r := Run(k, tr);
    RunIsTopK(k, tr);
    RunSnoc(k, tr, p);
    UsedOnce(tr, r);
    SwapPages(r, p);
    LastIsLeast(Recency(tr), r);
  }

  lemma SwapPages(r: seq<int>, p: int)
    requires NoDup(r) && r != []
    ensures Pages([p] + r[..|r| - 1]) == Pages(r) - {r[|r| - 1]} + {p}
  {
    assert r == r[..|r| - 1] + [r[|r| - 1]];
  }

  lemma LastIsLeast(use: int -> int, r: seq<int>)
    requires MostRecent(use, r) && r != []
    ensures forall q :: q in r && q != r[|r| - 1] ==> use(r[|r| - 1]) < use(q)
  {
  }

  // ---------------------------------------------------------------------
  // Inclusion: more frames never hurt
  // ---------------------------------------------------------------------

  /** Stack inclusion: at every point of every trace the list of the smaller
      memory is a prefix of the list of the larger one. */
  lemma Inclusion(k: int, k': int, tr: seq<int>)
    requires 1 <= k <= k'
    ensures Run(k, tr) <= Run(k', tr)
  {
    RunIsTopK(k, tr);
    RunIsTopK(k', tr);
    SamePrefix(Recency(tr), Run(k, tr), Run(k', tr), |Run(k, tr)|);
  }

  /** No Belady anomaly. */
  lemma {:induction false} NoBeladyAnomaly(k: int, k': int, tr: seq<int>)
    requires 1 <= k <= k'
    ensures Faults(k', tr) <= Faults(k, tr)
  {
    if tr != [] {
      var before := tr[..|tr| - 1];
      NoBeladyAnomaly(k, k', before);
      Inclusion(k, k', before);
    }
  }

  // ---------------------------------------------------------------------
  // Segments: more than k faults need more than k distinct pages
  // ---------------------------------------------------------------------

  lemma {:induction false} SegmentFaults(k: int, a: seq<int>, b: seq<int>)
    requires k >= 1 && |Pages(b)| <= k
    ensures Faults(k, a + b) - Faults(k, a) <= |Pages(b)|
  {
    if b == [] {
      assert a + b == a;
    } else {
      var c, p := b[..|b| - 1], b[|b| - 1];
      assert b == c + [p] && a + b == (a + c) + [p];
      assert Pages(b) == Pages(c) + {p};
      SubsetSize(Pages(c), Pages(b));
      SegmentFaults(k, a, c);
      RunSnoc(k, a + c, p);
      if p in Pages(c) {
        RecentStaysResident(k, a, c, p);
        assert Pages(b) == Pages(c);
      }
    }
  }

  /** A page of the latest segment is resident if the segment has at most k pages. */
  lemma RecentStaysResident(k: int, a: seq<int>, c: seq<int>, p: int)
    requires k >= 1 && p in c && |Pages(c)| <= k
    ensures p in Run(k, a + c)
  {
    var tr := a + c;
    var r := Run(k, tr);
    RunIsTopK(k, tr);
    AllOrFull(k, tr, r);
    if p !in r {
      var i :| 0 <= i < |c| && c[i] == p;
      assert tr[|a| + i] == p;
      assert p in Pages(tr);
      forall q | q in r ensures q in c {
        assert Recency(tr)(q) > Recency(tr)(p) >= |a|;
        assert tr[LastUse(tr, q)] == c[LastUse(tr, q) - |a|];
      }
      UsedOnce(tr, r);
      SubsetSize(Pages(r) + {p}, Pages(c));
    }
  }

  /** A segment with more than k faults touches at least k + 1 distinct pages. */
  lemma ManyFaultsManyPages(k: int, a: seq<int>, b: seq<int>)
    requires k >= 1 && Faults(k, a + b) - Faults(k, a) > k
    ensures |Pages(b)| >= k + 1
  {
    if |Pages(b)| <= k {
      SegmentFaults(k, a, b);
    }
  }
}
