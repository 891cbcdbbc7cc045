/**
 * The competitive bound of LRU replacement, with resource augmentation: a
 * k-frame LRU memory against any replacement policy using h <= k frames.
 *
 * The proof is by a potential on the LRU list: the page at position i weighs
 * k - i, and the pages the other policy does not hold are summed.
 */
module LruCompetitive {
  import opened Sets
  import opened LruPolicy

  /** The memory contents of some policy with h frames while it serves a trace
      from an empty memory: the requested page is in memory after its request.
      The policy may load and discard any pages at any moment. */
  ghost predicate Serves(h: nat, tr: seq<int>, mem: seq<set<int>>) {
    && |mem| == |tr| + 1
    && mem[0] == {}
    && forall i :: 0 <= i < |tr| ==> Move(h, tr[i], mem[i], mem[i + 1])
  }

  /** Serving p takes the memory from m to m'. */
  ghost predicate Move(h: nat, p: int, m: set<int>, m': set<int>) {
    p in m' && |m'| <= h
  }

  /** How many pages that policy loads. */
  ghost function Loads(mem: seq<set<int>>): nat {
    if |mem| <= 1 then 0
    else
      var n := |mem| - 1;
      Loads(mem[..n]) + |mem[n] - mem[n - 1]|
  }

  /** The policy loads nothing but requested pages. */
  ghost predicate OnDemand(tr: seq<int>, mem: seq<set<int>>)
    requires |mem| == |tr| + 1
  {
    forall i :: 0 <= i < |tr| ==> mem[i + 1] <= mem[i] + {tr[i]}
  }

  /** How many requests it faults on. */
  ghost function Misses(tr: seq<int>, mem: seq<set<int>>): nat
    requires |mem| == |tr| + 1
  {
    if tr == [] then 0
    else
      var n := |tr| - 1;
      Misses(tr[..n], mem[..n + 1]) + if tr[n] in mem[n] then 0 else 1
  }

  /** On demand, loads are faults. */
  lemma {:induction false} DemandLoads(h: nat, tr: seq<int>, mem: seq<set<int>>)
    requires Serves(h, tr, mem) && OnDemand(tr, mem)
    ensures Loads(mem) == Misses(tr, mem)
  {
    if tr != [] {
      var n := |tr| - 1;
      var m, m', p := mem[n], mem[n + 1], tr[n];
      DemandLoads(h, tr[..n], mem[..n + 1]);
      assert Move(h, p, m, m') && m' <= m + {p};
      assert m' - m == if p in m then {} else {p};
    }
  }

  /** Total weight of the listed pages outside m; the first page weighs w, each
      later page one less. */
  ghost function Potential(w: int, r: seq<int>, m: set<int>): int
    decreases r
  {
    if r == [] then 0
    else (if r[0] in m then 0 else w) + Potential(w - 1, r[1..], m)
  }

  /** How many listed pages are outside m. */
  ghost function Outside(r: seq<int>, m: set<int>): nat {
    if r == [] then 0 else (if r[0] in m then 0 else 1) + Outside(r[1..], m)
  }

  /** Giving every page one weight less costs one per page outside m. */
  lemma {:induction false} PotentialShift(w: int, r: seq<int>, m: set<int>)
    ensures Potential(w, r, m) == Potential(w - 1, r, m) + Outside(r, m)
    decreases r
  {
    if r != [] {
      PotentialShift(w - 1, r[1..], m);
    }
  }

  lemma {:induction false} PotentialNonNegative(w: int, r: seq<int>, m: set<int>)
    requires w >= |r|
    ensures Potential(w, r, m) >= 0
  {
    if r != [] {
      PotentialNonNegative(w - 1, r[1..], m);
    }
  }

  /** The page at the end of a full list has weight w - |r| + 1. */
  lemma {:induction false} PotentialInit(w: int, r: seq<int>, m: set<int>)
    requires r != []
    ensures Potential(w, r, m) ==
            Potential(w, r[..|r| - 1], m) + if r[|r| - 1] in m then 0 else w - |r| + 1
    decreases r
  {
    if |r| > 1 {
      PotentialInit(w - 1, r[1..], m);
      assert r[1..][..|r| - 2] == r[..|r| - 1][1..];
    }
  }

  /** Loading pages never raises the potential. */
  lemma {:induction false} PotentialLoad(w: int, r: seq<int>, m: set<int>, a: set<int>)
    requires w >= |r| && m <= a
    ensures Potential(w, r, a) <= Potential(w, r, m)
    decreases r
  {
    if r != [] {
      PotentialLoad(w - 1, r[1..], m, a);
    }
  }

  /** Each discarded page raises the potential by at most w. */
  lemma {:induction false} PotentialEvict(w: int, r: seq<int>, a: set<int>, m: set<int>)
    requires m <= a && NoDup(r) && w >= |r|
    ensures Potential(w, r, m) <= Potential(w, r, a) + w * |a - m|
    decreases r
  {
    if r == [] {
      assert w * |a - m| >= 0;
    } else if r[0] in a - m {
      var a' := a - {r[0]};
      PotentialSame(w - 1, r[1..], a, a');
      PotentialEvict(w - 1, r[1..], a', m);
      EvictOne(w, a, m, r[0]);
    } else {
      PotentialEvict(w - 1, r[1..], a, m);
      Lighter(w, |a - m|);
    }
  }

  lemma EvictOne(w: int, a: set<int>, m: set<int>, p: int)
    requires p in a && p !in m && w >= 1
    ensures (w - 1) * |(a - {p}) - m| + w <= w * |a - m|
  {
    assert a - m == ((a - {p}) - m) + {p};
    Lighter(w, |(a - {p}) - m|);
    Distribute(w, |(a - {p}) - m|, 1);
  }

  lemma Lighter(w: int, n: nat)
    ensures (w - 1) * n <= w * n
  {
  }

  lemma {:induction false} PotentialSame(w: int, r: seq<int>, a: set<int>, m: set<int>)
    requires forall i :: 0 <= i < |r| ==> (r[i] in a <==> r[i] in m)
    ensures Potential(w, r, a) == Potential(w, r, m)
    decreases r
  {
    if r != [] {
      PotentialSame(w - 1, r[1..], a, m);
    }
  }

  /** Moving a held page to the front never raises the potential. */
  lemma {:induction false} PotentialDrop(w: int, r: seq<int>, m: set<int>, p: int)
    requires p in m && p in r && w >= |r|
    ensures Potential(w - 1, Drop(r, p), m) <= Potential(w, r, m)
  {
    if r[0] != p {
      PotentialDrop(w - 1, r[1..], m, p);
    }
  }

  /** A memory holding a page outside the list misses that many listed pages. */
  lemma {:induction false} OutsideCount(r: seq<int>, m: set<int>)
    requires NoDup(r)
    ensures Outside(r, m) >= |r| - |m|
  {
    if r != [] {
      if r[0] in m {
        var m' := m - {r[0]};
        OutsideCount(r[1..], m');
        OutsideSame(r[1..], m, m');
      } else {
        OutsideCount(r[1..], m);
      }
    }
  }

  lemma {:induction false} OutsideSame(r: seq<int>, a: set<int>, m: set<int>)
    requires forall i :: 0 <= i < |r| ==> (r[i] in a <==> r[i] in m)
    ensures Outside(r, a) == Outside(r, m)
  {
    if r != [] {
      OutsideSame(r[1..], a, m);
    }
  }

  /** What the LRU step itself does to the potential: a fault in a full memory
      releases at least k - h + 1 of it, nothing else raises it. */
  lemma TouchPotential(k: int, h: int, r: seq<int>, p: int, m: set<int>)
    requires 1 <= h <= k && NoDup(r) && |r| <= k && p in m && |m| <= h
    ensures Potential(k, Touch(k, r, p), m) <=
            Potential(k, r, m) - if p !in r && |r| == k then k - h + 1 else 0
  {
    if p in r {
      PotentialDrop(k, r, m, p);
      assert ([p] + Drop(r, p))[1..] == Drop(r, p);
    } else if |r| < k {
      assert ([p] + r)[1..] == r;
      PotentialShift(k, r, m);
    } else {
      var n := |r| - 1;
      assert ([p] + r[..n])[1..] == r[..n];
      PotentialShift(k, r, m);
      PotentialInit(k - 1, r, m);
      OutsideCount(r, m - {p});
      OutsideSame(r, m, m - {p});
    }
  }

  /** The other policy's move from m to m'. */
  lemma {:induction false} ServePotential(k: int, r: seq<int>, m: set<int>, m': set<int>)
    requires NoDup(r) && |r| <= k
    ensures Potential(k, r, m') + k * |m'| <= Potential(k, r, m) + k * |m| + k * |m' - m|
  {
    PotentialLoad(k, r, m, m + m');
    PotentialEvict(k, r, m + m', m');
    LoadsPayEvictions(k, m, m');
  }

  lemma LoadsPayEvictions(k: int, m: set<int>, m': set<int>)
    ensures k * |m'| + k * |m + m' - m'| == k * |m| + k * |m' - m|
  {
    Split(m + m', m');
    Split(m + m', m);
    assert m + m' - m == m' - m;
    Distribute(k, |m'|, |m + m' - m'|);
    Distribute(k, |m|, |m' - m|);
  }

  lemma Split(a: set<int>, m: set<int>)
    requires m <= a
    ensures |a| == |m| + |a - m|
  {
    assert a == m + (a - m);
  }

  lemma Distribute(k: int, x: int, y: int)
    ensures k * (x + y) == k * x + k * y
  {
  }

  /** The amortised inequality kept by every request. */
  ghost predicate Balanced(k: int, h: int, f: int, r: seq<int>, m: set<int>, g: int) {
    (k - h + 1) * f + Potential(k, r, m) + k * |m| <= k * g + (k - h + 1) * |r|
  }

  lemma BalancedStep(k: int, h: nat, f: int, r: seq<int>, m: set<int>, g: int, p: int, m': set<int>)
    requires 1 <= h <= k && NoDup(r) && |r| <= k && Move(h, p, m, m')
    requires Balanced(k, h, f, r, m, g)
    ensures Balanced(k, h, f + if p in r then 0 else 1, Touch(k, r, p), m', g + |m' - m|)
  {
    ServePotential(k, r, m, m');
    TouchPotential(k, h, r, p, m');
    TouchLength(k, r, p);
    Distribute(k - h + 1, f, 1);
    Distribute(k - h + 1, |r|, 1);
    Distribute(k, g, |m' - m|);
  }

  lemma TouchLength(k: int, r: seq<int>, p: int)
    requires k >= 1
    ensures |Touch(k, r, p)| == if p !in r && |r| < k then |r| + 1 else |r|
  {
    if p in r {
      DropIsCut(r, p);
    }
  }

  lemma ServesInit(h: nat, tr: seq<int>, mem: seq<set<int>>)
    requires Serves(h, tr, mem) && tr != []
    ensures var n := |tr| - 1;
            && |mem| == n + 2 && Serves(h, tr[..n], mem[..n + 1]) && mem[..n + 1][n] == mem[n]
            && Move(h, tr[n], mem[n], mem[n + 1])
            && Loads(mem) == Loads(mem[..n + 1]) + |mem[n + 1] - mem[n]|
  {
    var n := |tr| - 1;
    forall i | 0 <= i < n ensures Move(h, tr[..n][i], mem[..n + 1][i], mem[..n + 1][i + 1]) {
      assert Move(h, tr[i], mem[i], mem[i + 1]);
    }
    assert Move(h, tr[n], mem[n], mem[n + 1]);
  }

  lemma {:induction false} AlwaysBalanced(k: int, h: nat, tr: seq<int>, mem: seq<set<int>>)
    requires 1 <= h <= k && Serves(h, tr, mem)
    ensures Balanced(k, h, Faults(k, tr), Run(k, tr), mem[|tr|], Loads(mem))
  {
    if tr != [] {
      var n := |tr| - 1;
      var before, p := tr[..n], tr[n];
      ServesInit(h, tr, mem);
      hide Serves;
      AlwaysBalanced(k, h, before, mem[..n + 1]);
      RunIsTopK(k, before);
      hide MostRecent, Pages;
      UsedOnce(before, Run(k, before));
      hide Balanced, NoDup, Touch, Move, Loads;
      BalancedStep(k, h, Faults(k, before), Run(k, before), mem[n], Loads(mem[..n + 1]), p, mem[n + 1]);
    }
  }

  /**
   * The bound: against any h-frame policy, h <= k, even one that loads pages
   * in advance, the LRU memory faults at most k / (k - h + 1) times as often as
   * that policy loads a page, up to a constant that vanishes when both have the
   * same number of frames.
   */
  lemma {:induction false} Competitive(k: int, h: int, tr: seq<int>, mem: seq<set<int>>)
    requires 1 <= h <= k && Serves(h, tr, mem)
    ensures (k - h + 1) * Faults(k, tr) <= k * Loads(mem) + k * (k - h)
  {
    if tr == [] {
      Products(k, h, 0, 1);
    } else {
      AlwaysBalanced(k, h, tr, mem);
      RunIsTopK(k, tr);
      var n := |tr| - 1;
      var r, m := Run(k, tr), mem[n + 1];
      PotentialNonNegative(k, r, m);
      assert Move(h, tr[n], mem[n], m);
      assert m != {};
      Products(k, h, |r|, |m|);
    }
  }

  lemma Products(k: int, h: int, n: nat, x: nat)
    requires 1 <= h <= k && n <= k && x >= 1
    ensures (k - h + 1) * n <= k * (k - h) + k <= k * (k - h) + k * x
    ensures 0 <= k * (k - h)
  {
    assert (k - h + 1) * n <= (k - h + 1) * k;
    assert k * 1 <= k * x;
  }

  /** Against policies that load on demand, in terms of their faults. */
  lemma {:induction false} DemandCompetitive(k: int, h: int, tr: seq<int>, mem: seq<set<int>>)
    requires 1 <= h <= k && Serves(h, tr, mem) && OnDemand(tr, mem)
    ensures (k - h + 1) * Faults(k, tr) <= k * Misses(tr, mem) + k * (k - h)
  {
    Competitive(k, h, tr, mem);
    DemandLoads(h, tr, mem);
  }

  /** With equally many frames: at most k times the loads of any policy. */
  lemma {:induction false} EqualFrames(k: int, tr: seq<int>, mem: seq<set<int>>)
    requires 1 <= k && Serves(k, tr, mem)
    ensures Faults(k, tr) <= k * Loads(mem)
  {
    Competitive(k, k, tr, mem);
  }
}
