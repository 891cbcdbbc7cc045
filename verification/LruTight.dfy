/**
 * The factor k / (k - h + 1) of LruCompetitive cannot be improved for any
 * h <= k.  A round asks for k - h + 1 new pages and then h - 1 times for a
 * page the LRU memory lacks: k faults, while a policy with h frames that knows
 * the round in advance keeps those h - 1 pages and misses only the new ones.
 */
module LruTight {
  import opened Sets
  import opened LruPolicy
  import opened LruCompetitive

  ghost predicate Within(b: seq<int>, u: set<int>) {
    forall i :: 0 <= i < |b| ==> b[i] in u
  }

  /** A policy with h frames that loads only requested pages. */
  ghost predicate ServesOnDemand(h: nat, tr: seq<int>, mem: seq<set<int>>) {
    Serves(h, tr, mem) && OnDemand(tr, mem)
  }

  /** One more request served. */
  lemma Extend(h: nat, tr: seq<int>, mem: seq<set<int>>, p: int, m: set<int>)
    requires ServesOnDemand(h, tr, mem) && Move(h, p, mem[|tr|], m) && m <= mem[|tr|] + {p}
    ensures ServesOnDemand(h, tr + [p], mem + [m])
    ensures Misses(tr + [p], mem + [m]) == Misses(tr, mem) + if p in mem[|tr|] then 0 else 1
  {
    var tr', mem' := tr + [p], mem + [m];
    assert tr'[..|tr|] == tr && mem'[..|tr| + 1] == mem;
    forall i | 0 <= i < |tr'|
      ensures Move(h, tr'[i], mem'[i], mem'[i + 1]) && mem'[i + 1] <= mem'[i] + {tr'[i]}
    {
      if i < |tr| {
        assert Move(h, tr[i], mem[i], mem[i + 1]);
      }
    }
  }

  /** A page outside a list of at most k pages, among more than k pages. */
  lemma Lacking(k: nat, r: seq<int>, u: set<int>) returns (p: int)
    requires |r| <= k < |u|
    ensures p in u && p !in r
  {
    PagesAtMost(r);
    p := LargerHasMore(u, Pages(r));
  }

  lemma {:induction false} PagesAtMost(r: seq<int>)
    ensures |Pages(r)| <= |r|
  {
    if r == [] {
      assert Pages(r) == {};
    } else {
      PagesAtMost(r[1..]);
      assert Pages(r) == {r[0]} + Pages(r[1..]);
    }
  }

  /** The adversary: n requests on which the LRU memory always faults. */
  lemma {:induction false} Adversary(k: int, u: set<int>, tr: seq<int>, n: nat) returns (b: seq<int>)
    requires 1 <= k < |u|
    ensures |b| == n && Within(b, u)
    ensures Faults(k, tr + b) == Faults(k, tr) + n
  {
    if n == 0 {
      b := [];
      assert tr + b == tr;
    } else {
      var a := Adversary(k, u, tr, n - 1);
      RunIsTopK(k, tr + a);
      var p := Lacking(k, Run(k, tr + a), u);
      RunSnoc(k, tr + a, p);
      b := a + [p];
      assert tr + b == tr + a + [p];
    }
  }

  /** Requests for pages in memory cost nothing. */
  lemma {:induction false} ServeHits(h: nat, tr: seq<int>, mem: seq<set<int>>, b: seq<int>)
    returns (mem': seq<set<int>>)
    requires ServesOnDemand(h, tr, mem) && Within(b, mem[|tr|]) && |mem[|tr|]| <= h
    ensures ServesOnDemand(h, tr + b, mem') && mem'[|tr + b|] == mem[|tr|]
    ensures Misses(tr + b, mem') == Misses(tr, mem)
    decreases |b|
  {
    if b == [] {
      mem' := mem;
      assert tr + b == tr;
    } else {
      var m := mem[|tr|];
      Extend(h, tr, mem, b[0], m);
      mem' := ServeHits(h, tr + [b[0]], mem + [m], b[1..]);
      assert tr + b == tr + [b[0]] + b[1..];
    }
  }

  /** n pages from `from` on. */
  function Fresh(from: int, n: nat): (b: seq<int>)
    ensures |b| == n && forall i :: 0 <= i < n ==> b[i] == from + i
  {
    seq(n, i => from + i)
  }

  /** Every page of the trace is below `bound`. */
  ghost predicate Below(tr: seq<int>, bound: int) {
    forall i :: 0 <= i < |tr| ==> tr[i] < bound
  }

  lemma FreshSnoc(tr: seq<int>, from: int, n: nat)
    ensures Fresh(from, n + 1) == Fresh(from, n) + [from + n]
    ensures tr + Fresh(from, n + 1) == tr + Fresh(from, n) + [from + n]
    ensures Below(tr, from) ==> from + n !in Pages(tr + Fresh(from, n))
  {
    assert Below(tr, from) ==> Below(tr + Fresh(from, n), from + n);
  }

  /** New pages are never resident. */
  lemma {:induction false} FreshFaults(k: int, tr: seq<int>, from: int, n: nat)
    requires k >= 1 && Below(tr, from)
    ensures Faults(k, tr + Fresh(from, n)) == Faults(k, tr) + n
  {
    if n == 0 {
      assert tr + Fresh(from, 0) == tr;
    } else {
      var before, p := tr + Fresh(from, n - 1), from + n - 1;
      FreshFaults(k, tr, from, n - 1);
      FreshSnoc(tr, from, n - 1);
      RunSnoc(k, before, p);
      RunIsTopK(k, before);
      UsedOnce(before, Run(k, before));
      assert p !in Pages(Run(k, before));
    }
  }

  /** What the policy with h frames has kept: its memory is full, holds used
      pages only, and holds those of `wanted` that it had or has just loaded. */
  ghost predicate Kept(h: nat, tr: seq<int>, mem: seq<set<int>>, m0: set<int>, wanted: set<int>, b: seq<int>) {
    && ServesOnDemand(h, tr, mem)
    && mem[|tr|] <= Pages(tr) && |mem[|tr|]| == h
    && wanted * (m0 + Pages(b)) <= mem[|tr|]
  }

  /** Far-sighted service of new pages: always discard an unwanted one. */
  lemma {:induction false} ServeNew(h: nat, tr: seq<int>, mem: seq<set<int>>, from: int, n: nat, wanted: set<int>)
    returns (mem': seq<set<int>>)
    requires |mem| == |tr| + 1 && Kept(h, tr, mem, mem[|tr|], wanted, []) && Below(tr, from) && |wanted| < h
    ensures Kept(h, tr + Fresh(from, n), mem', mem[|tr|], wanted, Fresh(from, n))
    ensures Misses(tr + Fresh(from, n), mem') == Misses(tr, mem) + n
  {
    hide Kept;
    if n == 0 {
      mem' := mem;
      assert tr + Fresh(from, 0) == tr && Fresh(from, 0) == [];
    } else {
      var before, p := tr + Fresh(from, n - 1), from + n - 1;
      var mem0 := ServeNew(h, tr, mem, from, n - 1, wanted);
      FreshSnoc(tr, from, n - 1);
      hide Fresh, Pages, Below;
      mem' := LoadNew(h, before, mem0, mem[|tr|], wanted, Fresh(from, n - 1), p);
    }
  }

  lemma LoadNew(h: nat, tr: seq<int>, mem: seq<set<int>>, m0: set<int>, wanted: set<int>, b: seq<int>, p: int)
    returns (mem': seq<set<int>>)
    requires Kept(h, tr, mem, m0, wanted, b) && p !in Pages(tr) && |wanted| < h
    ensures Kept(h, tr + [p], mem', m0, wanted, b + [p])
    ensures Misses(tr + [p], mem') == Misses(tr, mem) + 1
  {
    var m := mem[|tr|];
    var x := LargerHasMore(m, wanted);
    var m' := m - {x} + {p};
    Extend(h, tr, mem, p, m');
    mem' := mem + [m'];
    hide ServesOnDemand, Misses;
    PagesSnoc(tr, p);
    PagesSnoc(b, p);
  }

  lemma PagesSnoc(tr: seq<int>, p: int)
    ensures Pages(tr + [p]) == Pages(tr) + {p}
  {
  }

  /** Where a round starts and ends. */
  ghost predicate Between(h: nat, tr: seq<int>, mem: seq<set<int>>, bound: int) {
    ServesOnDemand(h, tr, mem) && Below(tr, bound) && mem[|tr|] <= Pages(tr) && |mem[|tr|]| == h
  }

  lemma Round(k: nat, h: nat, tr: seq<int>, mem: seq<set<int>>, bound: int)
    returns (tr': seq<int>, mem': seq<set<int>>)
    requires 1 <= h <= k && Between(h, tr, mem, bound)
    ensures Between(h, tr', mem', bound + k - h + 1)
    ensures Faults(k, tr') == Faults(k, tr) + k
    ensures Misses(tr', mem') == Misses(tr, mem) + k - h + 1
  {
    var n, m := k - h + 1, mem[|tr|];
    var b := Fresh(bound, n);
    var u := m + Pages(b);
    RoundPages(tr, m, bound, n);
    FreshFaults(k, tr, bound, n);
    var c := Adversary(k, u, tr + b, h - 1);
    PagesAtMost(c);
    var mem1 := ServeNew(h, tr, mem, bound, n, Pages(c));
    WithinPages(c, u, mem1[|tr + b|]);
    mem' := ServeHits(h, tr + b, mem1, c);
    tr' := tr + b + c;
    RoundBelow(tr, b, c, m, bound + n);
  }

  lemma RoundPages(tr: seq<int>, m: set<int>, bound: int, n: nat)
    requires Below(tr, bound) && m <= Pages(tr)
    ensures |m + Pages(Fresh(bound, n))| == |m| + n
  {
    var b := Fresh(bound, n);
    DistinctCount(b);
    forall p | p in m ensures p !in Pages(b) {
      assert p in Pages(tr);
    }
    assert m !! Pages(b);
  }

  lemma WithinPages(c: seq<int>, u: set<int>, m: set<int>)
    requires Within(c, u) && Pages(c) * u <= m
    ensures Within(c, m)
  {
    forall i | 0 <= i < |c| ensures c[i] in m {
      assert c[i] in Pages(c) * u;
    }
  }

  lemma RoundBelow(tr: seq<int>, b: seq<int>, c: seq<int>, m: set<int>, bound: int)
    requires Below(tr, bound) && Below(b, bound) && m <= Pages(tr) && Within(c, m + Pages(b))
    ensures Below(tr + b + c, bound) && Pages(tr + b) <= Pages(tr + b + c)
  {
    forall i | 0 <= i < |c| ensures c[i] < bound {
      assert c[i] in Pages(tr) || c[i] in Pages(b);
    }
  }

  /** A trace of new pages only, all of them kept. */
  ghost predicate Filled(h: nat, tr: seq<int>, mem: seq<set<int>>) {
    && ServesOnDemand(h, tr, mem) && mem[|tr|] == Pages(tr)
    && |mem[|tr|]| == |tr| && Misses(tr, mem) == |tr|
  }

  /** The first h requests fill the smaller memory. */
  lemma {:induction false} FillUp(h: nat, n: nat) returns (mem: seq<set<int>>)
    requires n <= h
    ensures Filled(h, Fresh(0, n), mem)
  {
    if n == 0 {
      mem := [{}];
    } else {
      var before := Fresh(0, n - 1);
      var mem0 := FillUp(h, n - 1);
      FreshSnoc([], 0, n - 1);
      assert [] + before == before;
      hide Pages, Below, Filled;
      mem := LoadFree(h, before, mem0, n - 1);
    }
  }

  /** A new page goes into a free frame. */
  lemma LoadFree(h: nat, tr: seq<int>, mem: seq<set<int>>, p: int) returns (mem': seq<set<int>>)
    requires Filled(h, tr, mem) && |tr| < h && p !in Pages(tr)
    ensures Filled(h, tr + [p], mem')
  {
    var m := mem[|tr|] + {p};
    PagesSnoc(tr, p);
    hide Pages;
    Extend(h, tr, mem, p, m);
    mem' := mem + [m];
    hide ServesOnDemand, Misses;
  }

  lemma FilledUp(k: nat, h: nat) returns (tr: seq<int>, mem: seq<set<int>>)
    requires 1 <= h <= k
    ensures Between(h, tr, mem, h) && Faults(k, tr) == h && Misses(tr, mem) == h
  {
    tr := Fresh(0, h);
    hide ServesOnDemand, Misses, Pages;
    mem := FillUp(h, h);
    FreshFaults(k, [], 0, h);
    assert [] + tr == tr;
    assert Faults(k, []) == 0;
    hide Faults;
  }

  /** Any number of rounds, each with l = k - h + 1 new pages. */
  lemma {:induction false} Rounds(k: nat, h: nat, l: nat, n: nat)
    returns (tr: seq<int>, mem: seq<set<int>>, bound: int)
    requires 1 <= h <= k && l == k - h + 1
    ensures Between(h, tr, mem, bound)
    ensures Faults(k, tr) == h + k * n && Misses(tr, mem) == h + l * n
  {
    hide Between, Faults, Misses;
    if n == 0 {
      tr, mem := FilledUp(k, h);
      bound := h;
    } else {
      var tr0, mem0, bound0 := Rounds(k, h, l, n - 1);
      tr, mem := Round(k, h, tr0, mem0, bound0);
      bound := bound0 + l;
      Distribute(k, n - 1, 1);
      Distribute(l, n - 1, 1);
    }
  }

  /** No factor a / b below k / (k - h + 1) is enough against policies with
      h <= k frames, whatever constant is added, even if they load on demand. */
  lemma FactorIsTight(k: nat, h: nat, a: nat, b: nat, d: nat) returns (tr: seq<int>, mem: seq<set<int>>)
    requires 1 <= h <= k && a * (k - h + 1) < b * k
    ensures ServesOnDemand(h, tr, mem) && Loads(mem) == Misses(tr, mem)
    ensures b * Faults(k, tr) > a * Misses(tr, mem) + d
  {
    var n := a * h + d + 1;
    var bound: int;
    tr, mem, bound := Rounds(k, h, k - h + 1, n);
    hide Faults, Misses;
    Enough(a, b, k, k - h + 1, h, n, d, Faults(k, tr), Misses(tr, mem));
    DemandLoads(h, tr, mem);
  }

  lemma Enough(a: nat, b: nat, k: nat, l: nat, h: nat, n: nat, d: nat, faults: nat, misses: nat)
    requires a * l < b * k && n == a * h + d + 1
    requires faults == h + k * n && misses == h + l * n
    ensures b * faults > a * misses + d
  {
    Distribute(b, h, k * n);
    Distribute(a, h, l * n);
    Regroup(b, k, n);
    Regroup(a, l, n);
    Larger(n, a * l + 1, b * k);
    Distribute(n, a * l, 1);
    assert b * h >= 0;
  }

  lemma Regroup(a: int, k: int, n: int)
    ensures a * (k * n) == n * (a * k)
  {
  }

  lemma Larger(c: nat, x: int, y: int)
    requires x <= y
    ensures c * x <= c * y
  {
  }
}
