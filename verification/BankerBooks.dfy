/**
 * The banker's public operations as transitions on values, and its books: what
 * the threads hold together, conservation of the resource over every run, and
 * how high the running value of a scan climbs.
 */
module BankerBooks {
  import opened BankerTheory

  // ---------------------------------------------------------------------
  // What all threads hold together
  // ---------------------------------------------------------------------

  ghost function HeldIn(keys: set<Pid>, t: Table): int
    requires keys <= t.Keys
  {
    if keys == {} then 0
    else
      var p :| p in keys;
      t[p].nowHave + HeldIn(keys - {p}, t)
  }

  ghost function Held(t: Table): int {
    HeldIn(t.Keys, t)
  }

  /** Any thread may be summed first. */
  lemma {:induction false} HeldInAny(keys: set<Pid>, t: Table, p: Pid)
    requires keys <= t.Keys && p in keys
    ensures HeldIn(keys, t) == t[p].nowHave + HeldIn(keys - {p}, t)
    decreases keys
  {
    var q :| q in keys && HeldIn(keys, t) == t[q].nowHave + HeldIn(keys - {q}, t);
    if q != p {
      HeldInAny(keys - {q}, t, p);
      HeldInAny(keys - {p}, t, q);
      assert keys - {q} - {p} == keys - {p} - {q};
    }
  }

  lemma {:induction false} HeldInSame(keys: set<Pid>, t: Table, u: Table)
    requires keys <= t.Keys && keys <= u.Keys
    requires forall p :: p in keys ==> t[p].nowHave == u[p].nowHave
    ensures HeldIn(keys, t) == HeldIn(keys, u)
    decreases keys
  {
    if keys != {} {
      var p :| p in keys;
      HeldInAny(keys, t, p);
      HeldInAny(keys, u, p);
      HeldInSame(keys - {p}, t, u);
    }
  }

  lemma HeldUpdate(t: Table, p: Pid, d: Details)
    ensures Held(t[p := d]) == Held(t) + d.nowHave - if p in t then t[p].nowHave else 0
  {
    var u := t[p := d];
    HeldInAny(u.Keys, u, p);
    HeldInSame(t.Keys - {p}, t, u);
    assert u.Keys - {p} == t.Keys - {p};
    if p in t {
      HeldInAny(t.Keys, t, p);
    } else {
      assert t.Keys - {p} == t.Keys;
    }
  }

  lemma HeldRemove(t: Table, p: Pid)
    requires p in t
    ensures Held(t - {p}) == Held(t) - t[p].nowHave
  {
    HeldInAny(t.Keys, t, p);
    HeldInSame(t.Keys - {p}, t, t - {p});
    assert (t - {p}).Keys == t.Keys - {p};
  }

  /** Along a completion order everything held comes back. */
  lemma {:induction false} HeldAlong(order: seq<Pid>, keys: set<Pid>, t: Table)
    requires keys <= t.Keys && multiset(order) == multiset(keys)
    ensures HeldBy(order, t) == HeldIn(keys, t)
    decreases |order|
  {
    if order == [] {
      EmptySet(keys);
    } else {
      var p := order[0];
      assert order == [p] + order[1..];
      assert p in multiset(keys);
      HeldInAny(keys, t, p);
      assert multiset(keys - {p}) == multiset(keys) - multiset{p};
      HeldAlong(order[1..], keys - {p}, t);
    }
  }

  lemma EmptySet(keys: set<Pid>)
    requires multiset(keys) == multiset([])
    ensures keys == {}
  {
    assert |multiset(keys)| == |keys|;
  }

  /** Distinct threads never hold more than all threads: the running value of
      the scan stays within what is accounted for. */
  lemma {:induction false} HeldAtMost(order: seq<Pid>, keys: set<Pid>, t: Table)
    requires keys <= t.Keys && NonNegative(t)
    requires forall i, j :: 0 <= i < j < |order| ==> order[i] != order[j]
    requires forall i :: 0 <= i < |order| ==> order[i] in keys
    ensures HeldBy(order, t) <= HeldIn(keys, t)
    decreases |order|
  {
    if order == [] {
      HeldInNonNegative(keys, t);
    } else {
      HeldInAny(keys, t, order[0]);
      HeldAtMost(order[1..], keys - {order[0]}, t);
    }
  }

  lemma {:induction false} HeldInNonNegative(keys: set<Pid>, t: Table)
    requires keys <= t.Keys && NonNegative(t)
    ensures HeldIn(keys, t) >= 0
    decreases keys
  {
    if keys != {} {
      var p :| p in keys;
      HeldInAny(keys, t, p);
      HeldInNonNegative(keys - {p}, t);
    }
  }

  // ---------------------------------------------------------------------
  // The operations
  // ---------------------------------------------------------------------

  /** `leaked` is what left the books: holdings dropped with their thread.
      `listed` is the thread list as a multiset, since scans permute it; an id
      registered twice is in it twice. */
  datatype Bank = Bank(total: int, avail: int, table: Table, leaked: int, listed: multiset<Pid>)

  datatype Op =
    | Request(pid: Pid, need: int)
    | Release(pid: Pid, nums: int)
    | Add(pid: Pid, claim: int)
    | Remove(pids: seq<Pid>)

  /** The bank after provisionally handing `need` to pid. */
  function Allocate(s: Bank, pid: Pid, need: int): Bank
    requires pid in s.table
  {
    var d := s.table[pid];
    s.(avail := s.avail - need,
       table := s.table[pid := d.(nowHave := d.nowHave + need, nowNeed := 0)])
  }

  /** The table while is_safe runs inside request. */
  function Tentative(t: Table, pid: Pid, need: int): Table
    requires pid in t
  {
    t[pid := t[pid].(nowHave := t[pid].nowHave + need)]
  }

  /** The request is within the claim and within what is available, so that
      is_safe is asked. */
  predicate Scannable(s: Bank, pid: Pid, need: int) {
    pid in s.table && need + s.table[pid].nowHave <= s.table[pid].maxRequest && need <= s.avail
  }

  /** The answers request may give: a refusal without a scan, or the result of
      the scan down the list in some descending order of remaining claim. */
  ghost predicate MayAnswer(s: Bank, pid: Pid, need: int, granted: bool) {
    if !Scannable(s, pid, need) then !granted
    else
      var t := Tentative(s.table, pid, need);
      exists order ::
        multiset(order) == s.listed && Descending(order, t) && (granted <==> Completes(s.avail - need, order, t))
  }

  function AfterRequest(s: Bank, pid: Pid, need: int, granted: bool): Bank {
    if pid !in s.table || need + s.table[pid].nowHave > s.table[pid].maxRequest then s
    else if need > s.avail then s.(table := s.table[pid := s.table[pid].(nowNeed := need)])
    else if granted then Allocate(s, pid, need)
    else s.(table := s.table[pid := s.table[pid].(nowNeed := 0)])
  }

  /** update_src: 0 releases everything, an amount beyond the holding nothing. */
  function Released(have: int, nums: int): int {
    if nums == 0 then have else if 0 < nums <= have then nums else 0
  }

  function AfterRelease(s: Bank, pid: Pid, nums: int): Bank {
    if pid !in s.table then s
    else
      var d := s.table[pid];
      var n := Released(d.nowHave, nums);
      s.(avail := s.avail + n, table := s.table[pid := d.(nowHave := d.nowHave - n)])
  }

  function HoldingOf(t: Table, pid: Pid): int {
    if pid in t then t[pid].nowHave else 0
  }

  function AfterAdd(s: Bank, pid: Pid, claim: int): Bank {
    s.(table := s.table[pid := Details(claim, 0, 0)], leaked := s.leaked + HoldingOf(s.table, pid),
       listed := s.listed + multiset{pid})
  }

  function AfterRemoveOne(s: Bank, pid: Pid): Bank {
    s.(table := s.table - {pid}, leaked := s.leaked + HoldingOf(s.table, pid), listed := s.listed[pid := 0])
  }

  function AfterRemove(s: Bank, pids: seq<Pid>): Bank
    decreases |pids|
  {
    if pids == [] then s else AfterRemove(AfterRemoveOne(s, pids[0]), pids[1..])
  }

  /** The bank after a call; `granted` is the answer if it is a request. */
  function Apply(s: Bank, op: Op, granted: bool): Bank {
    match op
    case Request(pid, need) => AfterRequest(s, pid, need, granted)
    case Release(pid, nums) => AfterRelease(s, pid, nums)
    case Add(pid, claim) => AfterAdd(s, pid, claim)
    case Remove(pids) => AfterRemove(s, pids)
  }

  /** The answer is one the code may give. */
  ghost predicate Possible(s: Bank, op: Op, granted: bool) {
    op.Request? ==> MayAnswer(s, op.pid, op.need, granted)
  }

  /** The list names exactly the threads of the table. */
  ghost predicate Listed(s: Bank) {
    forall p :: p in s.listed <==> p in s.table
  }

  lemma OrderLists(s: Bank, order: seq<Pid>)
    requires Listed(s) && multiset(order) == s.listed
    ensures Lists(order, s.table)
  {
    forall i | 0 <= i < |order| ensures order[i] in s.table {
      assert order[i] in multiset(order);
    }
    forall p | p in s.table ensures p in order {
      assert p in multiset(order);
    }
  }

  lemma {:induction false} RemoveLists(s: Bank, pids: seq<Pid>)
    requires Listed(s)
    ensures Listed(AfterRemove(s, pids))
    decreases |pids|
  {
    if pids != [] {
      RemoveLists(AfterRemoveOne(s, pids[0]), pids[1..]);
    }
  }

  lemma ApplyLists(s: Bank, op: Op, granted: bool)
    requires Listed(s)
    ensures Listed(Apply(s, op, granted))
  {
    if op.Remove? {
      RemoveLists(s, op.pids);
    }
  }

  // ---------------------------------------------------------------------
  // Conservation
  // ---------------------------------------------------------------------

  /** Available, held and leaked resources add up to the total. */
  ghost predicate Conserved(s: Bank) {
    s.avail + Held(s.table) + s.leaked == s.total
  }

  /** What is still on the books. */
  function OnBooks(s: Bank): int {
    s.total - s.leaked
  }

  /** A table update keeps the books when availability changes by as much. */
  lemma UpdateConserves(s: Bank, pid: Pid, d: Details, avail: int, leaked: int)
    requires Conserved(s)
    requires avail + d.nowHave + leaked == s.avail + HoldingOf(s.table, pid) + s.leaked
    ensures Conserved(Bank(s.total, avail, s.table[pid := d], leaked, s.listed))
  {
    HeldUpdate(s.table, pid, d);
  }

  lemma {:induction false} RemoveConserves(s: Bank, pids: seq<Pid>)
    requires Conserved(s)
    ensures Conserved(AfterRemove(s, pids)) && AfterRemove(s, pids).total == s.total
    decreases |pids|
  {
    if pids != [] {
      if pids[0] in s.table {
        HeldRemove(s.table, pids[0]);
      } else {
        assert s.table - {pids[0]} == s.table;
      }
      RemoveConserves(AfterRemoveOne(s, pids[0]), pids[1..]);
    }
  }

  /** Every operation, properly used or not, keeps the books balanced. */
  lemma ApplyConserves(s: Bank, op: Op, granted: bool)
    requires Conserved(s)
    ensures Conserved(Apply(s, op, granted)) && Apply(s, op, granted).total == s.total
  {
    match op
    case Request(pid, need) =>
      if pid in s.table {
        UpdateConserves(s, pid, Allocate(s, pid, need).table[pid], s.avail - need, s.leaked);
        UpdateConserves(s, pid, s.table[pid].(nowNeed := need), s.avail, s.leaked);
        UpdateConserves(s, pid, s.table[pid].(nowNeed := 0), s.avail, s.leaked);
      }
    case Release(pid, nums) =>
      if pid in s.table {
        var d := s.table[pid];
        var n := Released(d.nowHave, nums);
        UpdateConserves(s, pid, d.(nowHave := d.nowHave - n), s.avail + n, s.leaked);
      }
    case Add(pid, claim) =>
      UpdateConserves(s, pid, Details(claim, 0, 0), s.avail, s.leaked + HoldingOf(s.table, pid));
    case Remove(pids) =>
      RemoveConserves(s, pids);
  }

  /** A run: calls with the answers they got. */
  function RunOf(s: Bank, steps: seq<(Op, bool)>): Bank
    decreases |steps|
  {
    if steps == [] then s else RunOf(Apply(s, steps[0].0, steps[0].1), steps[1..])
  }

  /** Over every run whatever the books stay balanced. */
  lemma {:induction false} RunsConserve(s: Bank, steps: seq<(Op, bool)>)
    requires Conserved(s)
    ensures Conserved(RunOf(s, steps)) && RunOf(s, steps).total == s.total
    decreases |steps|
  {
    if steps != [] {
      ApplyConserves(s, steps[0].0, steps[0].1);
      RunsConserve(Apply(s, steps[0].0, steps[0].1), steps[1..]);
    }
  }

  // ---------------------------------------------------------------------
  // The running value of the scan
  // ---------------------------------------------------------------------

  /** Threads listed once hold together what the table says. */
  lemma ListedOnce(q: seq<Pid>, t: Table)
    requires Lists(q, t) && NoRepeat(q)
    ensures HeldBy(q, t) == Held(t)
    ensures forall p :: multiset(q)[p] <= 1
  {
    NoRepeatCounts(q);
    ListMembers(q, t);
    assert forall p :: multiset(q)[p] == multiset(t.Keys)[p];
    assert multiset(q) == multiset(t.Keys);
    HeldAlong(q, t.Keys, t);
  }

  lemma ListMembers(q: seq<Pid>, t: Table)
    requires Lists(q, t)
    ensures forall p :: p in multiset(q) <==> p in t
  {
    forall p | p in multiset(q) ensures p in t {
      assert p in q;
    }
    forall p | p in t ensures p in multiset(q) {
      assert p in q;
    }
  }

  lemma {:induction false} NoRepeatCounts(q: seq<Pid>)
    requires NoRepeat(q)
    ensures forall p :: multiset(q)[p] <= 1
  {
    if q != [] {
      NoRepeatCounts(q[1..]);
      assert q == [q[0]] + q[1..];
      assert q[0] !in q[1..];
    }
  }

  lemma CountsNoRepeat(q: seq<Pid>)
    requires forall p :: multiset(q)[p] <= 1
    ensures NoRepeat(q)
  {
    forall i, j | 0 <= i < j < |q| ensures q[i] != q[j] {
      assert q == q[..i] + [q[i]] + q[i + 1..j] + [q[j]] + q[j + 1..];
      assert multiset(q)[q[i]] <= 1;
    }
  }

  /** No thread listed more than once holds anything. */
  ghost predicate RepeatsHoldNothing(listed: multiset<Pid>, t: Table) {
    forall p :: p in t && listed[p] > 1 ==> t[p].nowHave == 0
  }

  /** A list counts every holding at least once, and counts none twice exactly
      when its repeated threads hold nothing. */
  lemma {:induction false} HeldByList(q: seq<Pid>, t: Table)
    requires NonNegative(t) && Lists(q, t)
    ensures HeldBy(q, t) >= Held(t)
    ensures HeldBy(q, t) <= Held(t) <==> RepeatsHoldNothing(multiset(q), t)
    decreases |q|
  {
    if NoRepeat(q) {
      ListedOnce(q, t);
    } else {
      var i, j :| 0 <= i < j < |q| && q[i] == q[j];
      var r := Cut(q, j);
      CutMultiset(q, j);
      CutLists(q, t, i, j);
      HeldCut(q, t, j);
      HeldByList(r, t);
      hide HeldBy, Held, Lists, Cut;
      RepeatsOfCut(q, r, t, q[j]);
    }
  }

  lemma CutLists(q: seq<Pid>, t: Table, i: nat, j: nat)
    requires Lists(q, t) && i < j < |q| && q[i] == q[j]
    ensures Lists(Cut(q, j), t) && q[j] in Cut(q, j)
  {
    var r := Cut(q, j);
    assert forall k :: 0 <= k < |r| ==> r[k] == q[if k < j then k else k + 1];
    assert r[i] == q[j];
    forall p | p in t ensures p in r {
      var k :| 0 <= k < |q| && q[k] == p;
      if k != j {
        assert r[if k < j then k else k - 1] == p;
      }
    }
  }

  lemma {:induction false} HeldCut(q: seq<Pid>, t: Table, j: nat)
    requires j < |q| && q[j] in t
    ensures HeldBy(q, t) == HeldBy(Cut(q, j), t) + t[q[j]].nowHave
  {
    if j == 0 {
      assert Cut(q, 0) == q[1..];
    } else {
      HeldCut(q[1..], t, j - 1);
      assert Cut(q, j) == [q[0]] + Cut(q[1..], j - 1);
    }
  }

  lemma RepeatsOfCut(q: seq<Pid>, r: seq<Pid>, t: Table, x: Pid)
    requires x in t && multiset(r) == multiset(q) - multiset{x} && x in r && x in q
    ensures RepeatsHoldNothing(multiset(q), t) <==> RepeatsHoldNothing(multiset(r), t) && t[x].nowHave == 0
  {
    assert x in multiset(r) && x in multiset(q);
    assert multiset(q)[x] == multiset(r)[x] + 1;
    assert forall p :: p != x ==> multiset(q)[p] == multiset(r)[p];
  }

  lemma {:induction false} HeldConcat(a: seq<Pid>, b: seq<Pid>, t: Table)
    ensures HeldBy(a + b, t) == HeldBy(a, t) + HeldBy(b, t)
  {
    if a == [] {
      assert a + b == b;
    } else {
      assert (a + b)[1..] == a[1..] + b;
      HeldConcat(a[1..], b, t);
    }
  }

  /** A part of the list holds no more than the whole. */
  lemma HeldPrefix(order: seq<Pid>, k: nat, t: Table)
    requires NonNegative(t) && k <= |order|
    ensures HeldBy(order[..k], t) <= HeldBy(order, t)
  {
    assert order == order[..k] + order[k..];
    HeldConcat(order[..k], order[k..], t);
    HeldNonNegative(order[k..], t);
  }

  /** The running value of a scan of these threads never exceeds the books. */
  ghost predicate StaysWithinBooks(s: Bank, visited: seq<Pid>) {
    forall k :: 0 <= k <= |visited| ==> s.avail + HeldBy(visited[..k], s.table) <= OnBooks(s)
  }

  /** A scan down a list stays within the books at every point exactly when
      threads listed more than once hold nothing; if not, its last value is
      beyond them. */
  lemma {:induction false} ScanWithinBooksIff(s: Bank, order: seq<Pid>)
    requires Conserved(s) && NonNegative(s.table) && Lists(order, s.table)
    ensures RepeatsHoldNothing(multiset(order), s.table) ==> StaysWithinBooks(s, order)
    ensures s.avail + HeldBy(order, s.table) <= OnBooks(s) <==> RepeatsHoldNothing(multiset(order), s.table)
  {
    HeldByList(order, s.table);
    forall k | 0 <= k <= |order| && RepeatsHoldNothing(multiset(order), s.table)
      ensures s.avail + HeldBy(order[..k], s.table) <= OnBooks(s)
    {
      HeldPrefix(order, k, s.table);
    }
  }

  /** In particular with threads listed once. */
  lemma OnceHoldsNothing(q: seq<Pid>, t: Table)
    requires NoRepeat(q)
    ensures RepeatsHoldNothing(multiset(q), t)
  {
    NoRepeatCounts(q);
  }

  /** With an id registered twice the scan counts its holding twice: one thread
      with the whole total as its claim, holding h of it, takes the running
      value to total + h. */
  lemma RepeatedIdExceeds(p: Pid, total: int, h: int)
    requires 0 < h <= total
    ensures var s := Bank(total, total - h, map[p := Details(total, h, 0)], 0, multiset{p, p});
            && Conserved(s) && Lists([p, p], s.table) && Descending([p, p], s.table)
            && Completes(s.avail, [p, p], s.table)
            && s.avail + HeldBy([p, p], s.table) == total + h
  {
    var t: Table := map[p := Details(total, h, 0)];
    assert t.Keys == {p} && {p} - {p} == {};
    HeldInAny(t.Keys, t, p);
    assert [p, p][1..] == [p] && [p][1..] == [];
    assert Completes(total, [p], t);
    assert HeldBy([p], t) == h;
  }
}
