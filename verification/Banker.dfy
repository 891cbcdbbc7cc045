/**
 * The Banker class of Banker.hpp and Banker.cpp.  Every public method is one
 * atomic step, since it holds the object's mutex throughout.
 */
module BankerClass {
  import opened BankerTheory
  import opened BankerBooks
  import opened BankerRuns
  import opened Heap

  /** A call either returns a value or throws out_of_range, as map::at does. */
  datatype Result<T> = Returned(value: T) | Thrown

  function WithoutPid(q: seq<Pid>, pid: Pid): (r: seq<Pid>)
    ensures forall i :: 0 <= i < |r| ==> r[i] != pid && r[i] in q
    ensures forall i :: 0 <= i < |q| && q[i] != pid ==> q[i] in r
  {
    if q == [] then []
    else if q[0] == pid then WithoutPid(q[1..], pid)
    else [q[0]] + WithoutPid(q[1..], pid)
  }

  lemma {:induction false} WithoutSnoc(q: seq<Pid>, x: Pid, pid: Pid)
    ensures WithoutPid(q + [x], pid) == WithoutPid(q, pid) + if x == pid then [] else [x]
  {
    if q != [] {
      assert (q + [x])[1..] == q[1..] + [x];
      WithoutSnoc(q[1..], x, pid);
    }
  }

  method ToArray(q: seq<Pid>) returns (a: array<Pid>)
    ensures fresh(a) && a[..] == q
  {
    a := new Pid[|q|](i requires 0 <= i < |q| => q[i]);
  }

  /** The erase-remove idiom: compacts the list in place, then shortens it. */
  method EraseRemove(a: array<Pid>, pid: Pid) returns (r: array<Pid>)
    modifies a
    ensures fresh(r) && r[..] == WithoutPid(old(a[..]), pid)
  {
    var k := 0;
    ghost var q := a[..];
    for i := 0 to a.Length
      invariant 0 <= k <= i
      invariant a[..k] == WithoutPid(q[..i], pid)
      invariant a[i..] == q[i..]
    {
      WithoutSnoc(q[..i], q[i], pid);
      assert q[..i + 1] == q[..i] + [q[i]];
      assert a[i] == a[i..][0] == q[i];
      assert a[i + 1..] == a[i..][1..];
      if a[i] != pid {
        a[k] := a[i];
        assert a[..k + 1] == a[..k] + [a[k]];
        k := k + 1;
      }
    }
    assert q[..a.Length] == q;
    r := ToArray(a[..k]);
  }

  function WithoutPids(q: seq<Pid>, pids: seq<Pid>): seq<Pid>
    decreases |pids|
  {
    if pids == [] then q else WithoutPids(WithoutPid(q, pids[0]), pids[1..])
  }

  lemma NoRepeatSnoc(q: seq<Pid>, t: Table, pid: Pid)
    requires Lists(q, t)
    ensures NoRepeat(q + [pid]) <==> NoRepeat(q) && pid !in t
  {
    var r := q + [pid];
    assert forall i :: 0 <= i < |q| ==> r[i] == q[i];
    if pid in t {
      var i :| 0 <= i < |q| && q[i] == pid;
      assert r[i] == r[|q|];
    }
  }

  /** How far is_safe has come after i threads: `visited` is what has been
      popped off the heap q, in that order. */
  ghost predicate Scanned(avail: int, q: seq<Pid>, i: nat, visited: seq<Pid>, t: Table) {
    && i <= |q|
    && multiset(visited) == multiset(q[|q| - i..])
    && Descending(visited, t)
    && (forall j, k :: 0 <= j < |visited| && 0 <= k < |q| - i ==> NeedOf(t, visited[j]) >= NeedOf(t, q[k]))
    && Completes(avail, visited, t)
  }

  /** The key behind cmp_func: a thread's remaining claim. */
  function KeyOf(t: Table): Pid -> int {
    p => NeedOf(t, p)
  }

  /** The front of the heap of the first m covers all of them, before and
      after it is popped. */
  lemma PoppedIsLargest(q: seq<Pid>, r: seq<Pid>, m: nat, t: Table)
    requires 1 <= m <= |q| && |r| == |q| && IsHeap(q, m, KeyOf(t))
    requires multiset(r) == multiset(q) && r[m..] == q[m..]
    ensures forall k :: 0 <= k < m ==> NeedOf(t, r[k]) <= NeedOf(t, q[0])
  {
    assert q == q[..m] + q[m..] && r == r[..m] + r[m..];
    assert multiset(q[..m]) == multiset(q) - multiset(q[m..]);
    assert multiset(r[..m]) == multiset(r) - multiset(r[m..]);
    forall k | 0 <= k < m ensures NeedOf(t, r[k]) <= NeedOf(t, q[0]) {
      assert r[..m][k] in multiset(q[..m]);
      var j :| 0 <= j < m && q[..m][j] == r[k];
      FrontIsLargest(q, m, KeyOf(t), j);
    }
  }

  /** What one pop does to the list. */
  ghost predicate Popped(q: seq<Pid>, r: seq<Pid>, m: nat) {
    1 <= m <= |q| && |r| == |q| && multiset(r) == multiset(q) && r[m..] == q[m..] && r[m - 1] == q[0]
  }

  lemma ScanStep(avail: int, q: seq<Pid>, r: seq<Pid>, i: nat, visited: seq<Pid>, t: Table)
    requires Scanned(avail, q, i, visited, t) && i < |q| && q[0] in t
    requires IsHeap(q, |q| - i, KeyOf(t)) && Popped(q, r, |q| - i)
    requires Need(t[q[0]]) <= avail + HeldBy(visited, t)
    ensures Scanned(avail, r, i + 1, visited + [q[0]], t)
    ensures HeldBy(visited + [q[0]], t) == HeldBy(visited, t) + t[q[0]].nowHave
  {
    var m := |q| - i;
    var p := q[0];
    PoppedIsLargest(q, r, m, t);
    StepCompletes(avail, visited, p, t);
    StepVisited(q, r, i, visited);
    hide Completes, HeldBy, IsHeap;
    var longer := visited + [p];
    forall j, k | 0 <= j < |longer| && 0 <= k < |r| - (i + 1)
      ensures NeedOf(t, longer[j]) >= NeedOf(t, r[k])
    {
      if j < |visited| {
        assert NeedOf(t, visited[j]) >= NeedOf(t, q[0]);
      }
    }
  }

  lemma StepCompletes(avail: int, visited: seq<Pid>, p: Pid, t: Table)
    requires Completes(avail, visited, t) && p in t && Need(t[p]) <= avail + HeldBy(visited, t)
    ensures Completes(avail, visited + [p], t)
    ensures HeldBy(visited + [p], t) == HeldBy(visited, t) + t[p].nowHave
  {
    CompletesAppend(avail, visited, [p], t);
    assert [p][1..] == [];
    HeldAppend(visited, p, t);
  }

  lemma StepVisited(q: seq<Pid>, r: seq<Pid>, i: nat, visited: seq<Pid>)
    requires i < |q| && multiset(visited) == multiset(q[|q| - i..]) && Popped(q, r, |q| - i)
    ensures multiset(visited + [q[0]]) == multiset(r[|r| - i - 1..])
  {
    assert r[|r| - i - 1..] == [q[0]] + r[|r| - i..];
  }

  lemma ScanStart(avail: int, q: seq<Pid>, t: Table)
    ensures Scanned(avail, q, 0, [], t) && HeldBy([], t) == 0
  {
  }

  lemma FrontListed(q: seq<Pid>, t: Table)
    requires Lists(q, t) && q != []
    ensures q[0] in t
  {
  }

  /** The scan as a whole: it follows the list by descending remaining claim
      and ends where a thread does not fit. */
  ghost predicate ScanOf(avail: int, q: seq<Pid>, t: Table, order: seq<Pid>, visited: seq<Pid>) {
    && multiset(order) == multiset(q) && Descending(order, t)
    && visited <= order && Completes(avail, visited, t)
    && (visited != order ==> NeedOf(t, order[|visited|]) > avail + HeldBy(visited, t))
  }

  lemma ScanPermuted(avail: int, q: seq<Pid>, r: seq<Pid>, t: Table, order: seq<Pid>, visited: seq<Pid>)
    requires ScanOf(avail, q, t, order, visited) && multiset(q) == multiset(r)
    ensures ScanOf(avail, r, t, order, visited)
  {
  }

  /** Where a thread does not fit, the threads still in the heap can be sorted
      behind the visited ones. */
  lemma ScanRefuses(avail: int, q: seq<Pid>, i: nat, visited: seq<Pid>, t: Table) returns (order: seq<Pid>)
    requires Scanned(avail, q, i, visited, t) && i < |q| && q[0] in t
    requires IsHeap(q, |q| - i, KeyOf(t)) && avail + HeldBy(visited, t) < Need(t[q[0]])
    ensures ScanOf(avail, q, t, order, visited) && visited != order
  {
    var m := |q| - i;
    var rest := Sort(q[1..m], KeyOf(t));
    order := visited + [q[0]] + rest;
    RestBehind(q, m, visited, rest, t);
    assert Descending(rest, t);
    hide Completes, HeldBy, IsHeap, NonIncreasing;
    OrderMultiset(q, m, visited, rest);
    DescendingJoin(visited, q[0], rest, t);
    hide Descending;
  }

  lemma OrderMultiset(q: seq<Pid>, m: nat, visited: seq<Pid>, rest: seq<Pid>)
    requires 1 <= m <= |q| && multiset(visited) == multiset(q[m..]) && multiset(rest) == multiset(q[1..m])
    ensures multiset(visited + [q[0]] + rest) == multiset(q)
  {
    assert q == [q[0]] + q[1..m] + q[m..];
  }

  /** What is still in the heap is no needier than its front. */
  lemma RestBehind(q: seq<Pid>, m: nat, visited: seq<Pid>, rest: seq<Pid>, t: Table)
    requires 1 <= m <= |q| && IsHeap(q, m, KeyOf(t)) && multiset(rest) == multiset(q[1..m])
    ensures forall k :: 0 <= k < |rest| ==> NeedOf(t, q[0]) >= NeedOf(t, rest[k])
  {
    forall k | 0 <= k < |rest| ensures NeedOf(t, q[0]) >= NeedOf(t, rest[k]) {
      assert rest[k] in multiset(q[1..m]);
      var l :| 0 <= l < |q[1..m]| && q[1..m][l] == rest[k];
      FrontIsLargest(q, m, KeyOf(t), l + 1);
      assert q[l + 1] == rest[k];
    }
  }

  lemma DescendingJoin(a: seq<Pid>, p: Pid, b: seq<Pid>, t: Table)
    requires Descending(a, t) && Descending(b, t)
    requires forall j :: 0 <= j < |a| ==> NeedOf(t, a[j]) >= NeedOf(t, p)
    requires forall k :: 0 <= k < |b| ==> NeedOf(t, p) >= NeedOf(t, b[k])
    ensures Descending(a + [p] + b, t)
  {
  }

  lemma ScanEnds(avail: int, q: seq<Pid>, visited: seq<Pid>, t: Table)
    requires Scanned(avail, q, |q|, visited, t)
    ensures ScanOf(avail, q, t, visited, visited)
  {
    assert q[0..] == q;
  }

  /** The scan reaches the end exactly when its order completes; with no
      negative holding that is when everything fits at once. */
  lemma ScanAnswer(avail: int, q: seq<Pid>, t: Table, order: seq<Pid>, visited: seq<Pid>)
    requires ScanOf(avail, q, t, order, visited) && Lists(q, t)
    ensures visited == order <==> Completes(avail, order, t)
    ensures NonNegative(t) ==> (visited == order <==> AllFit(avail, t))
  {
    ListsPermuted(q, order, t);
    ScanStops(avail, q, t, order, visited);
    if NonNegative(t) {
      DescendingExact(avail, order, t);
    }
    hide Completes, Descending, AllFit, NonNegative, ScanOf, Lists;
  }

  lemma {:induction false} ScanStops(avail: int, q: seq<Pid>, t: Table, order: seq<Pid>, visited: seq<Pid>)
    requires ScanOf(avail, q, t, order, visited) && Lists(order, t)
    ensures visited == order <==> Completes(avail, order, t)
  {
    hide Descending, Completes, HeldBy;
    if visited != order {
      assert order == visited + order[|visited|..];
      StopsAt(avail, visited, order[|visited|..], t);
    }
  }

  lemma StopsAt(avail: int, visited: seq<Pid>, rest: seq<Pid>, t: Table)
    requires rest != [] && rest[0] in t && NeedOf(t, rest[0]) > avail + HeldBy(visited, t)
    ensures !Completes(avail, visited + rest, t)
  {
    CompletesAppend(avail, visited, rest, t);
  }

  /** How high the running value of the scan climbs. */
  lemma ScanBounds(s: Bank, q: seq<Pid>, order: seq<Pid>, visited: seq<Pid>)
    requires Conserved(s) && NonNegative(s.table) && Lists(q, s.table)
    requires ScanOf(s.avail, q, s.table, order, visited)
    ensures NoRepeat(q) || RepeatsHoldNothing(multiset(q), s.table) ==> StaysWithinBooks(s, visited)
    ensures visited == order ==>
              (s.avail + HeldBy(visited, s.table) <= OnBooks(s) <==> RepeatsHoldNothing(multiset(q), s.table))
  {
    ListsPermuted(q, order, s.table);
    ScanWithinBooksIff(s, order);
    if NoRepeat(q) {
      OnceHoldsNothing(q, s.table);
    }
    assert forall k :: 0 <= k <= |visited| ==> visited[..k] == order[..k];
  }

  lemma {:induction false} HeldAppend(visited: seq<Pid>, p: Pid, t: Table)
    requires p in t
    ensures HeldBy(visited + [p], t) == HeldBy(visited, t) + t[p].nowHave
  {
    if visited == [] {
      assert [p][1..] == [];
    } else {
      assert (visited + [p])[1..] == visited[1..] + [p];
      HeldAppend(visited[1..], p, t);
    }
  }

  /** The books balance while is_safe runs inside request. */
  lemma Bookkeeping(s: Bank, q: seq<Pid>, pid: Pid, need: int)
    requires Conserved(s) && Lists(q, s.table) && pid in s.table
    ensures var t := Tentative(s.table, pid, need);
            Conserved(Bank(s.total, s.avail - need, t, s.leaked, s.listed)) && Lists(q, t)
  {
    var t := Tentative(s.table, pid, need);
    UpdateConserves(s, pid, t[pid], s.avail - need, s.leaked);
  }

  /** The table request leaves when it grants, and the one when it refuses
      after the scan, as updates of the tentative table. */
  function GrantedTable(t: Table, pid: Pid, need: int): Table
    requires pid in t
  {
    var u := Tentative(t, pid, need);
    u[pid := u[pid].(nowNeed := 0)]
  }

  function RestoredTable(t: Table, pid: Pid, need: int): Table
    requires pid in t
  {
    var u := GrantedTable(t, pid, need);
    u[pid := u[pid].(nowHave := u[pid].nowHave - need)]
  }

  /** Same threads, holdings and claims. */
  ghost predicate SameBooks(t: Table, u: Table) {
    && t.Keys == u.Keys
    && forall p :: p in t ==> u[p].nowHave == t[p].nowHave && u[p].maxRequest == t[p].maxRequest
  }

  lemma ScanMayAnswer(s: Bank, pid: Pid, need: int, safe: bool, order: seq<Pid>)
    requires Scannable(s, pid, need)
    requires var t := Tentative(s.table, pid, need);
             multiset(order) == s.listed && Descending(order, t) && (safe <==> Completes(s.avail - need, order, t))
    ensures MayAnswer(s, pid, need, safe)
  {
  }

  /** The two ways out of the scan: how each comes from the tentative state. */
  lemma AllotPlan(s: Bank, q: seq<Pid>, pid: Pid, need: int)
    requires Conserved(s) && Lists(q, s.table) && Scannable(s, pid, need)
    ensures var t, u := Tentative(s.table, pid, need), GrantedTable(s.table, pid, need);
            && u == t[pid := t[pid].(nowNeed := 0)]
            && AfterRequest(s, pid, need, true) == s.(avail := s.avail - need, table := u)
            && Conserved(AfterRequest(s, pid, need, true)) && Lists(q, u)
    ensures var u, v := GrantedTable(s.table, pid, need), RestoredTable(s.table, pid, need);
            && v == u[pid := u[pid].(nowHave := u[pid].nowHave - need)]
            && AfterRequest(s, pid, need, false) == s.(table := v)
            && Conserved(AfterRequest(s, pid, need, false)) && Lists(q, v) && SameBooks(s.table, v)
  {
    RequestKeepsBooks(s, q, pid, need, true);
    RequestKeepsBooks(s, q, pid, need, false);
    hide Lists, Conserved, Tentative, GrantedTable, RestoredTable, AfterRequest, SameBooks;
  }

  lemma RequestKeepsBooks(s: Bank, q: seq<Pid>, pid: Pid, need: int, granted: bool)
    requires Conserved(s) && Lists(q, s.table)
    ensures var s' := AfterRequest(s, pid, need, granted);
            Conserved(s') && Lists(q, s'.table) && s'.table.Keys == s.table.Keys
  {
    ApplyConserves(s, Request(pid, need), granted);
  }

  /** Everything about the state with pid registered (again). */
  lemma WithThread(s: Bank, q: seq<Pid>, pid: Pid, claim: int)
    requires Conserved(s) && Lists(q, s.table) && s.listed == multiset(q)
    ensures var s', r := AfterAdd(s, pid, claim), q + [pid];
            && Conserved(s') && Lists(r, s'.table) && s'.listed == multiset(r)
            && (NoRepeat(r) <==> NoRepeat(q) && pid !in s.table)
  {
    ApplyConserves(s, Add(pid, claim), false);
    NoRepeatSnoc(q, s.table, pid);
    hide Conserved, Lists, NoRepeat;
  }

  /** No later entry has the same id. */
  ghost predicate LastEntry(threads: seq<(Pid, int)>, i: nat) {
    i < |threads| && forall j :: i < j < |threads| ==> threads[j].0 != threads[i].0
  }

  /** Every id given is on record with the claim given last for it and nothing
      held, and no other id is. */
  ghost predicate Registers(t: Table, threads: seq<(Pid, int)>) {
    && (forall p :: p in t ==> exists i :: 0 <= i < |threads| && LastEntry(threads, i) && threads[i].0 == p)
    && (forall i :: 0 <= i < |threads| ==> threads[i].0 in t)
    && forall i :: 0 <= i < |threads| && LastEntry(threads, i) ==> t[threads[i].0] == Details(threads[i].1, 0, 0)
  }

  ghost predicate LastClaimsWithin(total: int, threads: seq<(Pid, int)>) {
    forall i :: 0 <= i < |threads| && LastEntry(threads, i) ==> threads[i].1 <= total
  }

  /** The last entry is its id's last; before it, those of other ids stay so. */
  lemma LastEntrySnoc(init: seq<(Pid, int)>, x: (Pid, int), i: nat)
    requires i < |init|
    ensures LastEntry(init + [x], |init|)
    ensures LastEntry(init + [x], i) <==> LastEntry(init, i) && init[i].0 != x.0
  {
    var threads := init + [x];
    assert forall j :: 0 <= j < |init| ==> threads[j] == init[j];
    if LastEntry(threads, i) {
      assert threads[|init|].0 != threads[i].0;
      assert forall j :: i < j < |init| ==> threads[j].0 != threads[i].0;
    }
  }

  lemma RegistersSnoc(t: Table, init: seq<(Pid, int)>, x: (Pid, int))
    requires Registers(t, init)
    ensures Registers(t[x.0 := Details(x.1, 0, 0)], init + [x])
  {
    var threads, u := init + [x], t[x.0 := Details(x.1, 0, 0)];
    assert LastEntry(threads, |init|);
    forall p | p in u ensures exists i :: 0 <= i < |threads| && LastEntry(threads, i) && threads[i].0 == p {
      if p == x.0 {
        assert threads[|init|].0 == p;
      } else {
        var i :| 0 <= i < |init| && LastEntry(init, i) && init[i].0 == p;
        LastEntrySnoc(init, x, i);
        assert threads[i].0 == p;
      }
    }
    forall i | 0 <= i < |threads|
      ensures threads[i].0 in u && (LastEntry(threads, i) ==> u[threads[i].0] == Details(threads[i].1, 0, 0))
    {
      if i < |init| {
        LastEntrySnoc(init, x, i);
        assert threads[i] == init[i];
      }
    }
  }

  lemma EntryOf(t: Table, threads: seq<(Pid, int)>, p: Pid) returns (i: nat)
    requires Registers(t, threads) && p in t
    ensures LastEntry(threads, i) && threads[i].0 == p && t[p] == Details(threads[i].1, 0, 0)
  {
    i :| 0 <= i < |threads| && LastEntry(threads, i) && threads[i].0 == p;
  }

  lemma ClaimsWithinIff(total: int, t: Table, threads: seq<(Pid, int)>)
    requires Registers(t, threads)
    ensures AllFit(total, t) <==> LastClaimsWithin(total, threads)
    ensures forall p :: p in t ==> t[p].nowHave == 0
  {
    forall p | p in t ensures t[p].nowHave == 0 && (LastClaimsWithin(total, threads) ==> Need(t[p]) <= total) {
      var i := EntryOf(t, threads, p);
    }
    if AllFit(total, t) {
      forall i | 0 <= i < |threads| && LastEntry(threads, i) ensures threads[i].1 <= total {
        assert threads[i].0 in t && t[threads[i].0] == Details(threads[i].1, 0, 0);
      }
    }
  }

  lemma NewBank(total: int, t: Table, q: seq<Pid>)
    requires Lists(q, t) && forall p :: p in t ==> t[p].nowHave == 0
    ensures var s := Bank(total, total, t, 0, multiset(q)); Conserved(s) && (Good(s) <==> AllFit(total, t))
  {
    NothingHeld(t.Keys, t);
    ListMembers(q, t);
    FreshGoodIff(total, t, multiset(q));
  }

  lemma ListsWithout(q: seq<Pid>, t: Table, pid: Pid)
    requires Lists(q, t)
    ensures Lists(WithoutPid(q, pid), t - {pid})
    ensures pid !in t ==> WithoutPid(q, pid) == q
  {
    if pid !in t {
      WithoutAbsent(q, pid);
    }
  }

  lemma {:induction false} WithoutMultiset(q: seq<Pid>, pid: Pid)
    ensures multiset(WithoutPid(q, pid)) == multiset(q)[pid := 0]
  {
    if q != [] {
      WithoutMultiset(q[1..], pid);
      assert q == [q[0]] + q[1..];
    }
  }

  /** Everything about the state without pid. */
  lemma WithoutState(s: Bank, q: seq<Pid>, pid: Pid)
    requires Conserved(s) && Lists(q, s.table) && s.listed == multiset(q)
    ensures var s', r := AfterRemoveOne(s, pid), WithoutPid(q, pid);
            && Conserved(s') && Lists(r, s'.table) && s'.listed == multiset(r)
            && (pid !in s.table ==> r == q && s' == s)
  {
    RemoveConserves(s, [pid]);
    assert [pid][1..] == [] && AfterRemove(s, [pid]) == AfterRemoveOne(s, pid);
    ListsWithout(q, s.table, pid);
    WithoutMultiset(q, pid);
    if pid !in s.table {
      assert s.table - {pid} == s.table;
      assert multiset(q)[pid := 0] == multiset(q);
    }
  }

  /** What removal leaves: the other threads as they were, on record and on the
      list. */
  lemma {:induction false} RemoveLeaves(s: Bank, pids: seq<Pid>)
    ensures var s' := AfterRemove(s, pids);
            && s'.avail == s.avail
            && (forall p :: p in s'.table <==> p in s.table && p !in pids)
            && (forall p :: p in s'.table ==> s'.table[p] == s.table[p])
            && (forall p :: s'.listed[p] == if p in pids then 0 else s.listed[p])
    decreases |pids|
  {
    if pids != [] {
      RemoveLeaves(AfterRemoveOne(s, pids[0]), pids[1..]);
      assert forall p :: p in pids <==> p == pids[0] || p in pids[1..];
    }
  }

  lemma {:induction false} WithoutAbsent(q: seq<Pid>, pid: Pid)
    requires forall i :: 0 <= i < |q| ==> q[i] != pid
    ensures WithoutPid(q, pid) == q
  {
    if q != [] {
      WithoutAbsent(q[1..], pid);
    }
  }

  class Banker {
    const totalSrc: int
    var availableSrc: int
    var details: Table
    var threadlist: array<Pid>
    ghost var leaked: int  // holdings dropped together with their thread

    /** The list names exactly the threads on record, and the books balance. */
    ghost predicate Valid()
      reads this, threadlist
    {
      Lists(threadlist[..], details) && Conserved(State())
    }

    ghost function State(): Bank
      reads this, threadlist
    {
      Bank(totalSrc, availableSrc, details, leaked, multiset(threadlist[..]))
    }

    /** No thread is listed twice. */
    ghost predicate Distinct()
      reads this, threadlist
    {
      NoRepeat(threadlist[..])
    }

    /** Registers the given (id, claim) pairs in order, a repeated id with its
        last claim; nobody holds anything.  The bank is safe exactly when no
        registered claim exceeds the total. */
    constructor (srcNums: int, threads: seq<(Pid, int)>)
      ensures Valid() && fresh(threadlist)
      ensures totalSrc == srcNums && availableSrc == srcNums && leaked == 0
      ensures Registers(details, threads)
      ensures Good(State()) <==> LastClaimsWithin(srcNums, threads)
      ensures |threadlist[..]| == |threads|
      ensures forall i :: 0 <= i < |threads| ==> threadlist[i] == threads[i].0
    {
      var t: Table := map[];
      var q: seq<Pid> := [];
      for i := 0 to |threads|
        invariant Registers(t, threads[..i]) && |q| == i
        invariant forall j :: 0 <= j < i ==> q[j] == threads[j].0
        invariant Lists(q, t)
      {
        assert threads[..i + 1] == threads[..i] + [threads[i]];
        RegistersSnoc(t, threads[..i], threads[i]);
        hide Registers;
        t := t[threads[i].0 := Details(threads[i].1, 0, 0)];
        q := q + [threads[i].0];
      }
      assert threads[..|threads|] == threads;
      ClaimsWithinIff(srcNums, t, threads);
      NewBank(srcNums, t, q);
      hide Lists, Conserved, Good, AllFit, Registers, LastClaimsWithin;
      var a := ToArray(q);
      totalSrc, availableSrc, details, threadlist := srcNums, srcNums, t, a;
      leaked := 0;
    }

    /**
     * is_safe.  It only permutes the list, and visits threads by
     * non-increasing remaining claim (`order`), all of them unless one does
     * not fit.  The answer is whether that order completes; while no holding
     * is negative, whether what is available covers every remaining claim.
     * With no negative holding the running value stays within the books if
     * threads are listed once or those listed twice hold nothing; a complete
     * scan stays there only then.
     */
    method IsSafe() returns (safe: bool, ghost order: seq<Pid>, ghost visited: seq<Pid>)
      requires Valid()
      modifies threadlist
      ensures Valid() && multiset(threadlist[..]) == multiset(old(threadlist[..]))
      ensures multiset(order) == multiset(threadlist[..]) && Descending(order, details)
      ensures visited <= order && Completes(availableSrc, visited, details)
      ensures safe <==> visited == order
      ensures !safe ==> NeedOf(details, order[|visited|]) > availableSrc + HeldBy(visited, details)
      ensures safe <==> Completes(availableSrc, order, details)
      ensures NonNegative(details) ==> (safe <==> AllFit(availableSrc, details))
      ensures NonNegative(details) && (old(Distinct()) || RepeatsHoldNothing(multiset(threadlist[..]), details)) ==>
                StaysWithinBooks(State(), visited)
      ensures NonNegative(details) && safe ==>
                (availableSrc + HeldBy(visited, details) <= totalSrc - leaked
                 <==> RepeatsHoldNothing(multiset(threadlist[..]), details))
    {
      safe, order, visited := Scan();
      ghost var q := old(threadlist[..]);
      assert Lists(q, details) && Conserved(State());
      hide Lists, Conserved;
      ScanAnswer(availableSrc, q, details, order, visited);
      if NonNegative(details) {
        ScanBounds(State(), q, order, visited);
      }
    }

    /** The loop of is_safe. */
    method Scan() returns (safe: bool, ghost order: seq<Pid>, ghost visited: seq<Pid>)
      requires Valid()
      modifies threadlist
      ensures Valid() && multiset(threadlist[..]) == multiset(old(threadlist[..]))
      ensures ScanOf(availableSrc, old(threadlist[..]), details, order, visited)
      ensures safe <==> visited == order
    {
      hide Lists, Conserved, AllFit, Completes, Descending, Scanned, ScanOf, IsHeap, KeyOf, HeldBy;
      var available := availableSrc;
      var t := details;
      var key := KeyOf(t);
      MakeHeap(threadlist, key);
      ListsPermuted(old(threadlist[..]), threadlist[..], t);
      visited := [];
      ScanStart(availableSrc, threadlist[..], t);
      var i := 0;
      while i < threadlist.Length
        invariant 0 <= i <= threadlist.Length
        invariant multiset(threadlist[..]) == multiset(old(threadlist[..]))
        invariant Lists(threadlist[..], t)
        invariant IsHeap(threadlist[..], threadlist.Length - i, key)
        invariant Scanned(availableSrc, threadlist[..], i, visited, t)
        invariant available == availableSrc + HeldBy(visited, t)
      {
        ghost var q := threadlist[..];
        FrontListed(q, t);
        var curThread := threadlist[0];
        var d := details[curThread];
        if available < Need(d) {
          order := ScanRefuses(availableSrc, q, i, visited, t);
          ScanPermuted(availableSrc, q, old(threadlist[..]), t, order, visited);
          return false, order, visited;
        }
        available := available + d.nowHave;
        PopHeap(threadlist, threadlist.Length - i, key);
        assert Popped(q, threadlist[..], threadlist.Length - i);
        hide Popped;
        ListsPermuted(q, threadlist[..], t);
        ScanStep(availableSrc, q, threadlist[..], i, visited, t);
        visited := visited + [curThread];
        i := i + 1;
      }
      ScanEnds(availableSrc, threadlist[..], visited, t);
      ScanPermuted(availableSrc, threadlist[..], old(threadlist[..]), t, visited, visited);
      safe, order := true, visited;
    }

    /** Answers as a scan by descending remaining claim may answer, and moves as
        the transition function does for that answer.  Unless it grants, no
        holding, no claim and nothing available changes. */
    method Request(pid: Pid, need: int) returns (r: Result<bool>)
      requires Valid()
      modifies this, threadlist
      ensures Valid() && threadlist == old(threadlist)
      ensures multiset(threadlist[..]) == multiset(old(threadlist[..]))
      ensures r.Thrown? <==> pid !in old(details)
      ensures MayAnswer(old(State()), pid, need, r == Returned(true))
      ensures State() == AfterRequest(old(State()), pid, need, r == Returned(true))
      ensures r == Returned(true) ==>
                && pid in old(details) && availableSrc == old(availableSrc) - need && leaked == old(leaked)
                && var d := old(details)[pid];
                   details == old(details)[pid := Details(d.maxRequest, d.nowHave + need, 0)]
      ensures r == Returned(false) ==>
                && pid in old(details)
                && var d := old(details)[pid];
                   details ==
                     if need + d.nowHave > d.maxRequest then old(details)
                     else if need > old(availableSrc) then
                       old(details)[pid := Details(d.maxRequest, d.nowHave, need)]
                     else old(details)[pid := Details(d.maxRequest, d.nowHave, 0)]
      ensures r != Returned(true) ==>
                availableSrc == old(availableSrc) && leaked == old(leaked) && SameBooks(old(details), details)
    {
      if pid !in details {
        return Thrown;
      }
      RequestKeepsBooks(State(), threadlist[..], pid, need, false);
      hide Lists, Conserved;
      var d := details[pid];
      if need + d.nowHave > d.maxRequest {
        return Returned(false);
      }
      if need > availableSrc {
        details := details[pid := d.(nowNeed := need)];
        return Returned(false);
      }
      var granted := Allot(pid, need);
      return Returned(granted);
    }

    /** The second half of request: allocate, scan, and roll back if the scan
        fails. */
    method Allot(pid: Pid, need: int) returns (granted: bool)
      requires Valid() && Scannable(State(), pid, need)
      modifies this, threadlist
      ensures Valid() && threadlist == old(threadlist)
      ensures multiset(threadlist[..]) == multiset(old(threadlist[..]))
      ensures MayAnswer(old(State()), pid, need, granted)
      ensures State() == AfterRequest(old(State()), pid, need, granted)
      ensures !granted ==>
                availableSrc == old(availableSrc) && leaked == old(leaked) && SameBooks(old(details), details)
    {
      ghost var s := State();
      hide Lists, Conserved, MayAnswer, SameBooks, AfterRequest, Tentative;
      granted := Tentatively(pid, need);
      Settle(pid, need, granted, s);
    }

    /** Allocates and scans. */
    method Tentatively(pid: Pid, need: int) returns (safe: bool)
      requires Valid() && Scannable(State(), pid, need)
      modifies this, threadlist
      ensures Valid() && threadlist == old(threadlist)
      ensures MayAnswer(old(State()), pid, need, safe)
      ensures State() ==
              old(State()).(avail := old(availableSrc) - need, table := Tentative(old(details), pid, need))
    {
      ghost var s, q := State(), threadlist[..];
      Bookkeeping(s, q, pid, need);
      ghost var t := Tentative(s.table, pid, need);
      assert t == details[pid := details[pid].(nowHave := details[pid].nowHave + need)];
      hide Lists, Conserved, AllFit, NonNegative, Descending, Completes, RepeatsHoldNothing, HeldBy;
      hide Tentative, NoRepeat, MayAnswer, NeedOf, StaysWithinBooks;
      availableSrc := availableSrc - need;
      details := details[pid := details[pid].(nowHave := details[pid].nowHave + need)];
      ghost var order, visited;
      safe, order, visited := IsSafe();
      ScanMayAnswer(s, pid, need, safe, order);
    }

    /** What request does with the answer of is_safe: keep the allocation or
        take it back. */
    method Settle(pid: Pid, need: int, safe: bool, ghost s: Bank)
      requires Valid() && Scannable(s, pid, need) && Conserved(s)
      requires State() == s.(avail := s.avail - need, table := Tentative(s.table, pid, need))
      modifies this
      ensures Valid() && threadlist == old(threadlist)
      ensures State() == AfterRequest(s, pid, need, safe)
      ensures !safe ==> availableSrc == s.avail && leaked == s.leaked && SameBooks(s.table, details)
    {
      ghost var q := threadlist[..];
      assert Lists(q, s.table);
      AllotPlan(s, q, pid, need);
      hide Lists, Conserved, Tentative, GrantedTable, RestoredTable, AfterRequest, SameBooks;
      if safe {
        details := details[pid := details[pid].(nowNeed := 0)];
        assert details == GrantedTable(s.table, pid, need);
      } else {
        details := details[pid := details[pid].(nowNeed := 0)];
        assert details == GrantedTable(s.table, pid, need);
        availableSrc := availableSrc + need;
        details := details[pid := details[pid].(nowHave := details[pid].nowHave - need)];
        assert details == RestoredTable(s.table, pid, need);
      }
    }

    /** Releases everything for 0, and otherwise exactly the amount given if the
        thread holds that much; any other call changes nothing. */
    method UpdateSrc(pid: Pid, nums: int) returns (r: Result<()>)
      requires Valid()
      modifies this
      ensures Valid() && threadlist == old(threadlist)
      ensures State() == AfterRelease(old(State()), pid, nums)
      ensures details.Keys == old(details).Keys
      ensures forall p :: p in details ==>
                && details[p].maxRequest == old(details)[p].maxRequest && details[p].nowNeed == old(details)[p].nowNeed
                && (p != pid ==> details[p].nowHave == old(details)[p].nowHave)
      ensures pid in details && nums == 0 ==>
                details[pid].nowHave == 0 && availableSrc == old(availableSrc) + old(details)[pid].nowHave
      ensures pid in details && 0 < nums <= old(details)[pid].nowHave ==>
                && details[pid].nowHave == old(details)[pid].nowHave - nums
                && availableSrc == old(availableSrc) + nums
      ensures pid !in details || nums < 0 || (nums != 0 && nums > old(details)[pid].nowHave) ==>
                details == old(details) && availableSrc == old(availableSrc)
      ensures r == if pid in old(details) then Returned(()) else Thrown
    {
      if pid !in details {
        return Thrown;
      }
      ApplyConserves(State(), Release(pid, nums), false);
      var d := details[pid];
      if nums == 0 {
        availableSrc := availableSrc + d.nowHave;
        details := details[pid := d.(nowHave := 0)];
      } else if nums <= d.nowHave && nums > 0 {
        availableSrc := availableSrc + nums;
        details := details[pid := d.(nowHave := d.nowHave - nums)];
      } else {
        assert details[pid := d.(nowHave := d.nowHave - 0)] == details;
      }
      return Returned(());
    }

    /** Registers a thread; an id already on record is overwritten and listed
        a second time, and what it held leaves the books. */
    method AddThread(pid: Pid, maxRequest: int)
      requires Valid()
      modifies this
      ensures Valid() && fresh(threadlist)
      ensures threadlist[..] == old(threadlist[..]) + [pid]
      ensures State() == AfterAdd(old(State()), pid, maxRequest)
      ensures details == old(details)[pid := Details(maxRequest, 0, 0)] && availableSrc == old(availableSrc)
      ensures Distinct() <==> old(Distinct()) && pid !in old(details)
    {
      ghost var s := AfterAdd(State(), pid, maxRequest);
      WithThread(State(), threadlist[..], pid, maxRequest);
      hide Conserved, Lists, NoRepeat;
      leaked := leaked + HoldingOf(details, pid);
      details := details[pid := Details(maxRequest, 0, 0)];
      threadlist := ToArray(threadlist[..] + [pid]);
      assert State() == s;
    }

    /** Drops each known id from the list and the table; unknown ids are
        ignored.  What a dropped thread held leaves the books. */
    method Remove(pids: seq<Pid>)
      requires Valid()
      modifies this, threadlist
      ensures Valid()
      ensures threadlist[..] == WithoutPids(old(threadlist[..]), pids)
      ensures State() == AfterRemove(old(State()), pids)
      ensures availableSrc == old(availableSrc)
      ensures forall p :: p in details <==> p in old(details) && p !in pids
      ensures forall p :: p in details ==> details[p] == old(details)[p]
      ensures forall p :: multiset(threadlist[..])[p] == if p in pids then 0 else multiset(old(threadlist[..]))[p]
    {
      RemoveLeaves(State(), pids);
      var i := 0;
      while i < |pids|
        invariant 0 <= i <= |pids| && Valid()
        invariant threadlist == old(threadlist) || fresh(threadlist)
        invariant WithoutPids(threadlist[..], pids[i..]) == WithoutPids(old(threadlist[..]), pids)
        invariant AfterRemove(State(), pids[i..]) == AfterRemove(old(State()), pids)
      {
        ghost var s, q := State(), threadlist[..];
        RemoveOne(pids[i]);
        assert pids[i..][1..] == pids[i + 1..];
        i := i + 1;
      }
    }

    method RemoveOne(pid: Pid)
      requires Valid()
      modifies this, threadlist
      ensures Valid() && (threadlist == old(threadlist) || fresh(threadlist))
      ensures threadlist[..] == WithoutPid(old(threadlist[..]), pid)
      ensures State() == AfterRemoveOne(old(State()), pid)
    {
      ghost var s, q := State(), threadlist[..];
      WithoutState(s, q, pid);
      hide Conserved, Lists;
      if pid in details {
        threadlist := EraseRemove(threadlist, pid);
        leaked := leaked + HoldingOf(details, pid);
        details := details - {pid};
      }
    }
  }
}
