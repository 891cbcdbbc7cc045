/**
 * Single-resource deadlock avoidance on plain values: completion orders and
 * the scans that look for one.  BankerBooks.dfy has the banker's operations,
 * BankerRuns.dfy their safety, Banker.dfy the class itself.
 */
module BankerTheory {

  /** What the banker records per thread: its claim, what it holds, and the
      size of its last request that found too little available. */
  datatype Details = Details(maxRequest: int, nowHave: int, nowNeed: int)

  /** A thread id. */
  datatype Pid = Pid(id: int)

  type Table = map<Pid, Details>

  /** What a thread may still ask for. */
  function Need(d: Details): int {
    d.maxRequest - d.nowHave
  }

  function NeedOf(t: Table, pid: Pid): int {
    if pid in t then Need(t[pid]) else 0
  }

  ghost predicate NonNegative(t: Table) {
    forall p :: p in t ==> t[p].nowHave >= 0
  }

  // ---------------------------------------------------------------------
  // Completion orders
  // ---------------------------------------------------------------------

  /** Threads can finish one after the other in this order: each finds its
      whole remaining claim available and then returns what it held. */
  predicate Completes(avail: int, order: seq<Pid>, t: Table)
    decreases |order|
  {
    order == [] ||
    (order[0] in t && Need(t[order[0]]) <= avail && Completes(avail + t[order[0]].nowHave, order[1..], t))
  }

  /** Every thread exactly once. */
  ghost predicate OrderOf(order: seq<Pid>, t: Table) {
    multiset(order) == multiset(t.Keys)
  }

  /** Some order lets every thread obtain its full claim and finish. */
  ghost predicate Safe(avail: int, t: Table) {
    exists order :: OrderOf(order, t) && Completes(avail, order, t)
  }

  /** What is available covers every single thread's remaining claim. */
  ghost predicate AllFit(avail: int, t: Table) {
    forall p :: p in t ==> Need(t[p]) <= avail
  }

  ghost predicate Ascending(order: seq<Pid>, t: Table) {
    forall i, j :: 0 <= i < j < |order| ==> NeedOf(t, order[i]) <= NeedOf(t, order[j])
  }

  ghost predicate Descending(order: seq<Pid>, t: Table) {
    forall i, j :: 0 <= i < j < |order| ==> NeedOf(t, order[i]) >= NeedOf(t, order[j])
  }

  /** What the threads of an order hold together. */
  function HeldBy(order: seq<Pid>, t: Table): int {
    if order == [] then 0
    else (if order[0] in t then t[order[0]].nowHave else 0) + HeldBy(order[1..], t)
  }

  /** The list names exactly the threads of the table, some perhaps twice. */
  ghost predicate Lists(q: seq<Pid>, t: Table) {
    && (forall i :: 0 <= i < |q| ==> q[i] in t)
    && (forall p :: p in t ==> p in q)
  }

  ghost predicate NoRepeat(q: seq<Pid>) {
    forall i, j :: 0 <= i < j < |q| ==> q[i] != q[j]
  }

  lemma ListsPermuted(q: seq<Pid>, r: seq<Pid>, t: Table)
    requires Lists(q, t) && multiset(q) == multiset(r)
    ensures Lists(r, t)
  {
    forall i | 0 <= i < |r| ensures r[i] in t {
      assert r[i] in multiset(q);
    }
    forall p | p in t ensures p in r {
      assert p in multiset(r);
    }
  }

  lemma OrderMembers(order: seq<Pid>, t: Table)
    requires OrderOf(order, t)
    ensures forall i :: 0 <= i < |order| ==> order[i] in t
    ensures forall p :: p in t ==> p in order
  {
    forall i | 0 <= i < |order| ensures order[i] in t {
      assert order[i] in multiset(order);
      assert order[i] in multiset(t.Keys);
    }
    forall p | p in t ensures p in order {
      assert p in multiset(t.Keys);
      assert p in multiset(order);
    }
  }

  lemma {:induction false} CompletesMonotone(avail: int, more: int, order: seq<Pid>, t: Table)
    requires Completes(avail, order, t) && avail <= more
    ensures Completes(more, order, t)
    decreases |order|
  {
    if order != [] {
      var h := t[order[0]].nowHave;
      CompletesMonotone(avail + h, more + h, order[1..], t);
    }
  }

  lemma {:induction false} CompletesAppend(avail: int, a: seq<Pid>, b: seq<Pid>, t: Table)
    ensures Completes(avail, a + b, t) <==> Completes(avail, a, t) && Completes(avail + HeldBy(a, t), b, t)
    decreases |a|
  {
    if a == [] {
      assert a + b == b;
    } else {
      assert (a + b)[1..] == a[1..] + b;
      if a[0] in t {
        CompletesAppend(avail + t[a[0]].nowHave, a[1..], b, t);
      }
    }
  }

  lemma {:induction false} HeldNonNegative(order: seq<Pid>, t: Table)
    requires NonNegative(t)
    ensures HeldBy(order, t) >= 0
  {
    if order != [] {
      HeldNonNegative(order[1..], t);
    }
  }

  // ---------------------------------------------------------------------
  // The exchange argument
  // ---------------------------------------------------------------------

  function Cut(order: seq<Pid>, i: nat): seq<Pid>
    requires i < |order|
  {
    order[..i] + order[i + 1..]
  }

  lemma CutMultiset(order: seq<Pid>, i: nat)
    requires i < |order|
    ensures multiset(Cut(order, i)) == multiset(order) - multiset{order[i]}
    ensures multiset([order[i]] + Cut(order, i)) == multiset(order)
  {
    SplitMultiset(order, i);
    var rest := Cut(order, i);
    assert multiset(rest) == multiset(order[..i]) + multiset(order[i + 1..]);
    hide Cut;
    assert multiset([order[i]] + rest) == multiset{order[i]} + multiset(rest);
  }

  lemma SplitMultiset(order: seq<Pid>, i: nat)
    requires i < |order|
    ensures multiset(order) == multiset(order[..i]) + multiset{order[i]} + multiset(order[i + 1..])
  {
    assert order == order[..i] + [order[i]] + order[i + 1..];
  }

  /** If a thread has already finished, the rest of the order still completes. */
  lemma {:induction false} CutCompletes(avail: int, order: seq<Pid>, i: nat, t: Table)
    requires i < |order| && Completes(avail, order, t) && order[i] in t
    requires i == 0 || t[order[i]].nowHave >= 0
    ensures Completes(avail + t[order[i]].nowHave, Cut(order, i), t)
    decreases |order|
  {
    if i == 0 {
      assert Cut(order, 0) == order[1..];
    } else {
      var h := t[order[0]].nowHave;
      CutCompletes(avail + h, order[1..], i - 1, t);
      assert Cut(order, i)[1..] == Cut(order[1..], i - 1);
    }
  }

  /** The least needy thread of a completion order may go first, and the
      others still complete after it. */
  lemma LeastFirst(avail: int, order: seq<Pid>, other: seq<Pid>, t: Table) returns (rest: seq<Pid>)
    requires NonNegative(t) && order != [] && order[0] in t
    requires multiset(order) == multiset(other) && Completes(avail, other, t)
    requires Ascending(order, t)
    ensures Need(t[order[0]]) <= avail && Completes(avail + t[order[0]].nowHave, rest, t)
    ensures multiset(order[1..]) == multiset(rest)
  {
    SameFirst(order, other);
    AscendingHead(order, t, other[0]);
    var i :| 0 <= i < |other| && other[i] == order[0];
    CutCompletes(avail, other, i, t);
    SameRest(order, other, i);
    rest := Cut(other, i);
  }

  lemma {:induction false} AscendingBest(avail: int, order: seq<Pid>, other: seq<Pid>, t: Table)
    requires NonNegative(t) && Ascending(order, t)
    requires multiset(order) == multiset(other) && Completes(avail, other, t)
    requires forall i :: 0 <= i < |order| ==> order[i] in t
    ensures Completes(avail, order, t)
    decreases |order|
  {
    if order != [] {
      AscendingHead(order, t, order[0]);
      var rest := LeastFirst(avail, order, other, t);
      hide Ascending, NeedOf, NonNegative;
      AscendingBest(avail + t[order[0]].nowHave, order[1..], rest, t);
    }
  }

  lemma SameRest(order: seq<Pid>, other: seq<Pid>, i: nat)
    requires order != [] && multiset(order) == multiset(other)
    requires i < |other| && other[i] == order[0]
    ensures multiset(order[1..]) == multiset(Cut(other, i))
  {
    hide Cut;
    CutMultiset(other, i);
    assert order == [order[0]] + order[1..];
  }

  lemma AscendingHead(order: seq<Pid>, t: Table, q: Pid)
    requires Ascending(order, t) && q in order
    ensures NeedOf(t, order[0]) <= NeedOf(t, q) && Ascending(order[1..], t)
  {
    var j :| 0 <= j < |order| && order[j] == q;
  }

  lemma SameFirst(a: seq<Pid>, b: seq<Pid>)
    requires a != [] && multiset(a) == multiset(b)
    ensures b != [] && a[0] in b && b[0] in a
  {
    assert a[0] in multiset(a);
    if b != [] {
      assert b[0] in multiset(b);
    }
  }

  /** The scan by ascending remaining need is an exact test of safety. */
  lemma GreedyExact(avail: int, order: seq<Pid>, t: Table)
    requires NonNegative(t) && OrderOf(order, t) && Ascending(order, t)
    ensures Completes(avail, order, t) <==> Safe(avail, t)
  {
    if Safe(avail, t) {
      var other :| OrderOf(other, t) && Completes(avail, other, t);
      OrderMembers(order, t);
      AscendingBest(avail, order, other, t);
    }
  }

  // ---------------------------------------------------------------------
  // The scan the code makes
  // ---------------------------------------------------------------------

  /** Every thread of the order fits at once, and none holds less than nothing. */
  ghost predicate EachFits(avail: int, order: seq<Pid>, t: Table) {
    forall i :: 0 <= i < |order| ==>
      order[i] in t && t[order[i]].nowHave >= 0 && Need(t[order[i]]) <= avail
  }

  lemma {:induction false} FitCompletes(avail: int, order: seq<Pid>, t: Table)
    requires EachFits(avail, order, t)
    ensures Completes(avail, order, t)
    decreases |order|
  {
    if order != [] {
      FitCompletes(avail + t[order[0]].nowHave, order[1..], t);
    }
  }

  /** A descending scan whose first thread fits meets no obstacle. */
  lemma DescendingFits(avail: int, order: seq<Pid>, t: Table)
    requires Descending(order, t) && forall i :: 0 <= i < |order| ==> order[i] in t && t[order[i]].nowHave >= 0
    ensures Completes(avail, order, t) <==> EachFits(avail, order, t)
  {
    if EachFits(avail, order, t) {
      FitCompletes(avail, order, t);
    }
    if Completes(avail, order, t) {
      forall i | 0 <= i < |order| ensures Need(t[order[i]]) <= avail {
        if i > 0 {
          assert NeedOf(t, order[0]) >= NeedOf(t, order[i]);
        }
      }
    }
  }

  /** The scan by descending remaining need succeeds exactly when everything
      fits at once, and then every order is a completion order. */
  lemma DescendingExact(avail: int, order: seq<Pid>, t: Table)
    requires NonNegative(t) && Lists(order, t) && Descending(order, t)
    ensures Completes(avail, order, t) <==> AllFit(avail, t)
    ensures AllFit(avail, t) ==> forall other :: OrderOf(other, t) ==> Completes(avail, other, t)
  {
    if AllFit(avail, t) {
      assert EachFits(avail, order, t);
      FitCompletes(avail, order, t);
      forall other | OrderOf(other, t) ensures Completes(avail, other, t) {
        OrderMembers(other, t);
        FitCompletes(avail, other, t);
      }
    } else {
      var p :| p in t && Need(t[p]) > avail;
      var i :| 0 <= i < |order| && order[i] == p;
      assert NeedOf(t, order[0]) >= NeedOf(t, order[i]);
    }
  }

  // ---------------------------------------------------------------------
  // The scan with one holding below zero
  // ---------------------------------------------------------------------

  /** Among equal claims, pid goes last. */
  ghost predicate Late(order: seq<Pid>, pid: Pid, t: Table) {
    forall i, j :: 0 <= i < j < |order| && order[i] == pid && order[j] != pid ==>
      NeedOf(t, pid) > NeedOf(t, order[j])
  }

  /** Only pid may hold less than nothing. */
  ghost predicate NonNegativeBut(t: Table, pid: Pid) {
    forall p :: p in t && p != pid ==> t[p].nowHave >= 0
  }

  /** The front of a late order is as needy as that of any other descending
      one, and if it is pid, the other one starts with pid too. */
  lemma LateFront(order: seq<Pid>, other: seq<Pid>, pid: Pid, t: Table)
    requires order != [] && multiset(order) == multiset(other)
    requires Descending(order, t) && Descending(other, t) && Late(order, pid, t)
    ensures other != [] && order[0] in other && NeedOf(t, other[0]) == NeedOf(t, order[0])
    ensures order[0] == pid ==> other[0] == pid
  {
    SameFirst(order, other);
    var i :| 0 <= i < |other| && other[i] == order[0];
    var j :| 0 <= j < |order| && order[j] == other[0];
    assert NeedOf(t, other[0]) >= NeedOf(t, other[i]);
    assert NeedOf(t, order[0]) >= NeedOf(t, order[j]);
  }

  /** The front of a late order may go first, and the others still complete. */
  lemma LateFirst(avail: int, order: seq<Pid>, other: seq<Pid>, pid: Pid, t: Table) returns (rest: seq<Pid>)
    requires order != [] && order[0] in t && (order[0] != pid ==> t[order[0]].nowHave >= 0)
    requires multiset(order) == multiset(other) && Completes(avail, other, t)
    requires Descending(order, t) && Descending(other, t) && Late(order, pid, t)
    ensures Need(t[order[0]]) <= avail && Completes(avail + t[order[0]].nowHave, rest, t)
    ensures multiset(order[1..]) == multiset(rest) && Descending(rest, t)
    ensures Descending(order[1..], t) && Late(order[1..], pid, t)
  {
    LateFront(order, other, pid, t);
    LateTail(order, pid, t);
    var i := if order[0] == pid then 0 else FirstIndex(other, order[0]);
    rest := Cut(other, i);
    hide Late, Cut;
    CutDescending(other, i, t);
    hide Descending;
    SameRest(order, other, i);
    CutCompletes(avail, other, i, t);
  }

  /** If any descending order completes, so does every one in which pid goes
      last among equal claims. */
  lemma {:induction false} LateBest(avail: int, order: seq<Pid>, other: seq<Pid>, pid: Pid, t: Table)
    requires NonNegativeBut(t, pid) && multiset(order) == multiset(other)
    requires Descending(order, t) && Descending(other, t) && Late(order, pid, t)
    requires forall i :: 0 <= i < |order| ==> order[i] in t
    requires Completes(avail, other, t)
    ensures Completes(avail, order, t)
    decreases |order|
  {
    if order != [] {
      var rest := LateFirst(avail, order, other, pid, t);
      hide Late, Descending;
      LateBest(avail + t[order[0]].nowHave, order[1..], rest, pid, t);
    }
  }

  function FirstIndex(q: seq<Pid>, p: Pid): (i: nat)
    requires p in q
    ensures i < |q| && q[i] == p
  {
    if q[0] == p then 0 else 1 + FirstIndex(q[1..], p)
  }

  lemma LateTail(order: seq<Pid>, pid: Pid, t: Table)
    requires order != [] && Descending(order, t) && Late(order, pid, t)
    ensures Descending(order[1..], t) && Late(order[1..], pid, t)
  {
  }

  lemma CutDescending(order: seq<Pid>, i: nat, t: Table)
    requires i < |order| && Descending(order, t)
    ensures Descending(Cut(order, i), t)
  {
    var r := Cut(order, i);
    assert forall k :: 0 <= k < |r| ==> r[k] == order[if k < i then k else k + 1];
  }

  // ---------------------------------------------------------------------
  // Every list can be put in order
  // ---------------------------------------------------------------------

  ghost predicate NonIncreasing(q: seq<Pid>, w: Pid -> int) {
    forall i, j :: 0 <= i < j < |q| ==> w(q[i]) >= w(q[j])
  }

  /** A position of largest weight. */
  lemma {:induction false} Largest(q: seq<Pid>, w: Pid -> int) returns (k: nat)
    requires q != []
    ensures k < |q| && forall i :: 0 <= i < |q| ==> w(q[k]) >= w(q[i])
  {
    k := 0;
    if |q| > 1 {
      var m := Largest(q[1..], w);
      assert forall i :: 0 <= i < |q| - 1 ==> q[i + 1] == q[1..][i];
      if w(q[m + 1]) > w(q[0]) {
        k := m + 1;
      }
      forall i | 0 <= i < |q| ensures w(q[k]) >= w(q[i]) {
        if i > 0 {
          assert q[i] == q[1..][i - 1];
        }
      }
    }
  }

  lemma {:induction false} Sort(q: seq<Pid>, w: Pid -> int) returns (r: seq<Pid>)
    ensures multiset(r) == multiset(q) && NonIncreasing(r, w)
    decreases |q|
  {
    if q == [] {
      r := [];
    } else {
      var k := Largest(q, w);
      var rest := Sort(Cut(q, k), w);
      CutMultiset(q, k);
      LargestFirst(q, k, rest, w);
      r := [q[k]] + rest;
    }
  }

  lemma LargestFirst(q: seq<Pid>, k: nat, rest: seq<Pid>, w: Pid -> int)
    requires k < |q| && multiset(rest) == multiset(q) - multiset{q[k]}
    requires forall i :: 0 <= i < |q| ==> w(q[k]) >= w(q[i])
    ensures forall i :: 0 <= i < |rest| ==> w(q[k]) >= w(rest[i])
  {
    forall i | 0 <= i < |rest| ensures w(q[k]) >= w(rest[i]) {
      assert rest[i] in multiset(rest);
      assert rest[i] in q;
    }
  }

  /** Every list has a descending order in which pid goes last among equals. */
  lemma LateOrder(q: seq<Pid>, pid: Pid, t: Table) returns (order: seq<Pid>)
    ensures multiset(order) == multiset(q) && Descending(order, t) && Late(order, pid, t)
  {
    var w: Pid -> int := p => 2 * NeedOf(t, p) + if p == pid then 0 else 1;
    order := Sort(q, w);
    hide NeedOf;
    forall i, j | 0 <= i < j < |order| ensures NeedOf(t, order[i]) >= NeedOf(t, order[j])
      ensures order[i] == pid && order[j] != pid ==> NeedOf(t, pid) > NeedOf(t, order[j])
    {
      assert w(order[i]) >= w(order[j]);
    }
  }

  /** An ascending order of any table. */
  lemma AscendingOrder(t: Table) returns (order: seq<Pid>)
    ensures OrderOf(order, t) && Ascending(order, t)
  {
    var q := ListMultiset(multiset(t.Keys));
    order := Sort(q, p => -NeedOf(t, p));
  }

  lemma {:induction false} ListMultiset(m: multiset<Pid>) returns (q: seq<Pid>)
    ensures multiset(q) == m
    decreases |m|
  {
    if m == multiset{} {
      q := [];
    } else {
      var p :| p in m;
      q := ListMultiset(m - multiset{p});
      q := [p] + q;
      assert m == (m - multiset{p}) + multiset{p};
    }
  }

  lemma FitIsSafe(avail: int, t: Table)
    requires NonNegative(t) && AllFit(avail, t)
    ensures Safe(avail, t)
  {
    var order := ListMultiset(multiset(t.Keys));
    OrderMembers(order, t);
    FitCompletes(avail, order, t);
  }

  /** The code's scan is stricter than safety: here the ascending scan
      completes and the descending one does not. */
  lemma StricterThanSafe()
    ensures var t := map[Pid(1) := Details(8, 5, 0), Pid(2) := Details(4, 2, 0)];
            Safe(2, t) && !AllFit(2, t)
  {
    var t := map[Pid(1) := Details(8, 5, 0), Pid(2) := Details(4, 2, 0)];
    assert t.Keys == {Pid(1), Pid(2)};
    var order := [Pid(2), Pid(1)];
    assert OrderOf(order, t);
    assert order[1..] == [Pid(1)] && [Pid(1)][1..] == [];
    assert Completes(4, [Pid(1)], t);
    assert Need(t[Pid(1)]) == 3;
  }
}
