/**
 * What the class promises, to grant a request exactly when the result is safe,
 * against what its descending scan does.  The strict scan keeps a bank roomy:
 * every single thread could still be given its whole claim at once.
 */
module BankerPromise {
  import opened BankerTheory
  import opened BankerBooks
  import opened BankerRuns

  /** Good, and what is available covers every single remaining claim. */
  ghost predicate Roomy(s: Bank) {
    Good(s) && AllFit(s.avail, s.table)
  }

  /** What is available covers the requester's remaining claim and, after the
      request, that of every other thread. */
  ghost predicate Covered(s: Bank, pid: Pid, need: int)
    requires pid in s.table
  {
    && Need(s.table[pid]) <= s.avail
    && forall p :: p in s.table && p != pid ==> Need(s.table[p]) + need <= s.avail
  }

  // ---------------------------------------------------------------------
  // When the promise is kept
  // ---------------------------------------------------------------------

  lemma AllocateKeeps(s: Bank, pid: Pid, need: int)
    requires Sound(s) && pid in s.table && s.table[pid].nowHave + need >= 0
    ensures Sound(Allocate(s, pid, need))
  {
    UpdateConserves(s, pid, Allocate(s, pid, need).table[pid], s.avail - need, s.leaked);
  }

  /** In a roomy bank every request within the claim is safe to grant: the
      requester finishes first, and then there is at least as much as before. */
  lemma RoomyAllocates(s: Bank, pid: Pid, need: int)
    requires Roomy(s) && pid in s.table && 0 <= s.table[pid].nowHave + need <= s.table[pid].maxRequest
    ensures Good(Allocate(s, pid, need))
  {
    AllocateKeeps(s, pid, need);
    var u := Allocate(s, pid, need).table;
    var rest := ListMultiset(multiset(u.Keys - {pid}));
    forall i | 0 <= i < |rest| ensures rest[i] in u && rest[i] != pid {
      assert rest[i] in multiset(rest);
    }
    assert EachFits(s.avail + s.table[pid].nowHave, rest, u);
    FitCompletes(s.avail + s.table[pid].nowHave, rest, u);
    FirstThenRest(s.avail - need, pid, rest, u);
  }

  lemma FirstThenRest(avail: int, pid: Pid, rest: seq<Pid>, u: Table)
    requires pid in u && multiset(rest) == multiset(u.Keys - {pid}) && Need(u[pid]) <= avail
    requires Completes(avail + u[pid].nowHave, rest, u)
    ensures Safe(avail, u)
  {
    var order := [pid] + rest;
    assert order[1..] == rest;
    assert multiset(u.Keys) == multiset(u.Keys - {pid}) + multiset{pid};
    assert OrderOf(order, u);
  }

  /** Giving something back is safe. */
  lemma GivingBackSafe(s: Bank, pid: Pid, need: int)
    requires Good(s) && pid in s.table && need < 0 <= s.table[pid].nowHave + need
    ensures Good(Allocate(s, pid, need))
  {
    AllocateKeeps(s, pid, need);
    ReleaseSafe(s, pid, -need);
    var r := AfterRelease(s, pid, -need);
    SameAsRelease(s, pid, need);
    hide Conserved, Listed, Safe, Allocate, AfterRelease;
    SameHoldings(r.avail, r.table, Allocate(s, pid, need).table);
  }

  /** It differs from a release only in the size of the last request. */
  lemma SameAsRelease(s: Bank, pid: Pid, need: int)
    requires pid in s.table && need < 0 <= s.table[pid].nowHave + need
    ensures var r, a := AfterRelease(s, pid, -need), Allocate(s, pid, need);
            && r.avail == a.avail && r.table.Keys == a.table.Keys
            && forall p :: p in r.table ==>
                 Need(a.table[p]) == Need(r.table[p]) && a.table[p].nowHave == r.table[p].nowHave
  {
  }

  /** Where the promise to grant what is safe is broken in a roomy bank:
      granting is always safe, and is refused as soon as another thread's
      remaining claim would no longer be covered. */
  lemma RefusesSafeRequest(s: Bank, pid: Pid, need: int, granted: bool)
    requires Roomy(s) && pid in s.table && 0 <= s.table[pid].nowHave + need <= s.table[pid].maxRequest
    requires MayAnswer(s, pid, need, granted)
    ensures Good(Allocate(s, pid, need))
    ensures !granted <==> exists p :: p in s.table && p != pid && Need(s.table[p]) + need > s.avail
  {
    RoomyAllocates(s, pid, need);
    GrantedIff(s, pid, need, granted);
  }

  /** The answer agrees with the safety of the result exactly when: in a roomy
      bank, or when something is given back, the request is covered; in any
      other bank, the result fails the ascending scan. */
  lemma PromiseKeptIff(s: Bank, pid: Pid, need: int, granted: bool)
    requires Good(s) && pid in s.table && 0 <= s.table[pid].nowHave + need <= s.table[pid].maxRequest
    requires MayAnswer(s, pid, need, granted)
    ensures (granted <==> Good(Allocate(s, pid, need))) <==>
            if Roomy(s) || need < 0 then Covered(s, pid, need)
            else !AscendingScan(s.avail - need, Allocate(s, pid, need).table)
  {
    GrantedIff(s, pid, need, granted);
    assert granted <==> Covered(s, pid, need);
    hide MayAnswer, AllFit, Covered, AscendingScan;
    if Roomy(s) {
      RoomyAllocates(s, pid, need);
    } else if need < 0 {
      GivingBackSafe(s, pid, need);
    } else {
      TightRefuses(s, pid, need, granted);
      AllocateKeeps(s, pid, need);
      assert Sound(s) && NonNegative(Allocate(s, pid, need).table);
      hide Sound, Safe, NonNegative;
      AscendingScanExact(s.avail - need, Allocate(s, pid, need).table);
    }
  }

  /** A bank that is good but not roomy refuses every request. */
  lemma TightRefuses(s: Bank, pid: Pid, need: int, granted: bool)
    requires Good(s) && !Roomy(s) && pid in s.table && need >= 0
    requires MayAnswer(s, pid, need, granted)
    ensures !granted
  {
    GrantedIff(s, pid, need, granted);
    hide MayAnswer;
    var p :| p in s.table && Need(s.table[p]) > s.avail;
  }

  /** While some thread has the whole total still to claim, every other thread
      is refused everything. */
  lemma FullClaimBlocksOthers(s: Bank, pid: Pid, other: Pid, need: int, granted: bool)
    requires Good(s) && pid in s.table && other in s.table && other != pid
    requires Need(s.table[other]) == s.total && need > 0
    requires MayAnswer(s, pid, need, granted)
    ensures !granted
  {
    GrantedIff(s, pid, need, granted);
    HeldInNonNegative(s.table.Keys, s.table);
  }

  // ---------------------------------------------------------------------
  // Requests below zero
  // ---------------------------------------------------------------------

  /** A scan past the one thread that holds less than nothing. */
  lemma CompletesPast(avail: int, a: seq<Pid>, pid: Pid, b: seq<Pid>, t: Table)
    requires pid in t
    ensures Completes(avail, a + [pid] + b, t) <==>
            && Completes(avail, a, t) && Need(t[pid]) <= avail + HeldBy(a, t)
            && Completes(avail + t[pid].nowHave + HeldBy(a, t), b, t)
  {
    CompletesAppend(avail, a + [pid], b, t);
    CompletesAppend(avail, a, [pid], t);
    HeldConcat(a, [pid], t);
    assert [pid][1..] == [];
    assert HeldBy([pid], t) == t[pid].nowHave;
  }

  /** It completes when everything fits both before and after that thread. */
  lemma FitsPast(avail: int, order: seq<Pid>, i: nat, t: Table)
    requires i < |order| && order[i] in t && Need(t[order[i]]) <= avail
    requires EachFits(avail, order[..i], t) && EachFits(avail + t[order[i]].nowHave, order[i + 1..], t)
    ensures Completes(avail, order, t)
  {
    var a, pid, b := order[..i], order[i], order[i + 1..];
    assert order == a + [pid] + b;
    FitCompletes(avail, a, t);
    HeldPositive(a, t);
    var after := avail + t[pid].nowHave + HeldBy(a, t);
    assert EachFits(after, b, t);
    FitCompletes(after, b, t);
    hide Completes, EachFits, HeldBy;
    CompletesPast(avail, a, pid, b, t);
  }

  /** In a roomy bank such a request completes along every order of the list,
      if the thread is listed once. */
  lemma OnceCompletes(s: Bank, pid: Pid, need: int, order: seq<Pid>)
    requires Roomy(s) && Scannable(s, pid, need) && s.table[pid].nowHave + need < 0
    requires s.listed[pid] == 1 && multiset(order) == s.listed
    ensures Completes(s.avail - need, order, Tentative(s.table, pid, need))
  {
    OrderLists(s, order);
    assert pid in order;
    OnceAround(order, FirstIndex(order, pid));
    hide Roomy;
    OnceFits(s, pid, need, order, FirstIndex(order, pid));
  }

  /** No other position holds the same thread. */
  ghost predicate OnlyAt(order: seq<Pid>, i: nat)
    requires i < |order|
  {
    forall j :: 0 <= j < |order| && j != i ==> order[j] != order[i]
  }

  lemma OnceAround(order: seq<Pid>, i: nat)
    requires i < |order| && multiset(order)[order[i]] == 1
    ensures OnlyAt(order, i)
  {
    forall j | 0 <= j < |order| && j != i ensures order[j] != order[i] {
      CutMultiset(order, i);
      assert Cut(order, i)[if j < i then j else j - 1] == order[j];
      assert order[j] in multiset(Cut(order, i));
    }
  }

  lemma OnceFits(s: Bank, pid: Pid, need: int, order: seq<Pid>, i: nat)
    requires Roomy(s) && pid in s.table && s.table[pid].nowHave + need < 0
    requires Lists(order, s.table) && i < |order| && order[i] == pid && OnlyAt(order, i)
    ensures Completes(s.avail - need, order, Tentative(s.table, pid, need))
  {
    OthersFit(s, pid, need, order[..i]);
    OthersFit(s, pid, need, order[i + 1..]);
    hide EachFits, Completes, Roomy, Lists;
    FitsPast(s.avail - need, order, i, Tentative(s.table, pid, need));
  }

  lemma OthersFit(s: Bank, pid: Pid, need: int, a: seq<Pid>)
    requires Roomy(s) && pid in s.table && s.table[pid].nowHave + need < 0
    requires forall i :: 0 <= i < |a| ==> a[i] in s.table && a[i] != pid
    ensures var t := Tentative(s.table, pid, need);
            && EachFits(s.avail - need, a, t) && EachFits(s.avail - need + t[pid].nowHave, a, t)
            && Need(t[pid]) <= s.avail - need
  {
    assert s.table[pid].nowHave >= 0;
    assert forall i :: 0 <= i < |a| ==> s.table[a[i]].nowHave >= 0 && Need(s.table[a[i]]) <= s.avail;
  }

  lemma {:induction false} HeldPositive(order: seq<Pid>, t: Table)
    requires forall i :: 0 <= i < |order| ==> order[i] in t && t[order[i]].nowHave >= 0
    ensures HeldBy(order, t) >= 0
  {
    if order != [] {
      HeldPositive(order[1..], t);
    }
  }

  lemma NeverRefused(s: Bank, pid: Pid, need: int)
    requires Roomy(s) && Scannable(s, pid, need) && s.table[pid].nowHave + need < 0 && s.listed[pid] == 1
    ensures !MayAnswer(s, pid, need, false)
  {
    if MayAnswer(s, pid, need, false) {
      var o := AnswerOrder(s, pid, need, false);
      hide Roomy, Completes, Tentative, MayAnswer, Descending;
      OnceCompletes(s, pid, need, o);
    }
  }

  lemma SomeLateOrder(s: Bank, pid: Pid, need: int) returns (order: seq<Pid>)
    requires pid in s.table
    ensures multiset(order) == s.listed
    ensures var t := Tentative(s.table, pid, need); Descending(order, t) && Late(order, pid, t)
  {
    var q := ListMultiset(s.listed);
    order := LateOrder(q, pid, Tentative(s.table, pid, need));
  }

  /** There is always an answer. */
  lemma SomeAnswer(s: Bank, pid: Pid, need: int) returns (granted: bool)
    ensures MayAnswer(s, pid, need, granted)
  {
    granted := false;
    if Scannable(s, pid, need) {
      var order := SomeLateOrder(s, pid, need);
      granted := Completes(s.avail - need, order, Tentative(s.table, pid, need));
    }
  }

  /** In a roomy bank every scannable request below zero of a thread listed
      once is granted. */
  lemma RoomySlipsIff(s: Bank, pid: Pid, need: int)
    requires Roomy(s) && s.listed[pid] == 1
    ensures SlipsBelow(s, pid, need) <==> Scannable(s, pid, need) && s.table[pid].nowHave + need < 0
    ensures SlipsBelow(s, pid, need) ==> !MayAnswer(s, pid, need, false)
  {
    if Scannable(s, pid, need) && s.table[pid].nowHave + need < 0 {
      var order := SomeLateOrder(s, pid, need);
      OnceCompletes(s, pid, need, order);
      NeverRefused(s, pid, need);
    }
  }

  /** The threads besides pid with at least n still to claim. */
  ghost function NeedierThan(t: Table, pid: Pid, n: int): set<Pid> {
    set p | p in t && p != pid && Need(t[p]) >= n
  }

  /** The threads besides pid with less than n to claim fit into v. */
  ghost predicate LessNeedyFit(v: int, t: Table, pid: Pid, n: int) {
    forall p :: p in t && p != pid && Need(t[p]) < n ==> Need(t[p]) <= v
  }

  /** The threads behind the requester in the scan fit into what it then has:
      what was available, what the requester held, and what the threads before
      it hold. */
  ghost predicate BehindFit(s: Bank, pid: Pid, need: int)
    requires pid in s.table
  {
    var n := Need(s.table[pid]) - need;
    LessNeedyFit(
      s.avail + s.table[pid].nowHave + HeldIn(NeedierThan(s.table, pid, n), s.table), s.table, pid, n)
  }

  /** The same of the table during the scan. */
  ghost predicate ScanBehindFits(avail: int, t: Table, pid: Pid)
    requires pid in t
  {
    var n := Need(t[pid]);
    LessNeedyFit(avail + t[pid].nowHave + HeldIn(NeedierThan(t, pid, n), t), t, pid, n)
  }

  ghost predicate ListedOnceEach(s: Bank) {
    forall p :: s.listed[p] <= 1
  }

  /** In any good bank with threads listed once: a request below zero gets
      through exactly when it is covered and the threads behind it fit. */
  lemma SlipsOnceIff(s: Bank, pid: Pid, need: int)
    requires Good(s) && Scannable(s, pid, need) && s.table[pid].nowHave + need < 0
    requires ListedOnceEach(s)
    ensures SlipsBelow(s, pid, need) <==> Covered(s, pid, need) && BehindFit(s, pid, need)
  {
    hide Listed, NonNegative, Conserved, Safe, Covered, BehindFit, LateScan, Tentative;
    LateScanIff(s, pid, need);
  }

  lemma BehindSame(s: Bank, pid: Pid, need: int)
    requires pid in s.table
    ensures ScanBehindFits(s.avail - need, Tentative(s.table, pid, need), pid) <==> BehindFit(s, pid, need)
  {
    var t := Tentative(s.table, pid, need);
    var n := Need(t[pid]);
    assert n == Need(s.table[pid]) - need;
    OthersSame(s, pid, need);
    HeldInSame(NeedierThan(t, pid, n), t, s.table);
    assert NeedierThan(t, pid, n) == NeedierThan(s.table, pid, n);
  }

  lemma LateScanIff(s: Bank, pid: Pid, need: int)
    requires NonNegative(s.table) && Listed(s) && pid in s.table && ListedOnceEach(s)
    ensures LateScan(s.avail - need, Tentative(s.table, pid, need), s.listed, pid)
            <==> Covered(s, pid, need) && BehindFit(s, pid, need)
  {
    hide LateScan, HeldIn, AllFit, NonNegative, Listed, NonNegativeBut, Completes, Descending, Late, Lists;
    hide ScanBehindFits, Covered, BehindFit, NoRepeat, ListedOnceEach, Tentative;
    var order := DecidingOrder(s, pid, need);
    OthersSame(s, pid, need);
    BehindSame(s, pid, need);
    SlipsOrder(s.avail - need, order, pid, Tentative(s.table, pid, need));
  }

  lemma DecidingOrder(s: Bank, pid: Pid, need: int) returns (order: seq<Pid>)
    requires NonNegative(s.table) && Listed(s) && pid in s.table && ListedOnceEach(s)
    ensures var t := Tentative(s.table, pid, need);
            && Lists(order, t) && NoRepeat(order) && NonNegativeBut(t, pid) && pid in t
            && Descending(order, t) && Late(order, pid, t)
            && (LateScan(s.avail - need, t, s.listed, pid) <==> Completes(s.avail - need, order, t))
  {
    order := SomeLateOrder(s, pid, need);
    OrderDecides(s, pid, need, order);
    TentativeSound(s, pid, need, order);
    CountsNoRepeat(order);
    hide Lists, NoRepeat, NonNegativeBut, Descending, Late, LateScan, Completes;
  }

  lemma OrderDecides(s: Bank, pid: Pid, need: int, order: seq<Pid>)
    requires NonNegative(s.table) && Listed(s) && pid in s.table && multiset(order) == s.listed
    requires var t := Tentative(s.table, pid, need); Descending(order, t) && Late(order, pid, t)
    ensures var t := Tentative(s.table, pid, need);
            LateScan(s.avail - need, t, s.listed, pid) <==> Completes(s.avail - need, order, t)
  {
    var t := Tentative(s.table, pid, need);
    hide Tentative, NonNegative, Listed, Descending, Late, Completes;
    if LateScan(s.avail - need, t, s.listed, pid) {
      var other :|
        && multiset(other) == s.listed && Descending(other, t) && Late(other, pid, t)
        && Completes(s.avail - need, other, t);
      LateScanExact(s, pid, need, order, other);
    }
  }

  /** A late order around pid: a has the threads at least as needy, b the
      others. */
  ghost predicate Sides(a: seq<Pid>, pid: Pid, b: seq<Pid>, t: Table) {
    && pid in t && Descending(a, t) && Descending(b, t) && NoRepeat(a)
    && (forall k :: 0 <= k < |a| ==> a[k] in t && a[k] != pid && t[a[k]].nowHave >= 0)
    && (forall k :: 0 <= k < |b| ==> b[k] in t && b[k] != pid && t[b[k]].nowHave >= 0)
    && forall p :: p in t && p != pid ==>
         (p in a <==> Need(t[p]) >= Need(t[pid])) && (p in b <==> Need(t[p]) < Need(t[pid]))
  }

  lemma LateSides(order: seq<Pid>, i: nat, pid: Pid, t: Table)
    requires i < |order| && order[i] == pid && Lists(order, t) && NonNegativeBut(t, pid)
    requires Descending(order, t) && Late(order, pid, t) && NoRepeat(order)
    ensures Sides(order[..i], pid, order[i + 1..], t)
  {
    var a, b := order[..i], order[i + 1..];
    LateParts(order, i, pid, t);
    forall p | p in t && p != pid
      ensures (p in a <==> Need(t[p]) >= Need(t[pid])) && (p in b <==> Need(t[p]) < Need(t[pid]))
    {
      LateSide(order, i, pid, t, p);
    }
    hide Lists, Descending, Late, NoRepeat, NonNegativeBut;
  }

  lemma LateParts(order: seq<Pid>, i: nat, pid: Pid, t: Table)
    requires i < |order| && order[i] == pid && Lists(order, t) && NonNegativeBut(t, pid)
    requires Descending(order, t) && NoRepeat(order)
    ensures var a, b := order[..i], order[i + 1..];
            && Descending(a, t) && Descending(b, t) && NoRepeat(a)
            && (forall k :: 0 <= k < |a| ==> a[k] in t && a[k] != pid && t[a[k]].nowHave >= 0)
            && (forall k :: 0 <= k < |b| ==> b[k] in t && b[k] != pid && t[b[k]].nowHave >= 0)
  {
    var a, b := order[..i], order[i + 1..];
    assert forall k :: 0 <= k < |a| ==> a[k] == order[k];
    assert forall k :: 0 <= k < |b| ==> b[k] == order[i + 1 + k];
  }

  lemma LateSide(order: seq<Pid>, i: nat, pid: Pid, t: Table, p: Pid)
    requires i < |order| && order[i] == pid && Lists(order, t) && p in t && p != pid
    requires Descending(order, t) && Late(order, pid, t)
    ensures p in order[..i] <==> Need(t[p]) >= Need(t[pid])
    ensures p in order[i + 1..] <==> Need(t[p]) < Need(t[pid])
  {
    var j := FirstIndex(order, p);
    if j < i {
      assert order[..i][j] == p;
    } else {
      assert order[i + 1..][j - i - 1] == p;
    }
  }

  lemma HeldAhead(a: seq<Pid>, pid: Pid, b: seq<Pid>, t: Table)
    requires Sides(a, pid, b, t)
    ensures HeldBy(a, t) == HeldIn(NeedierThan(t, pid, Need(t[pid])), t)
  {
    var keys := NeedierThan(t, pid, Need(t[pid]));
    NoRepeatCounts(a);
    forall p ensures multiset(a)[p] == multiset(keys)[p] {
      assert p in multiset(a) <==> p in a;
    }
    assert multiset(a) == multiset(keys);
    HeldAlong(a, keys, t);
  }

  /** The threads of a list fit one by one. */
  ghost predicate PartFits(avail: int, a: seq<Pid>, t: Table) {
    forall p :: p in a ==> p in t && Need(t[p]) <= avail
  }

  lemma PartCompletes(avail: int, a: seq<Pid>, t: Table)
    requires Descending(a, t) && forall k :: 0 <= k < |a| ==> a[k] in t && t[a[k]].nowHave >= 0
    ensures Completes(avail, a, t) <==> PartFits(avail, a, t)
    ensures HeldBy(a, t) >= 0 && (a == [] ==> HeldBy(a, t) == 0)
  {
    DescendingFits(avail, a, t);
    HeldPositive(a, t);
    hide Completes, Descending, HeldBy;
    if EachFits(avail, a, t) {
      forall p | p in a ensures p in t && Need(t[p]) <= avail {
        var k :| 0 <= k < |a| && a[k] == p;
      }
    }
  }

  lemma {:induction false} SidesComplete(avail: int, after: int, a: seq<Pid>, pid: Pid, b: seq<Pid>, t: Table)
    requires Sides(a, pid, b, t)
    ensures Completes(avail, a, t) <==> PartFits(avail, a, t)
    ensures Completes(after, b, t) <==> PartFits(after, b, t)
    ensures HeldBy(a, t) >= 0 && (a == [] ==> HeldBy(a, t) == 0)
  {
    hide Completes, HeldBy, PartFits;
    PartCompletes(avail, a, t);
    PartCompletes(after, b, t);
  }

  lemma SidesFit(avail: int, after: int, a: seq<Pid>, pid: Pid, b: seq<Pid>, t: Table)
    requires Sides(a, pid, b, t)
    ensures AllFit(avail, t) <==> Need(t[pid]) <= avail && PartFits(avail, a, t)
    ensures LessNeedyFit(after, t, pid, Need(t[pid])) <==> PartFits(after, b, t)
    ensures PartFits(avail, a, t) && a != [] ==> Need(t[pid]) <= avail
  {
    if Need(t[pid]) <= avail && PartFits(avail, a, t) {
      forall p | p in t ensures Need(t[p]) <= avail {
        assert p == pid || p in a || p in b;
      }
    }
    if a != [] {
      assert a[0] in a && Need(t[a[0]]) >= Need(t[pid]);
    }
    if PartFits(after, b, t) {
      forall p | p in t && p != pid && Need(t[p]) < Need(t[pid]) ensures Need(t[p]) <= after {
        assert p in b;
      }
    }
  }

  /** The scan in a late order, in terms of claims and holdings. */
  lemma LateCompletesIff(avail: int, after: int, a: seq<Pid>, pid: Pid, b: seq<Pid>, t: Table)
    requires Sides(a, pid, b, t) && after == avail + t[pid].nowHave + HeldBy(a, t)
    ensures Completes(avail, a + [pid] + b, t) <==> AllFit(avail, t) && LessNeedyFit(after, t, pid, Need(t[pid]))
  {
    assert pid in t;
    hide Sides, Completes, HeldBy, AllFit, LessNeedyFit, PartFits;
    CompletesPast(avail, a, pid, b, t);
    SidesComplete(avail, after, a, pid, b, t);
    SidesFit(avail, after, a, pid, b, t);
  }

  lemma SlipsOrder(avail: int, order: seq<Pid>, pid: Pid, t: Table)
    requires Lists(order, t) && pid in t && NonNegativeBut(t, pid) && NoRepeat(order)
    requires Descending(order, t) && Late(order, pid, t)
    ensures Completes(avail, order, t) <==> AllFit(avail, t) && ScanBehindFits(avail, t, pid)
  {
    var i := FirstIndex(order, pid);
    LateSides(order, i, pid, t);
    hide Sides, Completes, Descending, Late, Lists, NonNegativeBut, NoRepeat, AllFit, LessNeedyFit, NeedierThan;
    hide HeldIn, HeldBy;
    HeldAhead(order[..i], pid, order[i + 1..], t);
    var after := avail + t[pid].nowHave + HeldBy(order[..i], t);
    LateCompletesIff(avail, after, order[..i], pid, order[i + 1..], t);
    assert order == order[..i] + [order[i]] + order[i + 1..];
  }

  lemma OthersSame(s: Bank, pid: Pid, need: int)
    requires pid in s.table
    ensures var t := Tentative(s.table, pid, need);
            && (AllFit(s.avail - need, t) <==> Covered(s, pid, need))
            && t.Keys == s.table.Keys && forall p :: p in s.table && p != pid ==> t[p] == s.table[p]
  {
    var t := Tentative(s.table, pid, need);
    if AllFit(s.avail - need, t) {
      assert Need(t[pid]) <= s.avail - need;
      forall p | p in s.table && p != pid ensures Need(s.table[p]) + need <= s.avail {
        assert t[p] == s.table[p];
      }
    }
  }

  /** And such a grant is real: a single idle thread that may claim everything
      asks for less than nothing, is granted it, and owes it. */
  lemma BelowZeroGranted(p: Pid, total: nat, n: int)
    requires n > 0
    ensures var s := Bank(total, total, map[p := Details(total, 0, 0)], 0, multiset{p});
            && Roomy(s) && SlipsBelow(s, p, -n)
            && MayAnswer(s, p, -n, true) && !MayAnswer(s, p, -n, false)
            && AfterRequest(s, p, -n, true).table[p].nowHave == -n
            && AfterRequest(s, p, -n, true).avail == total + n
  {
    var t: Table := map[p := Details(total, 0, 0)];
    var s := Bank(total, total, t, 0, multiset{p});
    FreshGoodIff(total, t, multiset{p});
    assert AllFit(total, t);
    RoomySlipsIff(s, p, -n);
    assert NonNegative(t) && Listed(s);
    MayGrantIff(s, p, -n);
  }

  // ---------------------------------------------------------------------
  // Roomy runs
  // ---------------------------------------------------------------------

  /** What keeps a roomy bank roomy: no request slips below zero, and a new
      claim is within what is available.  Anything may be released or removed. */
  ghost predicate Modest(s: Bank, op: Op) {
    match op
    case Request(pid, need) => !SlipsBelow(s, pid, need)
    case Release(_, _) => true
    case Add(_, claim) => claim <= s.avail
    case Remove(_) => true
  }

  lemma RoomyRequestIff(s: Bank, pid: Pid, need: int)
    requires Roomy(s)
    ensures (forall granted :: MayAnswer(s, pid, need, granted) ==> Roomy(AfterRequest(s, pid, need, granted)))
            <==> !SlipsBelow(s, pid, need)
  {
    RequestSafeIff(s, pid, need);
    if !SlipsBelow(s, pid, need) {
      forall granted | MayAnswer(s, pid, need, granted) ensures Roomy(AfterRequest(s, pid, need, granted)) {
        NoSlip(s, pid, need, granted);
        AnswerKeeps(s, pid, need, granted);
      }
    }
  }

  lemma RoomyCallIff(s: Bank, op: Op)
    requires Roomy(s) && !op.Request?
    ensures Roomy(Apply(s, op, false)) <==> Modest(s, op)
  {
    var s' := Apply(s, op, false);
    CallsKeepSound(s, op, false);
    FitAfterCall(s, op);
    hide Sound, AllFit;
    if Modest(s, op) {
      FitIsSafe(s'.avail, s'.table);
    }
  }

  lemma FitAfterCall(s: Bank, op: Op)
    requires Roomy(s) && !op.Request?
    ensures var s' := Apply(s, op, false); AllFit(s'.avail, s'.table) <==> Modest(s, op)
  {
    var s' := Apply(s, op, false);
    hide Conserved, Listed, Safe;
    match op
    case Release(pid, nums) =>
      assert AllFit(s'.avail, s'.table);
    case Add(pid, claim) =>
      assert pid in s'.table && Need(s'.table[pid]) == claim;
    case Remove(pids) =>
      RemoveTable(s, pids);
      assert AllFit(s'.avail, s'.table);
  }

  lemma RoomyOpIff(s: Bank, op: Op)
    requires Roomy(s)
    ensures (forall granted :: Possible(s, op, granted) ==> Roomy(Apply(s, op, granted))) <==> Modest(s, op)
  {
    if op.Request? {
      RoomyRequestIff(s, op.pid, op.need);
      assert forall granted :: Possible(s, op, granted) <==> MayAnswer(s, op.pid, op.need, granted);
    } else {
      RoomyCallIff(s, op);
      assert Possible(s, op, false);
      assert Apply(s, op, true) == Apply(s, op, false);
    }
  }

  /** A bank that starts roomy, as every good new one does, stays roomy in
      every run of the calls exactly when no request slips below zero and no
      claim is added beyond what is available.  So removing threads, holders
      included, is unsafe only after a claim beyond that. */
  lemma {:induction false} RunsStayRoomyIff(s: Bank, calls: seq<Op>)
    requires Roomy(s)
    ensures Throughout(Roomy, s, calls) <==> Allowed(Modest, s, calls)
  {
    forall x, op | Roomy(x)
      ensures (forall granted :: Possible(x, op, granted) ==> Roomy(Apply(x, op, granted))) <==> Modest(x, op)
    {
      RoomyOpIff(x, op);
    }
    ThroughoutIff(Roomy, Modest, s, calls);
  }

  /** The only thread of a new bank, with a claim of h. */
  ghost predicate Alone(s: Bank, p: Pid, h: int) {
    && s.table == map[p := Details(h, 0, 0)] && s.listed == multiset{p}
    && s.avail == s.total && s.leaked == 0 && 0 < h <= s.total
  }

  /** Such a removal, reached by a run of properly used calls: p obtains its
      claim, q is added with a claim of everything, and then p, and with it
      what it holds, is removed. */
  lemma RemovingHolderUnsafe(s: Bank, p: Pid, q: Pid, h: int)
    requires Alone(s, p, h) && q != p
    ensures Roomy(s)
    ensures MayAnswer(s, p, h, true) && !MayAnswer(s, p, h, false)
    ensures var s1 := AfterRequest(s, p, h, true);
            var s2 := AfterAdd(s1, q, s.total);
            Roomy(s1) && Good(s2) && !Roomy(s2) && !Good(AfterRemove(s2, [p]))
  {
    FreshGoodIff(s.total, s.table, s.listed);
    assert AllFit(s.avail, s.table);
    OnlyGranted(s, p, h);
    RoomyRequestIff(s, p, h);
    var s1 := AfterRequest(s, p, h, true);
    AddFreshIff(s1, q, s.total);
    var s2 := AfterAdd(s1, q, s.total);
    assert Need(s2.table[q]) == s.total > s2.avail;
    OthersHoldNothing(s2, p, q);
  }

  lemma OnlyGranted(s: Bank, p: Pid, h: int)
    requires Alone(s, p, h) && Good(s)
    ensures MayAnswer(s, p, h, true) && !MayAnswer(s, p, h, false)
  {
    var granted := SomeAnswer(s, p, h);
    hide MayAnswer, Good;
    assert NonNegative(s.table) && Listed(s);
    assert AllFit(s.avail - h, Tentative(s.table, p, h));
    AnswerExact(s, p, h, granted);
    if MayAnswer(s, p, h, false) {
      AnswerExact(s, p, h, false);
    }
  }

  /** A claim of more than there is left, with nobody to return anything. */
  lemma OthersHoldNothing(s: Bank, p: Pid, q: Pid)
    requires Good(s) && q != p && q in s.table && Need(s.table[q]) > s.avail
    requires forall x :: x in s.table && x != p ==> s.table[x].nowHave == 0
    ensures !Good(AfterRemove(s, [p]))
  {
    RemoveTable(s, [p]);
    var s' := AfterRemove(s, [p]);
    assert IdsOf([p]) == {p};
    hide Sound;
    NothingHeld(s'.table.Keys, s'.table);
    if Good(s') {
      assert NonNegative(s'.table);
      SafeClaim(s'.avail, s'.table, q);
    }
  }
}
