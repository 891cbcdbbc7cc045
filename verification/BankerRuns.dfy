/**
 * Safety of the banker over its operations and runs: exactly when each call,
 * and exactly when every call of a run, keeps the bank safe.
 */
module BankerRuns {
  import opened BankerTheory
  import opened BankerBooks

  // ---------------------------------------------------------------------
  // Safety over runs
  // ---------------------------------------------------------------------

  /** Balanced books without debts, and a list that names the known threads. */
  ghost predicate Sound(s: Bank) {
    NonNegative(s.table) && Conserved(s) && Listed(s) && s.leaked >= 0
  }

  ghost predicate Good(s: Bank) {
    Sound(s) && Safe(s.avail, s.table)
  }

  /** Only requests can make a sound bank unsound. */
  lemma CallsKeepSound(s: Bank, op: Op, granted: bool)
    requires Sound(s) && !op.Request?
    ensures Sound(Apply(s, op, granted))
  {
    ApplyConserves(s, op, granted);
    ApplyLists(s, op, granted);
    hide Conserved, Listed;
    if op.Remove? {
      RemoveTable(s, op.pids);
    }
  }

  /** The scan by ascending remaining claim, over the whole table. */
  ghost predicate AscendingScan(avail: int, t: Table) {
    exists order :: OrderOf(order, t) && Ascending(order, t) && Completes(avail, order, t)
  }

  lemma AscendingScanExact(avail: int, t: Table)
    requires NonNegative(t)
    ensures AscendingScan(avail, t) <==> Safe(avail, t)
  {
    if Safe(avail, t) {
      var order := AscendingOrder(t);
      GreedyExact(avail, order, t);
    }
  }

  ghost function IdsOf(pids: seq<Pid>): set<Pid> {
    set i | 0 <= i < |pids| :: pids[i]
  }

  /** Proper use: the threads that stay after a removal, or besides a newly
      registered id, pass the ascending scan; a new claim is within what will be
      on the books; and no request slips below zero. */
  ghost predicate Proper(s: Bank, op: Op) {
    match op
    case Request(pid, need) => !SlipsBelow(s, pid, need)
    case Release(_, _) => true
    case Add(pid, claim) =>
      claim <= OnBooks(s) - HoldingOf(s.table, pid) && AscendingScan(s.avail, s.table - {pid})
    case Remove(pids) => AscendingScan(s.avail, s.table - IdsOf(pids))
  }

  /** The scan that is_safe makes inside a request, with pid put last among
      equal claims. */
  ghost predicate LateScan(avail: int, t: Table, listed: multiset<Pid>, pid: Pid) {
    exists order ::
      multiset(order) == listed && Descending(order, t) && Late(order, pid, t) && Completes(avail, order, t)
  }

  /** A negative request would take the holding below zero, and can be granted. */
  ghost predicate SlipsBelow(s: Bank, pid: Pid, need: int) {
    && Scannable(s, pid, need) && s.table[pid].nowHave + need < 0
    && LateScan(s.avail - need, Tentative(s.table, pid, need), s.listed, pid)
  }

  lemma OrderDistinct(order: seq<Pid>, t: Table)
    requires OrderOf(order, t)
    ensures forall i, j :: 0 <= i < j < |order| ==> order[i] != order[j]
  {
    CountsNoRepeat(order);
  }

  /** Only claims, holdings and the threads of the order matter. */
  lemma {:induction false} CompletesSame(avail: int, order: seq<Pid>, t: Table, u: Table)
    requires Completes(avail, order, t)
    requires forall i :: 0 <= i < |order| && order[i] in t ==>
               order[i] in u && Need(u[order[i]]) == Need(t[order[i]]) && u[order[i]].nowHave == t[order[i]].nowHave
    ensures Completes(avail, order, u)
    decreases |order|
  {
    if order != [] {
      CompletesSame(avail + t[order[0]].nowHave, order[1..], t, u);
    }
  }

  /** A release replays the same order: from the releasing thread on, the
      running value is what it was before. */
  lemma {:induction false} ReplayRelease(avail: int, order: seq<Pid>, t: Table, pid: Pid, n: nat)
    requires Completes(avail, order, t) && pid in t
    requires forall i, j :: 0 <= i < j < |order| ==> order[i] != order[j]
    ensures Completes(avail + n, order, t[pid := t[pid].(nowHave := t[pid].nowHave - n)])
    decreases |order|
  {
    if order != [] {
      var u := t[pid := t[pid].(nowHave := t[pid].nowHave - n)];
      var next := avail + t[order[0]].nowHave;
      if order[0] == pid {
        CompletesSame(next, order[1..], t, u);
      } else {
        ReplayRelease(next, order[1..], t, pid, n);
      }
    }
  }

  lemma ReleaseSafe(s: Bank, pid: Pid, nums: int)
    requires Good(s)
    ensures Good(AfterRelease(s, pid, nums))
  {
    CallsKeepSound(s, Release(pid, nums), false);
    if pid in s.table {
      var s' := AfterRelease(s, pid, nums);
      var order :| OrderOf(order, s.table) && Completes(s.avail, order, s.table);
      hide Sound;
      OrderDistinct(order, s.table);
      ReplayRelease(s.avail, order, s.table, pid, Released(s.table[pid].nowHave, nums));
      assert s'.table.Keys == s.table.Keys;
      assert OrderOf(order, s'.table);
    }
  }

  /** While holdings stay non-negative the answer does not depend on the order
      the scan takes. */
  lemma AnswerExact(s: Bank, pid: Pid, need: int, granted: bool)
    requires NonNegative(s.table) && Listed(s) && pid in s.table && s.table[pid].nowHave + need >= 0
    requires MayAnswer(s, pid, need, granted)
    ensures granted <==> Scannable(s, pid, need) && AllFit(s.avail - need, Tentative(s.table, pid, need))
  {
    if Scannable(s, pid, need) {
      var order := AnswerOrder(s, pid, need, granted);
      TentativeSound(s, pid, need, order);
      assert NonNegative(Tentative(s.table, pid, need));
      hide Lists, Descending, Completes, AllFit, NonNegative, NonNegativeBut, Tentative, MayAnswer;
      DescendingExact(s.avail - need, order, Tentative(s.table, pid, need));
    }
  }

  lemma AnswerOrder(s: Bank, pid: Pid, need: int, granted: bool) returns (order: seq<Pid>)
    requires Scannable(s, pid, need) && MayAnswer(s, pid, need, granted)
    ensures multiset(order) == s.listed
    ensures var t := Tentative(s.table, pid, need);
            Descending(order, t) && (granted <==> Completes(s.avail - need, order, t))
  {
    hide Descending, Completes, Tentative;
    var t := Tentative(s.table, pid, need);
    order :|
      multiset(order) == s.listed && Descending(order, t) && (granted <==> Completes(s.avail - need, order, t));
  }

  /** The table a grant leaves fits exactly when the tentative one does. */
  lemma GrantFits(s: Bank, pid: Pid, need: int)
    requires pid in s.table
    ensures AllFit(s.avail - need, Tentative(s.table, pid, need))
            <==> AllFit(s.avail - need, Allocate(s, pid, need).table)
  {
    var t, u := Tentative(s.table, pid, need), Allocate(s, pid, need).table;
    assert forall p :: p in t ==> p in u && Need(t[p]) == Need(u[p]);
    assert forall p :: p in u ==> p in t && Need(t[p]) == Need(u[p]);
  }

  /** The tentative table has the listed threads, and only the requester may
      hold less than nothing. */
  lemma TentativeSound(s: Bank, pid: Pid, need: int, order: seq<Pid>)
    requires NonNegative(s.table) && Listed(s) && pid in s.table && multiset(order) == s.listed
    ensures var t := Tentative(s.table, pid, need);
            NonNegativeBut(t, pid) && Lists(order, t) && forall i :: 0 <= i < |order| ==> order[i] in t
  {
    OrderLists(s, order);
  }

  /** One order with the requester late decides whether any scan completes. */
  lemma {:induction false} LateScanExact(s: Bank, pid: Pid, need: int, order: seq<Pid>, other: seq<Pid>)
    requires NonNegative(s.table) && Listed(s) && pid in s.table
    requires multiset(order) == s.listed && multiset(other) == s.listed
    requires var t := Tentative(s.table, pid, need);
             && Descending(order, t) && Late(order, pid, t)
             && Descending(other, t) && Completes(s.avail - need, other, t)
    ensures Completes(s.avail - need, order, Tentative(s.table, pid, need))
  {
    TentativeSound(s, pid, need, order);
    hide Tentative, NonNegative, Listed, Descending, Late, Completes;
    LateBest(s.avail - need, order, other, pid, Tentative(s.table, pid, need));
  }

  /** Scans that can complete are those that complete with pid put last. */
  lemma MayGrantIff(s: Bank, pid: Pid, need: int)
    requires NonNegative(s.table) && Listed(s) && Scannable(s, pid, need)
    ensures MayAnswer(s, pid, need, true)
            <==> LateScan(s.avail - need, Tentative(s.table, pid, need), s.listed, pid)
  {
    hide Tentative, NonNegative, Listed, Descending, Late, Completes;
    var t := Tentative(s.table, pid, need);
    if MayAnswer(s, pid, need, true) {
      var other :| multiset(other) == s.listed && Descending(other, t) && Completes(s.avail - need, other, t);
      var order := LateOrder(other, pid, t);
      LateScanExact(s, pid, need, order, other);
    }
  }

  /** Whatever a request is answered, short of a grant below zero, the bank
      stays good; a grant leads where every order completes. */
  lemma AnswerKeeps(s: Bank, pid: Pid, need: int, granted: bool)
    requires Good(s) && MayAnswer(s, pid, need, granted)
    requires pid in s.table && granted ==> s.table[pid].nowHave + need >= 0
    ensures Good(AfterRequest(s, pid, need, granted))
    ensures granted ==> AllFit(s.avail - need, AfterRequest(s, pid, need, granted).table)
  {
    var s' := AfterRequest(s, pid, need, granted);
    ApplyConserves(s, Request(pid, need), granted);
    ApplyLists(s, Request(pid, need), granted);
    hide Conserved, Listed, Safe;
    if granted {
      GrantKeeps(s, pid, need);
      hide MayAnswer, AllFit;
      FitIsSafe(s'.avail, s'.table);
    } else {
      hide MayAnswer;
      SameHoldings(s.avail, s.table, s'.table);
    }
  }

  lemma GrantKeeps(s: Bank, pid: Pid, need: int)
    requires NonNegative(s.table) && Listed(s) && MayAnswer(s, pid, need, true)
    requires pid in s.table ==> s.table[pid].nowHave + need >= 0
    ensures var s' := AfterRequest(s, pid, need, true);
            NonNegative(s'.table) && AllFit(s'.avail, s'.table) && s'.avail == s.avail - need
  {
    assert Scannable(s, pid, need);
    AnswerExact(s, pid, need, true);
    GrantFits(s, pid, need);
    hide MayAnswer, Tentative, AllFit, Listed;
  }

  /** A request keeps the bank good, whatever the order the scan takes, exactly
      when it does not slip below zero. */
  lemma RequestSafeIff(s: Bank, pid: Pid, need: int)
    requires Good(s)
    ensures (forall granted :: MayAnswer(s, pid, need, granted) ==> Good(AfterRequest(s, pid, need, granted)))
            <==> !SlipsBelow(s, pid, need)
  {
    if SlipsBelow(s, pid, need) {
      MayGrantIff(s, pid, need);
      assert AfterRequest(s, pid, need, true).table[pid].nowHave < 0;
      assert !Good(AfterRequest(s, pid, need, true));
    } else {
      forall granted | MayAnswer(s, pid, need, granted) ensures Good(AfterRequest(s, pid, need, granted)) {
        NoSlip(s, pid, need, granted);
        AnswerKeeps(s, pid, need, granted);
      }
    }
  }

  lemma NoSlip(s: Bank, pid: Pid, need: int, granted: bool)
    requires NonNegative(s.table) && Listed(s) && MayAnswer(s, pid, need, granted) && !SlipsBelow(s, pid, need)
    ensures pid in s.table && granted ==> s.table[pid].nowHave + need >= 0
  {
    hide Tentative, NonNegative, Listed, Descending, LateScan, Completes;
    if Scannable(s, pid, need) {
      MayGrantIff(s, pid, need);
    }
  }

  lemma SameHoldings(avail: int, t: Table, u: Table)
    requires NonNegative(t) && Safe(avail, t) && t.Keys == u.Keys
    requires forall p :: p in t ==> Need(u[p]) == Need(t[p]) && u[p].nowHave == t[p].nowHave
    ensures NonNegative(u) && Safe(avail, u)
  {
    var order :| OrderOf(order, t) && Completes(avail, order, t);
    OrderMembers(order, t);
    CompletesSame(avail, order, t, u);
    assert OrderOf(order, u);
  }

  /** Exactly what a request needs: the claim is not exceeded, and what is
      available covers the requester's whole remaining claim and, after the
      request, that of every other thread. */
  lemma GrantedIff(s: Bank, pid: Pid, need: int, granted: bool)
    requires NonNegative(s.table) && Listed(s) && pid in s.table && s.table[pid].nowHave + need >= 0
    requires MayAnswer(s, pid, need, granted)
    ensures granted <==>
            && need <= Need(s.table[pid]) <= s.avail
            && forall p :: p in s.table && p != pid ==> Need(s.table[p]) + need <= s.avail
  {
    AnswerExact(s, pid, need, granted);
    hide MayAnswer;
    var t := Tentative(s.table, pid, need);
    if AllFit(s.avail - need, t) {
      assert Need(t[pid]) <= s.avail - need;
      forall p | p in s.table && p != pid ensures Need(s.table[p]) + need <= s.avail {
        assert t[p] == s.table[p];
      }
    }
  }

  /** Removing any threads keeps the bank good exactly when the others pass the
      ascending scan with what is available. */
  lemma RemoveSafeIff(s: Bank, pids: seq<Pid>, order: seq<Pid>)
    requires Good(s)
    requires OrderOf(order, s.table - IdsOf(pids)) && Ascending(order, s.table - IdsOf(pids))
    ensures Good(AfterRemove(s, pids)) <==> Completes(s.avail, order, s.table - IdsOf(pids))
  {
    var t := s.table - IdsOf(pids);
    CallsKeepSound(s, Remove(pids), false);
    RemoveTable(s, pids);
    assert NonNegative(t);
    GreedyExact(s.avail, order, t);
  }

  lemma {:induction false} RemoveTable(s: Bank, pids: seq<Pid>)
    requires NonNegative(s.table) && s.leaked >= 0
    ensures AfterRemove(s, pids).table == s.table - IdsOf(pids)
    ensures AfterRemove(s, pids).avail == s.avail && AfterRemove(s, pids).leaked >= 0
    decreases |pids|
  {
    if pids == [] {
      assert s.table - IdsOf(pids) == s.table;
    } else {
      var s1 := AfterRemoveOne(s, pids[0]);
      assert NonNegative(s1.table);
      RemoveTable(s1, pids[1..]);
      assert IdsOf(pids) == {pids[0]} + IdsOf(pids[1..]);
      assert s.table - {pids[0]} - IdsOf(pids[1..]) == s.table - IdsOf(pids);
    }
  }

  /** Registering an id, new or not, keeps the bank good exactly when the claim
      is within what will be on the books and the other threads pass the
      ascending scan without whatever the id held before. */
  lemma AddSafeIff(s: Bank, pid: Pid, claim: int, order: seq<Pid>)
    requires Good(s) && OrderOf(order, s.table - {pid}) && Ascending(order, s.table - {pid})
    ensures Good(AfterAdd(s, pid, claim)) <==>
            claim <= OnBooks(s) - HoldingOf(s.table, pid) && Completes(s.avail, order, s.table - {pid})
  {
    var t := s.table - {pid};
    CallsKeepSound(s, Add(pid, claim), false);
    assert AfterAdd(s, pid, claim).table == t[pid := Details(claim, 0, 0)];
    assert NonNegative(t);
    HoldingsBut(s, pid);
    hide Sound, NonNegative, Safe, Completes, Ascending, OrderOf;
    GreedyExact(s.avail, order, t);
    JoinIff(s.avail, t, pid, claim);
  }

  /** A thread that holds nothing yet can join exactly when the others are safe
      by themselves and its claim fits when everything has come back. */
  lemma JoinIff(avail: int, t: Table, pid: Pid, claim: int)
    requires NonNegative(t) && pid !in t
    ensures Safe(avail, t[pid := Details(claim, 0, 0)]) <==> Safe(avail, t) && claim <= avail + Held(t)
  {
    var u := t[pid := Details(claim, 0, 0)];
    if Safe(avail, u) {
      LeaveOut(avail, u, pid);
      assert u - {pid} == t;
      JoinedFits(avail, t, pid, claim);
    } else if Safe(avail, t) && claim <= avail + Held(t) {
      JoinLast(avail, t, pid, claim);
    }
  }

  lemma HoldingsBut(s: Bank, pid: Pid)
    requires Conserved(s)
    ensures s.avail + Held(s.table - {pid}) == OnBooks(s) - HoldingOf(s.table, pid)
  {
    if pid in s.table {
      HeldRemove(s.table, pid);
    } else {
      assert s.table - {pid} == s.table;
    }
  }

  /** For a new id the claim alone decides. */
  lemma AddFreshIff(s: Bank, pid: Pid, claim: int)
    requires Good(s) && pid !in s.table
    ensures Good(AfterAdd(s, pid, claim)) <==> claim <= OnBooks(s)
  {
    assert s.table - {pid} == s.table;
    var order := AscendingOrder(s.table);
    GreedyExact(s.avail, order, s.table);
    AddSafeIff(s, pid, claim, order);
  }

  /** The new thread goes last, when everything has come back. */
  lemma JoinLast(avail: int, t: Table, pid: Pid, claim: int)
    requires Safe(avail, t) && pid !in t && claim <= avail + Held(t)
    ensures Safe(avail, t[pid := Details(claim, 0, 0)])
  {
    var u := t[pid := Details(claim, 0, 0)];
    var order :| OrderOf(order, t) && Completes(avail, order, t);
    OrderMembers(order, t);
    HeldAlong(order, t.Keys, t);
    OrderSnoc(order, t, pid, u);
    SameAlong(avail, order, t, u);
    hide Completes, OrderOf, HeldBy;
    LastCompletes(avail, order, pid, u);
  }

  lemma SameAlong(avail: int, order: seq<Pid>, t: Table, u: Table)
    requires Completes(avail, order, t) && forall i :: 0 <= i < |order| ==> order[i] in t
    requires forall p :: p in t ==> p in u && u[p] == t[p]
    ensures Completes(avail, order, u) && HeldBy(order, u) == HeldBy(order, t)
  {
    CompletesSame(avail, order, t, u);
    HeldSameBy(order, t, u);
  }

  lemma LastCompletes(avail: int, order: seq<Pid>, pid: Pid, u: Table)
    requires Completes(avail, order, u) && pid in u && Need(u[pid]) <= avail + HeldBy(order, u)
    ensures Completes(avail, order + [pid], u)
  {
    CompletesAppend(avail, order, [pid], u);
    assert [pid][1..] == [];
  }

  lemma OrderSnoc(order: seq<Pid>, t: Table, pid: Pid, u: Table)
    requires OrderOf(order, t) && pid !in t && u.Keys == t.Keys + {pid}
    ensures OrderOf(order + [pid], u)
  {
    assert multiset(u.Keys) == multiset(t.Keys) + multiset{pid};
  }

  /** In a safe bank no claim exceeds what is available and held together. */
  lemma SafeClaim(avail: int, t: Table, pid: Pid)
    requires NonNegative(t) && Safe(avail, t) && pid in t
    ensures Need(t[pid]) <= avail + Held(t)
  {
    var order :| OrderOf(order, t) && Completes(avail, order, t);
    OrderMembers(order, t);
    OrderDistinct(order, t);
    var i :| 0 <= i < |order| && order[i] == pid;
    CompletesAt(avail, order, i, t);
    HeldAtMost(order[..i], t.Keys, t);
  }

  lemma CompletesAt(avail: int, order: seq<Pid>, i: nat, t: Table)
    requires i < |order| && Completes(avail, order, t)
    ensures order[i] in t && Need(t[order[i]]) <= avail + HeldBy(order[..i], t)
  {
    assert order == order[..i] + order[i..];
    CompletesAppend(avail, order[..i], order[i..], t);
  }

  lemma JoinedFits(avail: int, t: Table, pid: Pid, claim: int)
    requires NonNegative(t) && pid !in t && Safe(avail, t[pid := Details(claim, 0, 0)])
    ensures claim <= avail + Held(t)
  {
    SafeClaim(avail, t[pid := Details(claim, 0, 0)], pid);
    HeldUpdate(t, pid, Details(claim, 0, 0));
  }

  lemma {:induction false} HeldSameBy(order: seq<Pid>, t: Table, u: Table)
    requires forall i :: 0 <= i < |order| ==>
               order[i] in t && order[i] in u && t[order[i]].nowHave == u[order[i]].nowHave
    ensures HeldBy(order, t) == HeldBy(order, u)
  {
    if order != [] {
      HeldSameBy(order[1..], t, u);
    }
  }

  /** A thread holding nothing can be left out of the order. */
  lemma LeaveOut(avail: int, t: Table, pid: Pid)
    requires NonNegative(t) && pid in t && t[pid].nowHave == 0 && Safe(avail, t)
    ensures Safe(avail, t - {pid})
  {
    var u := t - {pid};
    var order :| OrderOf(order, t) && Completes(avail, order, t);
    OrderMembers(order, t);
    var i :| 0 <= i < |order| && order[i] == pid;
    CutCompletes(avail, order, i, t);
    OrderCut(order, t, i, u);
    OrderMembers(Cut(order, i), u);
    hide Cut;
    CompletesSame(avail, Cut(order, i), t, u);
  }

  lemma OrderCut(order: seq<Pid>, t: Table, i: nat, u: Table)
    requires OrderOf(order, t) && i < |order| && u.Keys == t.Keys - {order[i]}
    ensures OrderOf(Cut(order, i), u)
  {
    hide Cut;
    CutMultiset(order, i);
    assert multiset(u.Keys) == multiset(t.Keys) - multiset{order[i]};
  }

  lemma RemoveIdle(s: Bank, pid: Pid)
    requires Good(s) && HoldingOf(s.table, pid) == 0
    ensures Good(AfterRemoveOne(s, pid))
  {
    CallsKeepSound(s, Remove([pid]), false);
    assert [pid][1..] == [] && AfterRemove(s, [pid]) == AfterRemoveOne(s, pid);
    if pid in s.table {
      LeaveOut(s.avail, s.table, pid);
    } else {
      assert s.table - {pid} == s.table;
    }
  }

  /** Threads that hold nothing can always be removed. */
  lemma {:induction false} RemoveSafe(s: Bank, pids: seq<Pid>)
    requires Good(s) && forall i :: 0 <= i < |pids| ==> HoldingOf(s.table, pids[i]) == 0
    ensures Good(AfterRemove(s, pids))
    decreases |pids|
  {
    if pids != [] {
      RemoveIdle(s, pids[0]);
      hide Good;
      RemoveSafe(AfterRemoveOne(s, pids[0]), pids[1..]);
    }
  }

  // ---------------------------------------------------------------------
  // Runs
  // ---------------------------------------------------------------------

  /** Each operation keeps the bank good, whatever the answer to a request,
      exactly when it is properly used. */
  lemma OpSafeIff(s: Bank, op: Op)
    requires Good(s)
    ensures (forall granted :: Possible(s, op, granted) ==> Good(Apply(s, op, granted))) <==> Proper(s, op)
  {
    match op
    case Request(pid, need) =>
      RequestSafeIff(s, pid, need);
      assert forall granted :: Possible(s, op, granted) <==> MayAnswer(s, pid, need, granted);
    case Release(pid, nums) =>
      ReleaseSafe(s, pid, nums);
    case Add(pid, claim) =>
      var t := s.table - {pid};
      var order := AscendingOrder(t);
      AscendingScanExact(s.avail, t);
      GreedyExact(s.avail, order, t);
      AddSafeIff(s, pid, claim, order);
      assert Possible(s, op, false);
    case Remove(pids) =>
      var t := s.table - IdsOf(pids);
      var order := AscendingOrder(t);
      AscendingScanExact(s.avail, t);
      GreedyExact(s.avail, order, t);
      RemoveSafeIff(s, pids, order);
      assert Possible(s, op, false);
  }

  /** The bank has a property at every point of every run of these calls,
      whatever the answers. */
  ghost predicate Throughout(inv: Bank -> bool, s: Bank, calls: seq<Op>)
    decreases |calls|
  {
    && inv(s)
    && (calls == [] || forall granted :: Possible(s, calls[0], granted) ==>
          Throughout(inv, Apply(s, calls[0], granted), calls[1..]))
  }

  /** Every call meets its condition wherever such a run gets to it. */
  ghost predicate Allowed(ok: (Bank, Op) -> bool, s: Bank, calls: seq<Op>)
    decreases |calls|
  {
    calls == [] ||
    (ok(s, calls[0]) && forall granted :: Possible(s, calls[0], granted) ==>
       Allowed(ok, Apply(s, calls[0], granted), calls[1..]))
  }

  /** A condition that is exact for one call is exact for runs. */
  lemma {:induction false} ThroughoutIff(inv: Bank -> bool, ok: (Bank, Op) -> bool, s: Bank, calls: seq<Op>)
    requires inv(s)
    requires forall x, op :: inv(x) ==>
               ((forall granted :: Possible(x, op, granted) ==> inv(Apply(x, op, granted))) <==> ok(x, op))
    ensures Throughout(inv, s, calls) <==> Allowed(ok, s, calls)
    decreases |calls|
  {
    if calls != [] {
      forall granted | Possible(s, calls[0], granted) && inv(Apply(s, calls[0], granted))
        ensures Throughout(inv, Apply(s, calls[0], granted), calls[1..])
                <==> Allowed(ok, Apply(s, calls[0], granted), calls[1..])
      {
        ThroughoutIff(inv, ok, Apply(s, calls[0], granted), calls[1..]);
      }
    }
  }

  /** Every run of the calls is safe throughout exactly when every call in it
      is properly used. */
  lemma RunsStaySafeIff(s: Bank, calls: seq<Op>)
    requires Good(s)
    ensures Throughout(Good, s, calls) <==> Allowed(Proper, s, calls)
  {
    forall x, op | Good(x)
      ensures (forall granted :: Possible(x, op, granted) ==> Good(Apply(x, op, granted))) <==> Proper(x, op)
    {
      OpSafeIff(x, op);
    }
    ThroughoutIff(Good, Proper, s, calls);
  }

  /** A bank where nobody holds anything is good exactly when every claim is
      within the total. */
  lemma FreshGoodIff(total: int, t: Table, listed: multiset<Pid>)
    requires (forall p :: p in t ==> t[p].nowHave == 0) && forall p :: p in listed <==> p in t
    ensures Good(Bank(total, total, t, 0, listed)) <==> AllFit(total, t)
  {
    NothingHeld(t.Keys, t);
    if AllFit(total, t) {
      FitIsSafe(total, t);
    }
    if Safe(total, t) {
      forall p | p in t ensures Need(t[p]) <= total {
        SafeClaim(total, t, p);
      }
    }
  }

  lemma {:induction false} NothingHeld(keys: set<Pid>, t: Table)
    requires keys <= t.Keys && forall p :: p in t ==> t[p].nowHave == 0
    ensures HeldIn(keys, t) == 0
    decreases keys
  {
    if keys != {} {
      var p :| p in keys;
      HeldInAny(keys, t, p);
      NothingHeld(keys - {p}, t);
    }
  }
}
