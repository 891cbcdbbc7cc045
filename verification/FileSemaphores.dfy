/**
 * The semaphores of pro_com as they are really built: one file per counter,
 * all under one flock, shown to refine BoundedBuffer step by step.
 */
module FileSemaphores {
  import opened BoundedBuffer
  import opened Options

  // A counter is read with cat, tested, and rewritten with echo.  Every command
  // is a step of its own and any process may move between two of them; the
  // redirection of echo empties the file before the new number is written, and
  // that write is the moment the atomic semaphore changes.

  /** Contents of the three counter files; None is an emptied file. */
  datatype Files = Files(free: Option<int>, space: Option<int>, data: Option<int>) {
    function Get(s: Sem): Option<int> {
      match s case Free => free case Space => space case Data => data
    }

    function Set(s: Sem, n: Option<int>): Files {
      match s
      case Free => this.(free := n)
      case Space => this.(space := n)
      case Data => this.(data := n)
    }
  }

  /** Where a process stands inside a call of _sem_wait_ or _sem_post_. */
  datatype Micro =
    | Ready               // about to flock, or not in a call
    | Locked              // holds the lock, about to cat
    | Got(v: int)         // has read v, about to test it (wait) or use it (post)
    | Passed(v: int)      // wait only: the test v > 0 succeeded
    | Emptied(v: int)     // the redirection has emptied the file
    | Wrote               // echo done, about to unlock
    | Refused             // wait only: the test failed, about to unlock
    | Asleep              // wait only: unlocked, sleeping before the next try

  datatype Thread = Thread(proc: Proc, micro: Micro)

  datatype Machine = Machine(
    files: Files, lock: Option<nat>, buffer: seq<Item>, threads: seq<Thread>,
    produced: seq<Item>, consumed: seq<Item>)

  /** The micro steps between flock and flock -u. */
  predicate Critical(m: Micro) {
    !m.Ready? && !m.Asleep?
  }

  predicate CanStep(m: Machine, i: nat) {
    i < |m.threads| &&
    (m.threads[i].micro.Ready? && !NextCall(m.threads[i].proc).NoCall? ==> m.lock.None?)
  }

  /** The number a cat of the file yields; an empty file fails the test of
      wait and counts as zero in the arithmetic of post. */
  function Cat(f: Option<int>): int {
    if f.Some? then f.value else 0
  }

  /** One command of the wait or post call that thread i is in. */
  function CallStep(m: Machine, i: nat): Machine
    requires i < |m.threads| && !NextCall(m.threads[i].proc).NoCall?
  {
    var t := m.threads[i];
    var call := NextCall(t.proc);
    match t.micro
    case Ready => m.(lock := Some(i), threads := m.threads[i := t.(micro := Locked)])
    case Locked => m.(threads := m.threads[i := t.(micro := Got(Cat(m.files.Get(call.sem))))])
    case Got(v) =>
      if call.Post? then
        m.(files := m.files.Set(call.sem, None), threads := m.threads[i := t.(micro := Emptied(v))])
      else if v > 0 then m.(threads := m.threads[i := t.(micro := Passed(v))])
      else m.(threads := m.threads[i := t.(micro := Refused)])
    case Passed(v) =>
      m.(files := m.files.Set(call.sem, None), threads := m.threads[i := t.(micro := Emptied(v))])
    case Emptied(v) =>
      m.(files := m.files.Set(call.sem, Some(if call.Post? then v + 1 else v - 1)),
         threads := m.threads[i := t.(micro := Wrote)])
    case Wrote => m.(lock := None, threads := m.threads[i := Thread(AfterCall(t.proc), Ready)])
    case Refused => m.(lock := None, threads := m.threads[i := t.(micro := Asleep)])
    case Asleep => m.(threads := m.threads[i := t.(micro := Ready)])
  }

  /** One command of thread i on the buffer file. */
  function BufferStep(m: Machine, i: nat): Machine
    requires i < |m.threads|
  {
    match m.threads[i].proc
    case Append(v) =>
      m.(buffer := m.buffer + [v], produced := m.produced + [v],
         threads := m.threads[i := Thread(PostFreeP(v), Ready)])
    case ReadHead =>
      m.(threads := m.threads[i := Thread(CopyTail(FirstLine(m.buffer)), Ready)])
    case CopyTail(h) =>
      m.(threads := m.threads[i := Thread(Install(h, RestLines(m.buffer)), Ready)])
    case Install(h, t) =>
      m.(buffer := t, consumed := m.consumed + [h], threads := m.threads[i := Thread(PostFreeC, Ready)])
    case _ => m
  }

  function StepOf(m: Machine, i: nat): Machine
    requires i < |m.threads|
  {
    if NextCall(m.threads[i].proc).NoCall? then BufferStep(m, i) else CallStep(m, i)
  }

  predicate LegalRun(m: Machine, schedule: seq<nat>)
    decreases |schedule|
  {
    schedule == [] || (CanStep(m, schedule[0]) && LegalRun(StepOf(m, schedule[0]), schedule[1..]))
  }

  function RunOf(m: Machine, schedule: seq<nat>): Machine
    requires LegalRun(m, schedule)
    decreases |schedule|
  {
    if schedule == [] then m else RunOf(StepOf(m, schedule[0]), schedule[1..])
  }

  /** run.sh: the files hold 1, bufsize and 0, nothing is locked; the buffer
      file is as it was found. */
  predicate Start(m: Machine, bufsize: nat) {
    && m.files == Files(Some(1), Some(bufsize), Some(0))
    && m.lock.None? && m.produced == m.buffer && m.consumed == []
    && forall i :: 0 <= i < |m.threads| ==>
         m.threads[i].micro.Ready? && (m.threads[i].proc.WaitSpace? || m.threads[i].proc.WaitData?)
  }

  // ---------------------------------------------------------------------
  // The lock protects the files
  // ---------------------------------------------------------------------

  /** What the lock holder knows: the number it read is still the counter, the
      file is empty exactly between its redirection and its write. */
  predicate HolderKnows(m: Machine, t: Thread) {
    var call := NextCall(t.proc);
    && !call.NoCall?
    && (forall s :: s != call.sem ==> m.files.Get(s).Some?)
    && (m.files.Get(call.sem).None? <==> t.micro.Emptied?)
    && (t.micro.Got? ==> m.files.Get(call.sem) == Some(t.micro.v))
    && (t.micro.Passed? ==> call.Wait? && t.micro.v > 0 && m.files.Get(call.sem) == Some(t.micro.v))
    && (t.micro.Emptied? && call.Wait? ==> t.micro.v > 0)
    && (t.micro.Refused? ==> call.Wait?)
  }

  predicate LockInv(m: Machine) {
    && (forall i :: 0 <= i < |m.threads| ==>
          (Critical(m.threads[i].micro) <==> m.lock == Some(i)))
    && (forall i :: 0 <= i < |m.threads| && m.threads[i].micro.Asleep? ==> NextCall(m.threads[i].proc).Wait?)
    && match m.lock
       case None => forall s :: m.files.Get(s).Some?
       case Some(i) => i < |m.threads| && HolderKnows(m, m.threads[i])
  }

  lemma StepLockInv(m: Machine, i: nat)
    requires LockInv(m) && CanStep(m, i)
    ensures LockInv(StepOf(m, i))
  {
    var m' := StepOf(m, i);
    assert forall j :: 0 <= j < |m.threads| && j != i ==> m'.threads[j] == m.threads[j];
    if m'.lock == m.lock {
      match m.lock
      case None =>
      case Some(h) =>
        if h == i {
          HolderStep(m, i);
        } else {
          assert m'.files == m.files && m'.threads[h] == m.threads[h];
        }
    }
  }

  /** Between flock and flock -u the holder keeps what it knows. */
  lemma HolderStep(m: Machine, i: nat)
    requires i < |m.threads| && HolderKnows(m, m.threads[i])
    requires Critical(m.threads[i].micro) && !m.threads[i].micro.Wrote? && !m.threads[i].micro.Refused?
    ensures HolderKnows(StepOf(m, i), StepOf(m, i).threads[i])
    ensures Critical(StepOf(m, i).threads[i].micro)
  {
    var m' := StepOf(m, i);
    var sem := NextCall(m.threads[i].proc).sem;
    forall s | s != sem ensures m'.files.Get(s) == m.files.Get(s) {
    }
  }

  // ---------------------------------------------------------------------
  // Refinement
  // ---------------------------------------------------------------------

  /** The counter a file stands for; an emptied file stands for the number its
      lock holder has read. */
  function Counter(m: Machine, s: Sem): int {
    if m.files.Get(s).Some? then m.files.Get(s).value
    else if m.lock.Some? && m.lock.value < |m.threads| && m.threads[m.lock.value].micro.Emptied?
      then m.threads[m.lock.value].micro.v
    else 0
  }

  /** A call takes effect when its number is written. */
  function AbsProc(t: Thread): Proc {
    if t.micro.Wrote? then AfterCall(t.proc) else t.proc
  }

  function AbsProcs(ts: seq<Thread>): seq<Proc> {
    seq(|ts|, i requires 0 <= i < |ts| => AbsProc(ts[i]))
  }

  function Abs(m: Machine): State {
    State(Sems(Counter(m, Free), Counter(m, Space), Counter(m, Data)),
          m.buffer, AbsProcs(m.threads), m.produced, m.consumed)
  }

  /** The steps that are visible to the atomic model. */
  predicate Visible(m: Machine, i: nat) {
    i < |m.threads| && (NextCall(m.threads[i].proc).NoCall? || m.threads[i].micro.Emptied?)
  }

  lemma AbsUpdate(ts: seq<Thread>, i: nat, t: Thread)
    requires i < |ts|
    ensures AbsProcs(ts[i := t]) == AbsProcs(ts)[i := AbsProc(t)]
  {
  }

  /** Invisible steps stutter: in particular a failed test, the sleep and the
      next try change nothing. */
  lemma Stutters(m: Machine, i: nat)
    requires LockInv(m) && CanStep(m, i) && !Visible(m, i)
    ensures Abs(StepOf(m, i)) == Abs(m)
  {
    var m' := StepOf(m, i);
    AbsUpdate(m.threads, i, m'.threads[i]);
    assert m'.threads == m.threads[i := m'.threads[i]];
    assert AbsProc(m'.threads[i]) == AbsProc(m.threads[i]) == AbsProcs(m.threads)[i];
    forall s ensures Counter(m', s) == Counter(m, s) {
    }
  }

  /** Visible steps are exactly the enabled atomic step of the same process. */
  lemma Refines(m: Machine, i: nat)
    requires LockInv(m) && CanStep(m, i) && Visible(m, i)
    ensures Enabled(Abs(m), i) && Abs(StepOf(m, i)) == Step(Abs(m), i)
  {
    var m' := StepOf(m, i);
    var t := m.threads[i];
    AbsUpdate(m.threads, i, m'.threads[i]);
    assert m'.threads == m.threads[i := m'.threads[i]];
    assert Abs(m).procs[i] == AbsProc(t) == t.proc;
  }

  /** The visible part of a run, as a schedule of the atomic model. */
  function VisibleSteps(m: Machine, schedule: seq<nat>): seq<nat>
    requires LegalRun(m, schedule)
    decreases |schedule|
  {
    if schedule == [] then []
    else
      (if Visible(m, schedule[0]) then [schedule[0]] else [])
      + VisibleSteps(StepOf(m, schedule[0]), schedule[1..])
  }

  /** Every run of the scripts is, step for visible step, a run of the atomic
      semaphores: no update is lost and nothing else happens. */
  lemma {:induction false} RunRefines(m: Machine, schedule: seq<nat>)
    requires LockInv(m) && LegalRun(m, schedule)
    ensures LockInv(RunOf(m, schedule))
    ensures Legal(Abs(m), VisibleSteps(m, schedule))
    ensures RunFrom(Abs(m), VisibleSteps(m, schedule)) == Abs(RunOf(m, schedule))
    decreases |schedule|
  {
    if schedule != [] {
      var i, rest := schedule[0], schedule[1..];
      StepLockInv(m, i);
      RunRefines(StepOf(m, i), rest);
      if Visible(m, i) {
        Refines(m, i);
        assert VisibleSteps(m, schedule)[1..] == VisibleSteps(StepOf(m, i), rest);
      } else {
        Stutters(m, i);
        assert VisibleSteps(m, schedule) == VisibleSteps(StepOf(m, i), rest);
      }
    }
  }

  lemma StartRefines(m: Machine, bufsize: nat)
    requires Start(m, bufsize)
    ensures LockInv(m) && Initial(Abs(m), bufsize)
  {
  }

  /** Safety of the scripts, over every interleaving of their commands. */
  lemma ScriptsAreSafe(m: Machine, bufsize: nat, schedule: seq<nat>)
    requires Start(m, bufsize) && LegalRun(m, schedule)
    ensures var n := RunOf(m, schedule);
            && LockInv(n) && Inv(Abs(n), bufsize, |m.buffer|)
            && n.produced == n.consumed + n.buffer
            && |m.buffer| <= |n.buffer| <= bufsize + |m.buffer|
            && (forall s :: n.files.Get(s).Some? ==> n.files.Get(s).value >= 0)
            && (forall i :: 0 <= i < |n.threads| && n.threads[i].proc.ReadHead? ==> n.buffer != [])
  {
    var n := RunOf(m, schedule);
    StartRefines(m, bufsize);
    RunRefines(m, schedule);
    FifoDelivery(Abs(m), bufsize, VisibleSteps(m, schedule));
    InitialInv(Abs(m), bufsize);
    RunInv(Abs(m), bufsize, |m.buffer|, VisibleSteps(m, schedule));
    hide LockInv, Inv, Start, Initial, LegalRun, RunOf, VisibleSteps, RunFrom, Legal;
    AbstractBounds(n);
  }

  /** What the scripts deliver: what was left over, then the producers' own lines
      in the order they appended them. */
  lemma ScriptsDeliverLines(m: Machine, bufsize: nat, schedule: seq<nat>)
    requires Start(m, bufsize) && LegalRun(m, schedule)
    ensures var n := RunOf(m, schedule);
            && Legal(Abs(m), VisibleSteps(m, schedule)) && |LinesOf(Abs(m).procs)| == |m.threads|
            && n.consumed + n.buffer == m.buffer + Appends(Abs(m), LinesOf(Abs(m).procs), VisibleSteps(m, schedule))
  {
    StartRefines(m, bufsize);
    RunRefines(m, schedule);
    DeliveredAre(Abs(m), bufsize, VisibleSteps(m, schedule));
  }

  /** What bounds of the abstract state mean for the files and the threads. */
  lemma AbstractBounds(n: Machine)
    requires Abs(n).sems.free >= 0 && Abs(n).sems.space >= 0 && Abs(n).sems.data >= 0
    requires forall i :: 0 <= i < |Abs(n).procs| && Abs(n).procs[i].ReadHead? ==> n.buffer != []
    ensures forall s :: n.files.Get(s).Some? ==> n.files.Get(s).value >= 0
    ensures forall i :: 0 <= i < |n.threads| && n.threads[i].proc.ReadHead? ==> n.buffer != []
  {
    forall s | n.files.Get(s).Some? ensures n.files.Get(s).value >= 0 {
      assert Abs(n).sems.Get(s) == Counter(n, s);
    }
    forall i | 0 <= i < |n.threads| && n.threads[i].proc.ReadHead? ensures n.buffer != [] {
      assert Abs(n).procs[i] == AbsProc(n.threads[i]);
    }
  }

  // ---------------------------------------------------------------------
  // One call, undisturbed
  // ---------------------------------------------------------------------

  lemma RunCons(m: Machine, i: nat, r: seq<nat>)
    requires CanStep(m, i) && LegalRun(StepOf(m, i), r)
    ensures LegalRun(m, [i] + r) && RunOf(m, [i] + r) == RunOf(StepOf(m, i), r)
  {
    assert ([i] + r)[1..] == r;
  }

  /** Thread i at the given place, with the lock, one file holding f. */
  function At(m: Machine, i: nat, sem: Sem, f: Option<int>, t: Thread): Machine
    requires i < |m.threads|
  {
    m.(lock := Some(i), files := m.files.Set(sem, f), threads := m.threads[i := t])
  }

  /** From its place with the lock onward, the thread makes the next command. */
  lemma AtStep(m: Machine, i: nat, sem: Sem, f: Option<int>, t: Thread)
    requires i < |m.threads| && Critical(t.micro) && (NextCall(t.proc) == Wait(sem) || NextCall(t.proc) == Post(sem))
    ensures var n, p, w := At(m, i, sem, f, t), t.proc, NextCall(t.proc).Wait?;
            CanStep(n, i) && StepOf(n, i) ==
              match t.micro
              case Locked => At(m, i, sem, f, Thread(p, Got(if f == None then 0 else f.value)))
              case Got(v) =>
                if w && v > 0 then At(m, i, sem, f, Thread(p, Passed(v)))
                else if w then At(m, i, sem, f, Thread(p, Refused))
                else At(m, i, sem, None, Thread(p, Emptied(v)))
              case Passed(v) => At(m, i, sem, None, Thread(p, Emptied(v)))
              case Emptied(v) => At(m, i, sem, Some(if w then v - 1 else v + 1), Thread(p, Wrote))
              case Wrote =>
                m.(lock := None, files := m.files.Set(sem, f), threads := m.threads[i := Thread(AfterCall(p), Ready)])
              case _ =>
                m.(lock := None, files := m.files.Set(sem, f), threads := m.threads[i := Thread(p, Asleep)])
  {
  }

  /** Undisturbed, a wait whose counter is positive takes six commands (flock,
      cat, test, empty, write, unlock) and lowers the counter by one. */
  lemma WaitRound(m: Machine, i: nat, sem: Sem, v: int)
    requires m.lock.None? && i < |m.threads| && m.threads[i].micro.Ready?
    requires NextCall(m.threads[i].proc) == Wait(sem) && m.files.Get(sem) == Some(v) && v > 0
    ensures LegalRun(m, [i] + ([i] + ([i] + ([i] + ([i] + ([i] + []))))))
    ensures RunOf(m, [i] + ([i] + ([i] + ([i] + ([i] + ([i] + [])))))) ==
            m.(files := m.files.Set(sem, Some(v - 1)),
               threads := m.threads[i := Thread(AfterCall(m.threads[i].proc), Ready)])
  {
    var p := m.threads[i].proc;
    SetSame(m, i, sem, v);
    AtStep(m, i, sem, Some(v), Thread(p, Locked));
    AtStep(m, i, sem, Some(v), Thread(p, Got(v)));
    AtStep(m, i, sem, Some(v), Thread(p, Passed(v)));
    AtStep(m, i, sem, None, Thread(p, Emptied(v)));
    AtStep(m, i, sem, Some(v - 1), Thread(p, Wrote));
    hide StepOf, CanStep, At;
    RunCons(At(m, i, sem, Some(v - 1), Thread(p, Wrote)), i, []);
    RunCons(At(m, i, sem, None, Thread(p, Emptied(v))), i, [i] + []);
    RunCons(At(m, i, sem, Some(v), Thread(p, Passed(v))), i, [i] + ([i] + []));
    RunCons(At(m, i, sem, Some(v), Thread(p, Got(v))), i, [i] + ([i] + ([i] + [])));
    RunCons(At(m, i, sem, Some(v), Thread(p, Locked)), i, [i] + ([i] + ([i] + ([i] + []))));
    RunCons(m, i, [i] + ([i] + ([i] + ([i] + ([i] + [])))));
  }

  /** A wait whose counter is not positive takes five (flock, cat, test, unlock,
      sleep), after which nothing has changed and the call starts again. */
  lemma RefusedRound(m: Machine, i: nat, sem: Sem, v: int)
    requires m.lock.None? && i < |m.threads| && m.threads[i].micro.Ready?
    requires NextCall(m.threads[i].proc) == Wait(sem) && m.files.Get(sem) == Some(v) && v <= 0
    ensures LegalRun(m, [i] + ([i] + ([i] + ([i] + ([i] + [])))))
    ensures RunOf(m, [i] + ([i] + ([i] + ([i] + ([i] + []))))) == m
  {
    var p := m.threads[i].proc;
    SetSame(m, i, sem, v);
    AtStep(m, i, sem, Some(v), Thread(p, Locked));
    AtStep(m, i, sem, Some(v), Thread(p, Got(v)));
    AtStep(m, i, sem, Some(v), Thread(p, Refused));
    var slept := m.(threads := m.threads[i := Thread(p, Asleep)]);
    assert CanStep(slept, i) && StepOf(slept, i) == m by {
      assert m.threads[i := Thread(p, Asleep)][i := Thread(p, Ready)] == m.threads;
    }
    hide StepOf, CanStep, At;
    RunCons(slept, i, []);
    RunCons(At(m, i, sem, Some(v), Thread(p, Refused)), i, [i] + []);
    RunCons(At(m, i, sem, Some(v), Thread(p, Got(v))), i, [i] + ([i] + []));
    RunCons(At(m, i, sem, Some(v), Thread(p, Locked)), i, [i] + ([i] + ([i] + [])));
    RunCons(m, i, [i] + ([i] + ([i] + ([i] + []))));
  }

  /** A post takes five (flock, cat, empty, write, unlock) and raises the counter
      by one. */
  lemma PostRound(m: Machine, i: nat, sem: Sem, v: int)
    requires m.lock.None? && i < |m.threads| && m.threads[i].micro.Ready?
    requires NextCall(m.threads[i].proc) == Post(sem) && m.files.Get(sem) == Some(v)
    ensures LegalRun(m, [i] + ([i] + ([i] + ([i] + ([i] + [])))))
    ensures RunOf(m, [i] + ([i] + ([i] + ([i] + ([i] + []))))) ==
            m.(files := m.files.Set(sem, Some(v + 1)),
               threads := m.threads[i := Thread(AfterCall(m.threads[i].proc), Ready)])
  {
    var p := m.threads[i].proc;
    SetSame(m, i, sem, v);
    AtStep(m, i, sem, Some(v), Thread(p, Locked));
    AtStep(m, i, sem, Some(v), Thread(p, Got(v)));
    AtStep(m, i, sem, None, Thread(p, Emptied(v)));
    AtStep(m, i, sem, Some(v + 1), Thread(p, Wrote));
    hide StepOf, CanStep, At;
    RunCons(At(m, i, sem, Some(v + 1), Thread(p, Wrote)), i, []);
    RunCons(At(m, i, sem, None, Thread(p, Emptied(v))), i, [i] + []);
    RunCons(At(m, i, sem, Some(v), Thread(p, Got(v))), i, [i] + ([i] + []));
    RunCons(At(m, i, sem, Some(v), Thread(p, Locked)), i, [i] + ([i] + ([i] + [])));
    RunCons(m, i, [i] + ([i] + ([i] + ([i] + []))));
  }

  /** The start of a call. */
  lemma SetSame(m: Machine, i: nat, sem: Sem, v: int)
    requires m.lock.None? && i < |m.threads| && m.threads[i].micro.Ready?
    requires !NextCall(m.threads[i].proc).NoCall? && m.files.Get(sem) == Some(v)
    ensures m.files.Set(sem, Some(v)) == m.files && m.(lock := None) == m
    ensures CanStep(m, i) && StepOf(m, i) == At(m, i, sem, Some(v), Thread(m.threads[i].proc, Locked))
  {
  }

  // ---------------------------------------------------------------------
  // Progress
  // ---------------------------------------------------------------------

  function VisibleFirst(m: Machine, i: nat): seq<nat> {
    if Visible(m, i) then [i] else []
  }

  lemma VisibleUnfold(m: Machine, schedule: seq<nat>)
    requires schedule != [] && LegalRun(m, schedule)
    ensures VisibleSteps(m, schedule) ==
            VisibleFirst(m, schedule[0]) + VisibleSteps(StepOf(m, schedule[0]), schedule[1..])
  {
  }

  lemma Regroup(a: seq<nat>, b: seq<nat>, c: seq<nat>)
    ensures a + b + c == a + (b + c)
  {
  }

  lemma {:induction false} RunConcat(m: Machine, a: seq<nat>, b: seq<nat>)
    requires LegalRun(m, a) && LegalRun(RunOf(m, a), b)
    ensures LegalRun(m, a + b)
    ensures VisibleSteps(m, a + b) == VisibleSteps(m, a) + VisibleSteps(RunOf(m, a), b)
    decreases |a|
  {
    if a == [] {
      assert a + b == b;
    } else {
      assert (a + b)[1..] == a[1..] + b && (a + b)[0] == a[0];
      RunConcat(StepOf(m, a[0]), a[1..], b);
      VisibleUnfold(m, a);
      VisibleUnfold(m, a + b);
      hide StepOf, CanStep, VisibleSteps, VisibleFirst;
      Regroup(VisibleFirst(m, a[0]), VisibleSteps(StepOf(m, a[0]), a[1..]), VisibleSteps(RunOf(m, a), b));
    }
  }

  function StepsLeft(t: Micro): nat {
    match t
    case Locked => 5 case Got(_) => 4 case Passed(_) => 3 case Emptied(_) => 2 case _ => 1
  }

  /** Letting the lock holder alone move releases the lock with its call
      completed or nothing changed; it completes the call whenever the call is
      still undecided and its counter allows it. */
  lemma {:induction false} Drive(m: Machine, i: nat) returns (schedule: seq<nat>)
    requires LockInv(m) && m.lock == Some(i)
    ensures LegalRun(m, schedule) && RunOf(m, schedule).lock.None?
    ensures VisibleSteps(m, schedule) == [] || VisibleSteps(m, schedule) == [i]
    ensures m.threads[i].micro.Wrote? || m.threads[i].micro.Refused? ==> VisibleSteps(m, schedule) == []
    ensures Enabled(Abs(m), i) && !m.threads[i].micro.Wrote? && !m.threads[i].micro.Refused? ==>
              VisibleSteps(m, schedule) == [i]
    decreases StepsLeft(m.threads[i].micro)
  {
    assert CanStep(m, i);
    var m' := StepOf(m, i);
    var t := m.threads[i];
    StepLockInv(m, i);
    if t.micro.Wrote? || t.micro.Refused? {
      schedule := [i];
      assert schedule[1..] == [];
    } else {
      if !t.micro.Emptied? {
        Stutters(m, i);
        assert Abs(m).procs[i] == AbsProc(t);
        assert Abs(m).sems.Get(NextCall(t.proc).sem) == Counter(m, NextCall(t.proc).sem);
      }
      var rest := Drive(m', i);
      schedule := [i] + rest;
      assert schedule[1..] == rest;
    }
  }

  /** With the lock free, an enabled process can make exactly its next visible
      step and leave the lock free. */
  lemma Complete(m: Machine, i: nat) returns (schedule: seq<nat>)
    requires LockInv(m) && m.lock.None? && i < |m.threads| && Enabled(Abs(m), i)
    ensures LegalRun(m, schedule) && VisibleSteps(m, schedule) == [i] && RunOf(m, schedule).lock.None?
  {
    var t := m.threads[i];
    assert !Critical(t.micro);
    assert Abs(m).procs[i] == AbsProc(t) == t.proc;
    if NextCall(t.proc).NoCall? {
      schedule := [i];
      assert schedule[1..] == [];
    } else if t.micro.Asleep? {
      StepLockInv(m, i);
      Stutters(m, i);
      var rest := TryCall(StepOf(m, i), i);
      schedule := [i] + rest;
      assert schedule[1..] == rest;
    } else {
      schedule := TryCall(m, i);
    }
  }

  lemma TryCall(m: Machine, i: nat) returns (schedule: seq<nat>)
    requires LockInv(m) && m.lock.None? && i < |m.threads| && Enabled(Abs(m), i)
    requires m.threads[i].micro.Ready? && !NextCall(m.threads[i].proc).NoCall?
    ensures LegalRun(m, schedule) && VisibleSteps(m, schedule) == [i] && RunOf(m, schedule).lock.None?
  {
    StepLockInv(m, i);
    Stutters(m, i);
    var rest := Drive(StepOf(m, i), i);
    schedule := [i] + rest;
    assert schedule[1..] == rest;
  }

  /** The converse of RunRefines: with the lock free, every run of the atomic
      semaphores is the visible part of a run of the scripts. */
  lemma {:induction false} Realises(m: Machine, r: seq<nat>) returns (schedule: seq<nat>)
    requires LockInv(m) && m.lock.None? && Legal(Abs(m), r)
    ensures LegalRun(m, schedule) && VisibleSteps(m, schedule) == r
    ensures Abs(RunOf(m, schedule)) == RunFrom(Abs(m), r)
    decreases |r|
  {
    schedule := [];
    if r != [] {
      var first := Complete(m, r[0]);
      RunRefines(m, first);
      assert r[..1] == [r[0]];
      var n := RunOf(m, first);
      assert [r[0]][1..] == [];
      var rest := Realises(n, r[1..]);
      RunConcat(m, first, rest);
      schedule := first + rest;
      RunRefines(m, schedule);
    }
  }

  /** With a producer present the scripts keep the buffer within its configured
      size in every run exactly when they found it empty. */
  lemma ScriptsOverflowIff(m: Machine, bufsize: nat, p: nat)
    requires Start(m, bufsize) && p < |m.threads| && m.threads[p].proc.IsProducer()
    ensures (forall schedule :: LegalRun(m, schedule) ==> |RunOf(m, schedule).buffer| <= bufsize)
            <==> m.buffer == []
  {
    StartRefines(m, bufsize);
    assert Abs(m).procs[p] == AbsProc(m.threads[p]);
    var r := FillUp(Abs(m), p);
    var full := Realises(m, r);
    assert |RunOf(m, full).buffer| == |m.buffer| + bufsize;
    forall schedule | LegalRun(m, schedule) && m.buffer == [] ensures |RunOf(m, schedule).buffer| <= bufsize {
      ScriptsAreSafe(m, bufsize, schedule);
    }
  }

  /** No deadlock and no state from which only spinning is possible: with room
      in the buffer and both kinds of process, every reachable state has a
      continuation in which some process completes a step of its own. */
  lemma ScriptsProgress(m: Machine, bufsize: nat, left: nat, producer: nat, consumer: nat) returns (schedule: seq<nat>)
    requires LockInv(m) && Inv(Abs(m), bufsize, left) && bufsize >= 1
    requires producer < |m.threads| && m.threads[producer].proc.IsProducer()
    requires consumer < |m.threads| && !m.threads[consumer].proc.IsProducer()
    ensures LegalRun(m, schedule) && |VisibleSteps(m, schedule)| == 1
  {
    var first: seq<nat> := [];
    if m.lock.Some? {
      first := Drive(m, m.lock.value);
    }
    if |VisibleSteps(m, first)| == 1 {
      schedule := first;
    } else {
      var m' := RunOf(m, first);
      RunRefines(m, first);
      assert Abs(m').procs[producer] == Abs(m).procs[producer] == AbsProc(m.threads[producer]);
      assert Abs(m').procs[consumer] == Abs(m).procs[consumer] == AbsProc(m.threads[consumer]);
      var i := Progress(Abs(m'), bufsize, left, producer, consumer);
      var rest := Complete(m', i);
      RunConcat(m, first, rest);
      schedule := first + rest;
    }
  }

  /** The kind of a thread never changes. */
  lemma {:induction false} ThreadKindsStay(m: Machine, run: seq<nat>, i: nat)
    requires LegalRun(m, run) && i < |m.threads|
    ensures |RunOf(m, run).threads| == |m.threads|
    ensures RunOf(m, run).threads[i].proc.IsProducer() == m.threads[i].proc.IsProducer()
    decreases |run|
  {
    if run != [] {
      ThreadKindsStay(StepOf(m, run[0]), run[1..], i);
    }
  }

  /** The same, said of every run from the start. */
  lemma ScriptsNeverStuck(m: Machine, bufsize: nat, run: seq<nat>, producer: nat, consumer: nat)
    returns (more: seq<nat>)
    requires Start(m, bufsize) && bufsize >= 1 && LegalRun(m, run)
    requires producer < |m.threads| && m.threads[producer].proc.IsProducer()
    requires consumer < |m.threads| && !m.threads[consumer].proc.IsProducer()
    ensures LegalRun(m, run + more)
    ensures |VisibleSteps(m, run + more)| == |VisibleSteps(m, run)| + 1
  {
    var n := RunOf(m, run);
    StartRefines(m, bufsize);
    RunRefines(m, run);
    ScriptsAreSafe(m, bufsize, run);
    hide LockInv, Inv, Start, Initial, StepOf, CanStep, Step, Enabled, Visible;
    ThreadKindsStay(m, run, producer);
    ThreadKindsStay(m, run, consumer);
    more := ScriptsProgress(n, bufsize, |m.buffer|, producer, consumer);
    hide LegalRun, VisibleSteps, RunOf, Legal, RunFrom;
    RunConcat(m, run, more);
  }

  /** In every run of the scripts, all but a bounded number of the steps that
      are not spinning are matched by deliveries. */
  lemma ScriptsDeliver(m: Machine, bufsize: nat, schedule: seq<nat>)
    requires Start(m, bufsize) && LegalRun(m, schedule)
    ensures |VisibleSteps(m, schedule)| <= 12 * |RunOf(m, schedule).consumed| + 5 * bufsize + 4 * |m.threads|
  {
    StartRefines(m, bufsize);
    RunRefines(m, schedule);
    StepsDeliver(Abs(m), bufsize, VisibleSteps(m, schedule));
  }

  lemma {:induction false} ExtendBy(m: Machine, bufsize: nat, run: seq<nat>, producer: nat, consumer: nat, k: nat)
    returns (more: seq<nat>)
    requires Start(m, bufsize) && bufsize >= 1 && LegalRun(m, run)
    requires producer < |m.threads| && m.threads[producer].proc.IsProducer()
    requires consumer < |m.threads| && !m.threads[consumer].proc.IsProducer()
    ensures LegalRun(m, run + more)
    ensures |VisibleSteps(m, run + more)| == |VisibleSteps(m, run)| + k
    decreases k
  {
    more := [];
    assert run + more == run;
    if k > 0 {
      var first := ScriptsNeverStuck(m, bufsize, run, producer, consumer);
      var rest := ExtendBy(m, bufsize, run + first, producer, consumer, k - 1);
      more := first + rest;
      assert run + more == run + first + rest;
    }
  }

  /** Whatever has happened, any number of lines can still be delivered. */
  lemma ScriptsKeepDelivering(m: Machine, bufsize: nat, run: seq<nat>, producer: nat, consumer: nat, n: nat)
    returns (more: seq<nat>)
    requires Start(m, bufsize) && bufsize >= 1 && LegalRun(m, run)
    requires producer < |m.threads| && m.threads[producer].proc.IsProducer()
    requires consumer < |m.threads| && !m.threads[consumer].proc.IsProducer()
    ensures LegalRun(m, run + more) && |RunOf(m, run + more).consumed| >= n
  {
    more := ExtendBy(m, bufsize, run, producer, consumer, 12 * n + 5 * bufsize + 4 * |m.threads|);
    ScriptsDeliver(m, bufsize, run + more);
  }
}
