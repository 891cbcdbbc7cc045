/**
 * The readers/writers protocol of the shared-memory chat (SharedMeM.c, called
 * as in chat.cpp) by any number of reader and writer processes.
 */
module ReadersWriters {
  import opened Options
  import opened Sums

  // Every access to a shared variable is a step of its own: ++ and -- are a
  // load and a store.  The semicolon after the test in will_read makes the wait
  // on wmtx unconditional, and `readers` is guarded by rmtx on entry but by
  // rlock on exit.  Storing the shared integer takes two steps; between them
  // its content is undefined (None).

  datatype Proc =
    // reader: will_read
    | RIdle                      // about to wait on rmtx
    | RLoadIn                    // inside the gate
    | RStoreIn(r: int)
    | RTestIn                    // the test without effect
    | RWaitW
    | RPostGate                  // holds wmtx
    // reader: the access, then finish_read
    | RAccess
    | RLock(got: Option<int>)
    | RLoadOut(got: Option<int>)
    | RStoreOut(got: Option<int>, r: int)
    | RTestOut(got: Option<int>)
    | RPostW(got: Option<int>)   // readers was 0: about to give wmtx back
    | RUnlock(got: Option<int>)
    // writer: will_write
    | WIdle(val: int)            // about to lock wlock
    | WLoadIn(val: int)
    | WStoreIn(val: int, w: int)
    | WTestIn(val: int)
    | WWaitGate(val: int)
    | WUnlockIn(val: int)
    | WWaitW(val: int)
    // writer: the access, then finish_write
    | WBegin(val: int)           // holds wmtx
    | WEnd(val: int)
    | WPostW
    | WLock
    | WLoadOut
    | WStoreOut(w: int)
    | WTestOut
    | WPostGate
    | WUnlockOut
  {
    predicate IsReader() {
      RIdle? || RLoadIn? || RStoreIn? || RTestIn? || RWaitW? || RPostGate? || RAccess? || RLock? ||
      RLoadOut? || RStoreOut? || RTestOut? || RPostW? || RUnlock?
    }

    predicate Idle() {
      RIdle? || WIdle?
    }
  }

  /** The shared memory segment; `log` records the values whose stores are
      complete, oldest first. */
  datatype Shared = Shared(
    rmtx: int, wmtx: int, rlock: bool, wlock: bool,
    readers: int, writers: int,
    data: Option<int>, log: seq<int>)

  datatype State = State(shm: Shared, procs: seq<Proc>)

  /** Only waits on semaphores and locks can block. */
  predicate CanMove(m: Shared, p: Proc) {
    match p
    case RIdle => m.rmtx > 0
    case RWaitW => m.wmtx > 0
    case RLock(_) => !m.rlock
    case WIdle(_) => !m.wlock
    case WWaitGate(_) => m.rmtx > 0
    case WWaitW(_) => m.wmtx > 0
    case WLock => !m.wlock
    case _ => true
  }

  /** Where a process goes next; `input` is the number a writer reads next. */
  function Next(m: Shared, p: Proc, input: int): Proc {
    match p
    case RIdle => RLoadIn
    case RLoadIn => RStoreIn(m.readers)
    case RStoreIn(_) => RTestIn
    case RTestIn => RWaitW
    case RWaitW => RPostGate
    case RPostGate => RAccess
    case RAccess => RLock(m.data)
    case RLock(g) => RLoadOut(g)
    case RLoadOut(g) => RStoreOut(g, m.readers)
    case RStoreOut(g, _) => RTestOut(g)
    case RTestOut(g) => if m.readers == 0 then RPostW(g) else RUnlock(g)
    case RPostW(g) => RUnlock(g)
    case RUnlock(_) => RIdle
    case WIdle(v) => WLoadIn(v)
    case WLoadIn(v) => WStoreIn(v, m.writers)
    case WStoreIn(v, _) => WTestIn(v)
    case WTestIn(v) => if m.writers == 1 then WWaitGate(v) else WUnlockIn(v)
    case WWaitGate(v) => WUnlockIn(v)
    case WUnlockIn(v) => WWaitW(v)
    case WWaitW(v) => WBegin(v)
    case WBegin(v) => WEnd(v)
    case WEnd(_) => WPostW
    case WPostW => WLock
    case WLock => WLoadOut
    case WLoadOut => WStoreOut(m.writers)
    case WStoreOut(_) => WTestOut
    case WTestOut => if m.writers == 0 then WPostGate else WUnlockOut
    case WPostGate => WUnlockOut
    case WUnlockOut => WIdle(input)
  }

  /** What the step does to the shared segment. */
  function Effect(m: Shared, p: Proc): Shared {
    match p
    case RIdle => m.(rmtx := m.rmtx - 1)
    case RStoreIn(r) => m.(readers := r + 1)
    case RWaitW => m.(wmtx := m.wmtx - 1)
    case RPostGate => m.(rmtx := m.rmtx + 1)
    case RLock(_) => m.(rlock := true)
    case RStoreOut(_, r) => m.(readers := r - 1)
    case RPostW(_) => m.(wmtx := m.wmtx + 1)
    case RUnlock(_) => m.(rlock := false)
    case WIdle(_) => m.(wlock := true)
    case WStoreIn(_, w) => m.(writers := w + 1)
    case WWaitGate(_) => m.(rmtx := m.rmtx - 1)
    case WUnlockIn(_) => m.(wlock := false)
    case WWaitW(_) => m.(wmtx := m.wmtx - 1)
    case WBegin(_) => m.(data := None)
    case WEnd(v) => m.(data := Some(v), log := m.log + [v])
    case WPostW => m.(wmtx := m.wmtx + 1)
    case WLock => m.(wlock := true)
    case WStoreOut(w) => m.(writers := w - 1)
    case WPostGate => m.(rmtx := m.rmtx + 1)
    case WUnlockOut => m.(wlock := false)
    case _ => m
  }

  predicate Enabled(s: State, i: nat) {
    i < |s.procs| && CanMove(s.shm, s.procs[i])
  }

  function Step(s: State, i: nat, input: int): State
    requires i < |s.procs|
  {
    State(Effect(s.shm, s.procs[i]), s.procs[i := Next(s.shm, s.procs[i], input)])
  }

  /** A schedule names the process that moves and the next input. */
  predicate Legal(s: State, schedule: seq<(nat, int)>)
    decreases |schedule|
  {
    schedule == [] ||
    (Enabled(s, schedule[0].0) && Legal(Step(s, schedule[0].0, schedule[0].1), schedule[1..]))
  }

  function Run(s: State, schedule: seq<(nat, int)>): State
    requires Legal(s, schedule)
    decreases |schedule|
  {
    if schedule == [] then s else Run(Step(s, schedule[0].0, schedule[0].1), schedule[1..])
  }

  /** create_shmhead, with every process outside the protocol. */
  predicate Initial(s: State) {
    && s.shm.rmtx == 1 && s.shm.wmtx == 1 && !s.shm.rlock && !s.shm.wlock
    && s.shm.readers == 0 && s.shm.writers == 0
    && s.shm.data.Some? && s.shm.log == []
    && forall i :: 0 <= i < |s.procs| ==> s.procs[i].Idle()
  }

  // ---------------------------------------------------------------------
  // Tokens
  // ---------------------------------------------------------------------

  /** Owns the wmtx token. */
  function Holds(p: Proc): int {
    if p.RPostGate? || p.RAccess? || p.RLock? || p.RLoadOut? || p.RStoreOut? || p.RTestOut? || p.RPostW?
       || p.WBegin? || p.WEnd? || p.WPostW? then 1 else 0
  }

  /** A reader inside the gate, that is, owning the rmtx token. */
  function InGate(p: Proc): int {
    if p.RLoadIn? || p.RStoreIn? || p.RTestIn? || p.RWaitW? || p.RPostGate? then 1 else 0
  }

  /** Inside wlock. */
  function InWlock(p: Proc): int {
    if p.WLoadIn? || p.WStoreIn? || p.WTestIn? || p.WWaitGate? || p.WUnlockIn?
       || p.WLoadOut? || p.WStoreOut? || p.WTestOut? || p.WPostGate? || p.WUnlockOut? then 1 else 0
  }

  /** Inside rlock. */
  function InRlock(p: Proc): int {
    if p.RLoadOut? || p.RStoreOut? || p.RTestOut? || p.RPostW? || p.RUnlock? then 1 else 0
  }

  /** A writer counted in `writers`. */
  function Counted(p: Proc): int {
    if p.WTestIn? || p.WWaitGate? || p.WUnlockIn? || p.WWaitW? || p.WBegin? || p.WEnd?
       || p.WPostW? || p.WLock? || p.WLoadOut? || p.WStoreOut? then 1 else 0
  }

  /** Steps at which the writer group's gate token and [writers > 0] differ:
      the first writer before its wait on rmtx, the last one before its post. */
  function Pending(writers: int): Proc -> int {
    (p: Proc) =>
      if p.WWaitGate? || (p.WTestIn? && writers == 1) then -1
      else if p.WPostGate? || (p.WTestOut? && writers == 0) then 1
      else 0
  }

  /** The number of gate tokens the writer group owns; GroupGateBit shows that
      it is 0 or 1. */
  ghost function GroupGate(s: State): int {
    (if s.shm.writers > 0 then 1 else 0) + Sum(s.procs, Pending(s.shm.writers))
  }

  /** The wmtx token is never duplicated. */
  ghost predicate TokenInv(s: State) {
    s.shm.wmtx >= 0 && s.shm.wmtx + Sum(s.procs, Holds) <= 1
  }

  /** The step that loses the token: a reader leaves without giving it back. */
  predicate Loses(s: State, i: nat) {
    i < |s.procs| && s.procs[i].RTestOut? && s.shm.readers != 0
  }

  /** Exact accounting of the wmtx token: every step keeps it, except that a
      reader finding `readers` non-zero on its way out loses it. */
  lemma TokenStep(s: State, i: nat, input: int)
    requires Enabled(s, i)
    ensures var s' := Step(s, i, input);
            s'.shm.wmtx + Sum(s'.procs, Holds) == s.shm.wmtx + Sum(s.procs, Holds) - if Loses(s, i) then 1 else 0
    ensures s.shm.wmtx >= 0 ==> Step(s, i, input).shm.wmtx >= 0
  {
    TokenLocal(s.shm, s.procs[i], input);
    hide Effect, Next, CanMove, Holds;
    SumUpdate(s.procs, i, Next(s.shm, s.procs[i], input), Holds);
  }

  lemma TokenLocal(m: Shared, p: Proc, input: int)
    requires CanMove(m, p)
    ensures Effect(m, p).wmtx + Holds(Next(m, p, input))
            == m.wmtx + Holds(p) - if p.RTestOut? && m.readers != 0 then 1 else 0
    ensures m.wmtx >= 0 ==> Effect(m, p).wmtx >= 0
  {
  }

  lemma {:induction false} TokenRun(s: State, schedule: seq<(nat, int)>)
    requires TokenInv(s) && Legal(s, schedule)
    ensures TokenInv(Run(s, schedule))
    decreases |schedule|
  {
    if schedule != [] {
      TokenStep(s, schedule[0].0, schedule[0].1);
      TokenRun(Step(s, schedule[0].0, schedule[0].1), schedule[1..]);
    }
  }

  lemma InitialToken(s: State)
    requires Initial(s)
    ensures s.shm.wmtx + Sum(s.procs, Holds) == 1
  {
    SumZero(s.procs, Holds);
  }

  lemma HolderUnique(s: State, i: nat, j: nat)
    requires TokenInv(s) && i < |s.procs| && j < |s.procs|
    requires Holds(s.procs[i]) == 1 && Holds(s.procs[j]) == 1
    ensures i == j
  {
    if i < j {
      SumAtLeastTwo(s.procs, i, j, Holds);
    } else if j < i {
      SumAtLeastTwo(s.procs, j, i, Holds);
    }
  }

  /** Mutual exclusion, for any number of readers and writers and any
      interleaving of their loads and stores of `readers`. */
  lemma MutualExclusion(s: State, schedule: seq<(nat, int)>, i: nat, j: nat)
    requires Initial(s) && Legal(s, schedule)
    requires i < |Run(s, schedule).procs| && j < |Run(s, schedule).procs|
    requires Holds(Run(s, schedule).procs[i]) == 1 && Holds(Run(s, schedule).procs[j]) == 1
    ensures i == j
  {
    InitialToken(s);
    TokenRun(s, schedule);
    HolderUnique(Run(s, schedule), i, j);
  }

  // ---------------------------------------------------------------------
  // Reads return the last value written
  // ---------------------------------------------------------------------

  /** The value of the last complete store, or the initial one. */
  function Latest(initial: int, log: seq<int>): int {
    if log == [] then initial else log[|log| - 1]
  }

  /** The shared integer is defined except while a store is under way, and is
      then the last value written. */
  ghost predicate DataInv(s: State, initial: int) {
    && TokenInv(s)
    && (s.shm.data == None || s.shm.data == Some(Latest(initial, s.shm.log)))
    && (s.shm.data == None ==> exists i :: 0 <= i < |s.procs| && s.procs[i].WEnd?)
  }

  /** What a step does to the shared integer and the log. */
  lemma DataLocal(m: Shared, p: Proc, input: int)
    ensures Effect(m, p).data == if p.WBegin? then None else if p.WEnd? then Some(p.val) else m.data
    ensures Effect(m, p).log == if p.WEnd? then m.log + [p.val] else m.log
    ensures Next(m, p, input).WEnd? <==> p.WBegin?
    ensures p.RAccess? ==> Next(m, p, input) == RLock(m.data)
    ensures p.RAccess? || p.WBegin? || p.WEnd? ==> Holds(p) == 1
  {
  }

  lemma DataStep(s: State, initial: int, i: nat, input: int)
    requires DataInv(s, initial) && Enabled(s, i)
    ensures DataInv(Step(s, i, input), initial)
    ensures s.procs[i].RAccess? ==> Step(s, i, input).procs[i] == RLock(Some(Latest(initial, s.shm.log)))
  {
    var s' := Step(s, i, input);
    TokenStep(s, i, input);
    DataLocal(s.shm, s.procs[i], input);
    hide Effect, Next, CanMove, Sum;
    if s.shm.data == None {
      var j :| 0 <= j < |s.procs| && s.procs[j].WEnd?;
      if Holds(s.procs[i]) == 1 {
        HolderUnique(s, i, j);
      }
      if j != i {
        assert s'.procs[j].WEnd?;
      }
    }
    if s.procs[i].WBegin? {
      assert s'.procs[i].WEnd?;
    }
  }

  lemma {:induction false} ReadsLatest(s: State, initial: int, schedule: seq<(nat, int)>, i: nat, input: int)
    requires DataInv(s, initial) && Legal(s, schedule)
    requires Enabled(Run(s, schedule), i) && Run(s, schedule).procs[i].RAccess?
    ensures var t := Run(s, schedule);
            Step(t, i, input).procs[i].got == Some(Latest(initial, t.shm.log))
    decreases |schedule|
  {
    if schedule == [] {
      DataStep(s, initial, i, input);
    } else {
      DataStep(s, initial, schedule[0].0, schedule[0].1);
      ReadsLatest(Step(s, schedule[0].0, schedule[0].1), initial, schedule[1..], i, input);
    }
  }

  /** The numbers the processes were given before the run. */
  function Given(ps: seq<Proc>): seq<int> {
    seq(|ps|, i requires 0 <= i < |ps| => if ps[i].WIdle? then ps[i].val else 0)
  }

  /** The number each process was given last: a writer reads its next one when
      it leaves finish_write. */
  function AfterInput(s: State, given: seq<int>, i: nat, input: int): seq<int>
    requires i < |s.procs| == |given|
  {
    if s.procs[i].WUnlockOut? then given[i := input] else given
  }

  /** The numbers last given to the writers that complete a store in the run, in
      the order of their stores. */
  function StoredInputs(s: State, given: seq<int>, schedule: seq<(nat, int)>): seq<int>
    requires Legal(s, schedule) && |s.procs| == |given|
    decreases |schedule|
  {
    if schedule == [] then []
    else
      var i, input := schedule[0].0, schedule[0].1;
      (if s.procs[i].WEnd? then [given[i]] else [])
      + StoredInputs(Step(s, i, input), AfterInput(s, given, i, input), schedule[1..])
  }

  /** From its input to the end of its store a writer carries its number. */
  predicate Carries(p: Proc, v: int) {
    match p
    case WIdle(x) => x == v
    case WLoadIn(x) => x == v
    case WStoreIn(x, _) => x == v
    case WTestIn(x) => x == v
    case WWaitGate(x) => x == v
    case WUnlockIn(x) => x == v
    case WWaitW(x) => x == v
    case WBegin(x) => x == v
    case WEnd(x) => x == v
    case _ => true
  }

  ghost predicate AllCarry(s: State, given: seq<int>) {
    |s.procs| == |given| && forall i :: 0 <= i < |s.procs| ==> Carries(s.procs[i], given[i])
  }

  lemma CarryStep(s: State, given: seq<int>, i: nat, input: int)
    requires AllCarry(s, given) && i < |s.procs|
    ensures AllCarry(Step(s, i, input), AfterInput(s, given, i, input))
    ensures Step(s, i, input).shm.log == s.shm.log + if s.procs[i].WEnd? then [given[i]] else []
  {
    assert Carries(s.procs[i], given[i]);
  }

  /** What is written is what the writers were given: the log grows by exactly
      the numbers given last to the writers that stored, in that order. */
  lemma {:induction false} LogIsInputs(s: State, given: seq<int>, schedule: seq<(nat, int)>)
    requires AllCarry(s, given) && Legal(s, schedule)
    ensures Run(s, schedule).shm.log == s.shm.log + StoredInputs(s, given, schedule)
    decreases |schedule|
  {
    if schedule != [] {
      var i, input := schedule[0].0, schedule[0].1;
      CarryStep(s, given, i, input);
      hide AllCarry, Effect, Next;
      LogIsInputs(Step(s, i, input), AfterInput(s, given, i, input), schedule[1..]);
    }
  }

  /** In every run of any number of readers and writers, every read returns the
      number given to the writer that stored last before it, or the initial
      value if none did. */
  lemma EveryReadIsLatest(s: State, schedule: seq<(nat, int)>, i: nat, input: int)
    requires Initial(s) && Legal(s, schedule)
    requires Enabled(Run(s, schedule), i) && Run(s, schedule).procs[i].RAccess?
    ensures Run(s, schedule).shm.log == StoredInputs(s, Given(s.procs), schedule)
    ensures Step(Run(s, schedule), i, input).procs[i].got ==
            Some(Latest(s.shm.data.value, StoredInputs(s, Given(s.procs), schedule)))
  {
    InitialToken(s);
    ReadsLatest(s, s.shm.data.value, schedule, i, input);
    assert AllCarry(s, Given(s.procs));
    LogIsInputs(s, Given(s.procs), schedule);
  }

  // ---------------------------------------------------------------------
  // The gate
  // ---------------------------------------------------------------------

  function One(b: bool): int {
    if b then 1 else 0
  }

  /** wlock has one owner, and protects `writers`. */
  ghost predicate WlockInv(s: State) {
    && One(s.shm.wlock) == Sum(s.procs, InWlock)
    && s.shm.writers == Sum(s.procs, Counted)
    && forall i :: 0 <= i < |s.procs| ==> WriterKnows(s.shm, s.procs[i])
  }

  predicate WriterKnows(m: Shared, p: Proc) {
    match p
    case WStoreIn(_, w) => w == m.writers
    case WStoreOut(w) => w == m.writers
    case WWaitGate(_) => m.writers == 1
    case WPostGate => m.writers == 0
    case _ => true
  }

  /** The rmtx token: free, with a reader inside the gate, or with the writers
      as a group. */
  ghost predicate GateInv(s: State) {
    && WlockInv(s)
    && s.shm.rmtx >= 0
    && s.shm.rmtx + Sum(s.procs, InGate) + GroupGate(s) == 1
  }

  /** Two processes are never both inside wlock. */
  lemma WlockUnique(s: State, i: nat, j: nat)
    requires WlockInv(s) && i < |s.procs| && j < |s.procs|
    requires InWlock(s.procs[i]) == 1 && InWlock(s.procs[j]) == 1
    ensures i == j
  {
    if i < j {
      SumAtLeastTwo(s.procs, i, j, InWlock);
    } else if j < i {
      SumAtLeastTwo(s.procs, j, i, InWlock);
    }
  }

  lemma WlockStep(s: State, i: nat, input: int)
    requires WlockInv(s) && Enabled(s, i)
    ensures WlockInv(Step(s, i, input))
  {
    var m, p := s.shm, s.procs[i];
    var p' := Next(m, p, input);
    var s' := Step(s, i, input);
    SumUpdate(s.procs, i, p', InWlock);
    SumUpdate(s.procs, i, p', Counted);
    if InWlock(p) == 1 {
      SumAtLeast(s.procs, i, InWlock);
    }
    WlockLocal(m, p, input);
    forall j | 0 <= j < |s'.procs| ensures WriterKnows(s'.shm, s'.procs[j]) {
      if j != i {
        assert WriterKnows(m, s.procs[j]);
        if InWlock(p) == 1 && InWlock(s.procs[j]) == 1 {
          WlockUnique(s, i, j);
        }
        OthersKeep(m, p, s.procs[j]);
      }
    }
  }

  lemma WlockLocal(m: Shared, p: Proc, input: int)
    requires CanMove(m, p) && WriterKnows(m, p)
    requires InWlock(p) == 1 ==> m.wlock
    ensures var m', p' := Effect(m, p), Next(m, p, input);
            && One(m'.wlock) - InWlock(p') == One(m.wlock) - InWlock(p)
            && m'.writers - Counted(p') == m.writers - Counted(p)
            && WriterKnows(m', p')
  {
  }

  /** A process outside wlock does not touch `writers`. */
  lemma OthersKeep(m: Shared, p: Proc, q: Proc)
    requires WriterKnows(m, q) && (InWlock(p) == 0 || InWlock(q) == 0)
    ensures WriterKnows(Effect(m, p), q)
  {
  }

  lemma GateStep(s: State, i: nat, input: int)
    requires GateInv(s) && Enabled(s, i)
    ensures GateInv(Step(s, i, input))
  {
    var m, p := s.shm, s.procs[i];
    var p' := Next(m, p, input);
    var w, w' := m.writers, Effect(m, p).writers;
    WlockStep(s, i, input);
    forall j | 0 <= j < |s.procs| ensures Pending(w)(s.procs[j]) == Pending(w')(s.procs[j]) {
      if w' != w && j != i && InWlock(s.procs[j]) == 1 {
        WlockUnique(s, i, j);
      }
    }
    SumNonNegative(s.procs, Counted);
    SumCongruent(s.procs, Pending(w), Pending(w'));
    SumUpdate(s.procs, i, p', Pending(w'));
    SumUpdate(s.procs, i, p', InGate);
    SumNonNegative(Step(s, i, input).procs, Counted);
    GateLocal(m, p, input);
  }

  lemma GateLocal(m: Shared, p: Proc, input: int)
    requires CanMove(m, p) && WriterKnows(m, p) && m.rmtx >= 0 && m.writers >= 0 && Effect(m, p).writers >= 0
    ensures var m', p' := Effect(m, p), Next(m, p, input);
            && m'.rmtx >= 0
            && m'.rmtx + InGate(p') + One(m'.writers > 0) + Pending(m'.writers)(p')
               == m.rmtx + InGate(p) + One(m.writers > 0) + Pending(m.writers)(p)
  {
  }

  lemma {:induction false} GateRun(s: State, schedule: seq<(nat, int)>)
    requires GateInv(s) && Legal(s, schedule)
    ensures GateInv(Run(s, schedule))
    decreases |schedule|
  {
    if schedule != [] {
      GateStep(s, schedule[0].0, schedule[0].1);
      GateRun(Step(s, schedule[0].0, schedule[0].1), schedule[1..]);
    }
  }

  lemma InitialGate(s: State)
    requires Initial(s)
    ensures GateInv(s)
  {
    SumZero(s.procs, InWlock);
    SumZero(s.procs, Counted);
    SumZero(s.procs, InGate);
    SumZero(s.procs, Pending(s.shm.writers));
  }

  /** While a process is inside wlock, no other contributes to the group's
      share. */
  lemma PendingAlone(s: State, i: nat)
    requires WlockInv(s) && i < |s.procs| && InWlock(s.procs[i]) == 1
    ensures Sum(s.procs, Pending(s.shm.writers)) == Pending(s.shm.writers)(s.procs[i])
  {
    var w := Pending(s.shm.writers);
    var rest := s.procs[i := WIdle(0)];
    SumUpdate(s.procs, i, WIdle(0), w);
    forall k | 0 <= k < |rest| ensures w(rest[k]) == 0 {
      if k != i && InWlock(rest[k]) == 1 {
        WlockUnique(s, i, k);
      }
    }
    SumZero(rest, w);
  }

  lemma PendingNone(s: State)
    requires WlockInv(s) && Sum(s.procs, InWlock) == 0
    ensures Sum(s.procs, Pending(s.shm.writers)) == 0
    ensures forall j :: 0 <= j < |s.procs| ==> InWlock(s.procs[j]) == 0
  {
    forall j | 0 <= j < |s.procs| ensures InWlock(s.procs[j]) == 0 {
      SumAtLeast(s.procs, j, InWlock);
    }
    SumZero(s.procs, Pending(s.shm.writers));
  }

  /** The writers as a group own no gate token or one. */
  lemma GroupGateBit(s: State)
    requires WlockInv(s)
    ensures 0 <= GroupGate(s) <= 1
  {
    SumNonNegative(s.procs, InWlock);
    if Sum(s.procs, InWlock) > 0 {
      var i := SumPositive(s.procs, InWlock);
      assert WriterKnows(s.shm, s.procs[i]);
      PendingAlone(s, i);
    } else {
      PendingNone(s);
    }
  }

  /** A writer on whose behalf the group owns the gate: from the end of
      will_write up to the post in finish_write. */
  predicate KeepsGate(p: Proc) {
    p.WUnlockIn? || p.WWaitW? || p.WBegin? || p.WEnd? || p.WPostW? || p.WLock? ||
    p.WLoadOut? || p.WStoreOut? || p.WTestOut? || p.WPostGate?
  }

  lemma KeeperOwns(s: State, i: nat)
    requires WlockInv(s) && i < |s.procs| && KeepsGate(s.procs[i])
    ensures GroupGate(s) == 1
  {
    SumNonNegative(s.procs, InWlock);
    SumNonNegative(s.procs, Counted);
    if Counted(s.procs[i]) == 1 {
      SumAtLeast(s.procs, i, Counted);
    }
    if Sum(s.procs, InWlock) > 0 {
      var j := SumPositive(s.procs, InWlock);
      assert WriterKnows(s.shm, s.procs[i]) && WriterKnows(s.shm, s.procs[j]);
      PendingAlone(s, j);
      if InWlock(s.procs[i]) == 1 {
        WlockUnique(s, i, j);
      } else if Counted(s.procs[j]) == 1 {
        TwoCounted(s, i, j);
      }
    } else {
      PendingNone(s);
    }
  }

  lemma OwnerKeeps(s: State) returns (i: nat)
    requires WlockInv(s) && GroupGate(s) == 1
    ensures i < |s.procs| && KeepsGate(s.procs[i])
  {
    SumNonNegative(s.procs, InWlock);
    SumNonNegative(s.procs, Counted);
    if Sum(s.procs, InWlock) > 0 {
      i := SumPositive(s.procs, InWlock);
      PendingAlone(s, i);
      assert WriterKnows(s.shm, s.procs[i]);
      if !KeepsGate(s.procs[i]) {
        i := OtherCounted(s, i);
      }
    } else {
      PendingNone(s);
      i := SumPositive(s.procs, Counted);
    }
  }

  /** A counted writer besides the one inside wlock. */
  lemma OtherCounted(s: State, i: nat) returns (j: nat)
    requires WlockInv(s) && i < |s.procs| && InWlock(s.procs[i]) == 1
    requires s.shm.writers > Counted(s.procs[i])
    ensures j < |s.procs| && KeepsGate(s.procs[j])
  {
    var rest := s.procs[i := WIdle(0)];
    SumUpdate(s.procs, i, WIdle(0), Counted);
    j := SumPositive(rest, Counted);
    if InWlock(s.procs[j]) == 1 {
      WlockUnique(s, i, j);
    }
  }

  /** The group owns the gate exactly while some writer is between the end of
      will_write and the post in finish_write. */
  lemma GroupOwnsIff(s: State)
    requires WlockInv(s)
    ensures GroupGate(s) == 1 <==> exists i :: 0 <= i < |s.procs| && KeepsGate(s.procs[i])
  {
    if GroupGate(s) == 1 {
      var i := OwnerKeeps(s);
    } else if i :| 0 <= i < |s.procs| && KeepsGate(s.procs[i]) {
      KeeperOwns(s, i);
    }
  }

  /** Two readers are never both inside the gate. */
  lemma GateUnique(s: State, i: nat, j: nat)
    requires GateInv(s) && i < |s.procs| && j < |s.procs|
    requires InGate(s.procs[i]) == 1 && InGate(s.procs[j]) == 1
    ensures i == j
  {
    GroupGateBit(s);
    if i < j {
      SumAtLeastTwo(s.procs, i, j, InGate);
    } else if j < i {
      SumAtLeastTwo(s.procs, j, i, InGate);
    }
  }

  /** The group owns the gate exactly when rmtx is taken without a reader
      inside; then no reader can get past its wait on rmtx. */
  lemma GateShut(s: State)
    requires GateInv(s)
    ensures GroupGate(s) == 1 <==> s.shm.rmtx == 0 && forall j :: 0 <= j < |s.procs| ==> InGate(s.procs[j]) == 0
    ensures GroupGate(s) == 1 ==> forall j :: 0 <= j < |s.procs| && s.procs[j].RIdle? ==> !Enabled(s, j)
  {
    GroupGateBit(s);
    SumNonNegative(s.procs, InGate);
    if GroupGate(s) == 1 {
      forall j | 0 <= j < |s.procs| ensures InGate(s.procs[j]) == 0 {
        SumAtLeast(s.procs, j, InGate);
      }
    } else if s.shm.rmtx == 0 {
      var j := SumPositive(s.procs, InGate);
    }
  }

  lemma TwoCounted(s: State, i: nat, j: nat)
    requires WlockInv(s) && i < |s.procs| && j < |s.procs| && i != j
    requires Counted(s.procs[i]) == 1 && Counted(s.procs[j]) == 1
    ensures s.shm.writers >= 2
  {
    if i < j {
      SumAtLeastTwo(s.procs, i, j, Counted);
    } else {
      SumAtLeastTwo(s.procs, j, i, Counted);
    }
  }

  /** In every run of any number of readers and writers: rmtx is taken with no
      reader inside the gate exactly while some writer is between the end of
      will_write and the post in finish_write; at most one reader is ever
      inside. */
  lemma WritersShutGate(s: State, schedule: seq<(nat, int)>)
    requires Initial(s) && Legal(s, schedule)
    ensures var t := Run(s, schedule);
            (exists i :: 0 <= i < |t.procs| && KeepsGate(t.procs[i])) <==>
            t.shm.rmtx == 0 && forall j :: 0 <= j < |t.procs| ==> InGate(t.procs[j]) == 0
    ensures var t := Run(s, schedule);
            forall i, j :: 0 <= i < |t.procs| && 0 <= j < |t.procs| ==>
              (InGate(t.procs[i]) == 1 && InGate(t.procs[j]) == 1 ==> i == j)
  {
    InitialGate(s);
    GateRun(s, schedule);
    var t := Run(s, schedule);
    GroupOwnsIff(t);
    GateShut(t);
    forall i, j | 0 <= i < |t.procs| && 0 <= j < |t.procs| && InGate(t.procs[i]) == 1 && InGate(t.procs[j]) == 1
      ensures i == j
    {
      GateUnique(t, i, j);
    }
  }

  // ---------------------------------------------------------------------
  // Progress while the token is there
  // ---------------------------------------------------------------------

  /** rlock has one owner. */
  ghost predicate RlockInv(s: State) {
    One(s.shm.rlock) == Sum(s.procs, InRlock)
  }

  lemma RlockStep(s: State, i: nat, input: int)
    requires RlockInv(s) && Enabled(s, i)
    ensures RlockInv(Step(s, i, input))
  {
    SumUpdate(s.procs, i, Next(s.shm, s.procs[i], input), InRlock);
    if InRlock(s.procs[i]) == 1 {
      SumAtLeast(s.procs, i, InRlock);
    }
    hide Sum;
    RlockLocal(s.shm, s.procs[i], input);
  }

  lemma RlockLocal(m: Shared, p: Proc, input: int)
    requires CanMove(m, p) && (InRlock(p) == 1 ==> m.rlock)
    ensures One(Effect(m, p).rlock) - InRlock(Next(m, p, input)) == One(m.rlock) - InRlock(p)
  {
  }

  /** What holds in every run, whatever became of the token. */
  ghost predicate RunInv(s: State) {
    TokenInv(s) && GateInv(s) && RlockInv(s)
  }

  lemma {:induction false} RunKeeps(s: State, schedule: seq<(nat, int)>)
    requires RunInv(s) && Legal(s, schedule)
    ensures RunInv(Run(s, schedule)) && |Run(s, schedule).procs| == |s.procs|
    decreases |schedule|
  {
    if schedule != [] {
      var i, input := schedule[0].0, schedule[0].1;
      TokenStep(s, i, input);
      GateStep(s, i, input);
      RlockStep(s, i, input);
      hide GateInv, RlockInv, Effect, Next;
      RunKeeps(Step(s, i, input), schedule[1..]);
    }
  }

  lemma InitialRun(s: State)
    requires Initial(s)
    ensures RunInv(s)
  {
    InitialToken(s);
    InitialGate(s);
    SumZero(s.procs, InRlock);
  }

  /** While the token is there, with any number of readers, a process in the
      middle of the protocol never leaves everyone stuck: some process in the
      middle of it can move. */
  lemma Progress(s: State, mid: nat) returns (i: nat)
    requires RunInv(s) && s.shm.wmtx + Sum(s.procs, Holds) == 1
    requires mid < |s.procs| && !s.procs[mid].Idle()
    ensures Enabled(s, i) && !s.procs[i].Idle()
  {
    SumNonNegative(s.procs, InWlock);
    if Sum(s.procs, Holds) > 0 {
      i := HolderProgress(s);
    } else if Sum(s.procs, InWlock) > 0 {
      SumNonNegative(s.procs, Holds);
      i := SumPositive(s.procs, InWlock);
      if s.procs[i].WWaitGate? && s.shm.rmtx == 0 {
        i := InsideGate(s, i);
      }
    } else {
      SumNonNegative(s.procs, Holds);
      i := mid;
      SumAtLeast(s.procs, mid, Holds);
      SumAtLeast(s.procs, mid, InWlock);
    }
  }

  /** The owner of wmtx can move, or the owner of the lock it waits for. */
  lemma HolderProgress(s: State) returns (i: nat)
    requires RlockInv(s) && Sum(s.procs, Holds) > 0
    ensures Enabled(s, i) && !s.procs[i].Idle()
  {
    i := SumPositive(s.procs, Holds);
    if s.procs[i].RLock? && s.shm.rlock {
      i := SumPositive(s.procs, InRlock);
    }
  }

  /** If the first writer has to wait at the gate, a reader is inside it. */
  lemma InsideGate(s: State, i: nat) returns (j: nat)
    requires GateInv(s) && i < |s.procs| && s.procs[i].WWaitGate? && s.shm.rmtx == 0
    ensures j < |s.procs| && InGate(s.procs[j]) == 1
  {
    assert WriterKnows(s.shm, s.procs[i]);
    PendingAlone(s, i);
    j := SumPositive(s.procs, InGate);
  }

  /** No process can move. */
  ghost predicate Stuck(s: State) {
    forall i :: 0 <= i < |s.procs| ==> !Enabled(s, i)
  }

  /** A process outside the protocol can move when all of them are outside. */
  lemma AllIdleMoves(s: State)
    requires GateInv(s) && s.procs != [] && forall i :: 0 <= i < |s.procs| ==> s.procs[i].Idle()
    ensures Enabled(s, 0)
  {
    SumZero(s.procs, InWlock);
    SumZero(s.procs, Counted);
    SumZero(s.procs, InGate);
    SumZero(s.procs, Pending(s.shm.writers));
    assert s.procs[0].Idle();
  }

  /** While the token is there the system is not stuck. */
  lemma TokenMoves(s: State)
    requires RunInv(s) && s.procs != [] && s.shm.wmtx + Sum(s.procs, Holds) == 1
    ensures !Stuck(s)
  {
    if forall i :: 0 <= i < |s.procs| ==> s.procs[i].Idle() {
      AllIdleMoves(s);
    } else {
      var mid :| 0 <= mid < |s.procs| && !s.procs[mid].Idle();
      var i := Progress(s, mid);
    }
  }

  // ---------------------------------------------------------------------
  // One reader
  // ---------------------------------------------------------------------

  ghost predicate AtMostOneReader(ps: seq<Proc>) {
    forall i, j :: 0 <= i < j < |ps| ==> !ps[i].IsReader() || !ps[j].IsReader()
  }

  /** A reader between its increment and its decrement of `readers`. */
  predicate CountedReader(p: Proc) {
    p.RTestIn? || p.RWaitW? || p.RPostGate? || p.RAccess? || p.RLock? || p.RLoadOut? || p.RStoreOut?
  }

  /** With one reader, `readers` and rlock follow that reader alone. */
  predicate ReaderKnows(m: Shared, p: Proc) {
    p.IsReader() ==>
      && m.readers == One(CountedReader(p))
      && m.rlock == (InRlock(p) == 1)
      && match p
         case RStoreIn(r) => r == 0
         case RStoreOut(_, r) => r == 1
         case _ => true
  }

  ghost predicate SingleInv(s: State) {
    && AtMostOneReader(s.procs)
    && s.shm.wmtx >= 0 && s.shm.wmtx + Sum(s.procs, Holds) == 1
    && GateInv(s)
    && forall i :: 0 <= i < |s.procs| ==> ReaderKnows(s.shm, s.procs[i])
  }

  lemma ReaderLocal(m: Shared, p: Proc, input: int)
    requires CanMove(m, p) && ReaderKnows(m, p)
    ensures ReaderKnows(Effect(m, p), Next(m, p, input))
    ensures p.IsReader() == Next(m, p, input).IsReader()
    ensures !p.IsReader() ==> Effect(m, p).readers == m.readers && Effect(m, p).rlock == m.rlock
    ensures !(p.RTestOut? && m.readers != 0)
  {
  }

  lemma SingleStep(s: State, i: nat, input: int)
    requires SingleInv(s) && Enabled(s, i)
    ensures SingleInv(Step(s, i, input))
  {
    var s' := Step(s, i, input);
    ReaderLocal(s.shm, s.procs[i], input);
    GateStep(s, i, input);
    TokenStep(s, i, input);
    hide Effect, Next, CanMove, Holds, GateInv, WlockInv;
    forall j | 0 <= j < |s'.procs| ensures ReaderKnows(s'.shm, s'.procs[j]) {
      if j != i && s.procs[j].IsReader() {
        assert !s.procs[i].IsReader();
        assert ReaderKnows(s.shm, s.procs[j]);
      }
    }
  }

  lemma {:induction false} SingleRun(s: State, schedule: seq<(nat, int)>)
    requires SingleInv(s) && Legal(s, schedule)
    ensures SingleInv(Run(s, schedule))
    decreases |schedule|
  {
    if schedule != [] {
      SingleStep(s, schedule[0].0, schedule[0].1);
      SingleRun(Step(s, schedule[0].0, schedule[0].1), schedule[1..]);
    }
  }

  lemma InitialSingle(s: State)
    requires Initial(s) && AtMostOneReader(s.procs)
    ensures SingleInv(s)
  {
    InitialToken(s);
    InitialGate(s);
  }

  // ---------------------------------------------------------------------
  // Two readers
  // ---------------------------------------------------------------------

  /** The wmtx token is gone. */
  ghost predicate Lost(s: State) {
    s.shm.wmtx == 0 && Sum(s.procs, Holds) == 0
  }

  /** A lost token never comes back: no process reads or writes the shared
      integer in any continuation. */
  lemma {:induction false} LostForever(s: State, schedule: seq<(nat, int)>)
    requires Lost(s) && Legal(s, schedule)
    ensures Lost(Run(s, schedule))
    ensures Run(s, schedule).shm.log == s.shm.log
    ensures forall i :: 0 <= i < |Run(s, schedule).procs| ==>
              var p := Run(s, schedule).procs[i]; !p.RAccess? && !p.WBegin? && !p.WEnd?
    decreases |schedule|
  {
    forall i | 0 <= i < |s.procs| ensures Holds(s.procs[i]) == 0 {
      SumAtLeast(s.procs, i, Holds);
    }
    if schedule != [] {
      var i, input := schedule[0].0, schedule[0].1;
      TokenStep(s, i, input);
      SumNonNegative(Step(s, i, input).procs, Holds);
      LostForever(Step(s, i, input), schedule[1..]);
    }
  }

  /** How many more steps a process can make once the token is lost. */
  function Work(p: Proc): int {
    match p
    case RIdle => 4
    case RLoadIn => 3
    case RStoreIn(_) => 2
    case RTestIn => 1
    case RUnlock(_) => 5
    case WIdle(_) => 6
    case WLoadIn(_) => 5
    case WStoreIn(_, _) => 4
    case WTestIn(_) => 3
    case WWaitGate(_) => 2
    case WUnlockIn(_) => 1
    case WLock => 12
    case WLoadOut => 11
    case WStoreOut(_) => 10
    case WTestOut => 9
    case WPostGate => 8
    case WUnlockOut => 7
    case _ => 0
  }

  lemma LostStep(s: State, i: nat, input: int)
    requires Lost(s) && Enabled(s, i)
    ensures Lost(Step(s, i, input)) && Sum(Step(s, i, input).procs, Work) < Sum(s.procs, Work)
  {
    SumAtLeast(s.procs, i, Holds);
    TokenStep(s, i, input);
    SumNonNegative(Step(s, i, input).procs, Holds);
    SumUpdate(s.procs, i, Next(s.shm, s.procs[i], input), Work);
    hide Sum;
    WorkLocal(s.shm, s.procs[i], input);
  }

  lemma WorkLocal(m: Shared, p: Proc, input: int)
    requires CanMove(m, p) && m.wmtx == 0 && Holds(p) == 0
    ensures Work(Next(m, p, input)) < Work(p)
  {
  }

  /** Once the token is lost everything comes to a halt: at most twelve more
      steps per process are possible. */
  lemma {:induction false} LostStops(s: State, schedule: seq<(nat, int)>)
    requires Lost(s) && Legal(s, schedule)
    ensures |schedule| <= Sum(s.procs, Work) <= 12 * |s.procs|
    decreases |schedule|
  {
    WorkBound(s.procs);
    if schedule != [] {
      var i, input := schedule[0].0, schedule[0].1;
      LostStep(s, i, input);
      LostStops(Step(s, i, input), schedule[1..]);
    }
  }

  lemma {:induction false} WorkBound(ps: seq<Proc>)
    ensures 0 <= Sum(ps, Work) <= 12 * |ps|
  {
    if ps != [] {
      WorkBound(ps[1..]);
    }
  }

  /** A run that has lost the token can be carried on until nobody can move. */
  lemma {:induction false} RunDry(s: State, schedule: seq<(nat, int)>) returns (longer: seq<(nat, int)>)
    requires Legal(s, schedule) && Lost(Run(s, schedule))
    ensures Legal(s, longer) && schedule <= longer && Stuck(Run(s, longer))
    decreases Sum(Run(s, schedule).procs, Work)
  {
    var t := Run(s, schedule);
    longer := schedule;
    if !Stuck(t) {
      var i: nat :| i < |t.procs| && Enabled(t, i);
      WorkBound(t.procs);
      LostStep(t, i, 0);
      RunSnoc(s, schedule, i);
      longer := RunDry(s, schedule + [(i, 0)]);
    }
  }

  /** One more step at the end of a run. */
  lemma {:induction false} RunSnoc(s: State, schedule: seq<(nat, int)>, i: nat)
    requires Legal(s, schedule) && Enabled(Run(s, schedule), i)
    ensures Legal(s, schedule + [(i, 0)])
    ensures Run(s, schedule + [(i, 0)]) == Step(Run(s, schedule), i, 0)
    decreases |schedule|
  {
    var longer := schedule + [(i, 0)];
    if schedule == [] {
      assert longer[0] == (i, 0) && longer[1..] == [];
    } else {
      assert longer[0] == schedule[0] && longer[1..] == schedule[1..] + [(i, 0)];
      RunSnoc(Step(s, schedule[0].0, schedule[0].1), schedule[1..], i);
    }
  }

  /** Process i moves from p to the given place, with the given effect. */
  lemma Moves(s: State, schedule: seq<(nat, int)>, m: Shared, ps: seq<Proc>, i: nat, p: Proc)
    returns (longer: seq<(nat, int)>)
    requires Legal(s, schedule) && i < |ps|
    requires Run(s, schedule) == State(m, ps[i := p]) && CanMove(m, p)
    ensures Legal(s, longer) && |longer| == |schedule| + 1
    ensures Run(s, longer) == State(Effect(m, p), ps[i := Next(m, p, 0)])
  {
    RunSnoc(s, schedule, i);
    longer := schedule + [(i, 0)];
    assert ps[i := p][i := Next(m, p, 0)] == ps[i := Next(m, p, 0)];
  }

  /** A reader goes through will_read when nobody is in its way. */
  lemma Enter(s: State, m: Shared, ps: seq<Proc>, a: nat) returns (r: seq<(nat, int)>)
    requires s == State(m, ps) && a < |ps| && ps[a].RIdle? && m.rmtx == 1 && m.wmtx == 1
    ensures Legal(s, r) && |r| == 6
    ensures Run(s, r) == State(m.(wmtx := 0, readers := m.readers + 1), ps[a := RAccess])
  {
    assert ps[a := RIdle] == ps;
    r := Moves(s, [], m, ps, a, RIdle);
    var m1 := m.(rmtx := 0);
    r := Moves(s, r, m1, ps, a, RLoadIn);
    r := Moves(s, r, m1, ps, a, RStoreIn(m.readers));
    var m2 := m1.(readers := m.readers + 1);
    r := Moves(s, r, m2, ps, a, RTestIn);
    r := Moves(s, r, m2, ps, a, RWaitW);
    r := Moves(s, r, m2.(wmtx := 0), ps, a, RPostGate);
  }

  /** Nobody else is under way. */
  predicate Quiet(m: Shared) {
    m.rmtx == 1 && m.wmtx == 1 && !m.rlock && !m.wlock && m.readers == 0 && m.writers == 0
  }

  /** Alone, a reader takes thirteen steps for one round, and leaves everything
      as it was. */
  lemma SoloRead(s: State, a: nat) returns (r: seq<(nat, int)>)
    requires Quiet(s.shm) && a < |s.procs| && s.procs[a].RIdle?
    ensures Legal(s, r) && |r| == 13 && Run(s, r) == s
  {
    r := SoloAccess(s, a);
    hide Legal, Run, Step;
    var ps, g := s.procs, s.shm.data;
    var m := s.shm.(wmtx := 0, readers := 0, rlock := true);
    r := Moves(s, r, m, ps, a, RTestOut(g));
    r := Moves(s, r, m, ps, a, RPostW(g));
    r := Moves(s, r, m.(wmtx := 1), ps, a, RUnlock(g));
    assert ps[a := RIdle] == ps;
  }

  lemma SoloAccess(s: State, a: nat) returns (r: seq<(nat, int)>)
    requires Quiet(s.shm) && a < |s.procs| && s.procs[a].RIdle?
    ensures Legal(s, r) && |r| == 10
    ensures Run(s, r) ==
            State(s.shm.(wmtx := 0, readers := 0, rlock := true), s.procs[a := RTestOut(s.shm.data)])
  {
    var ps, g := s.procs, s.shm.data;
    r := Enter(s, s.shm, ps, a);
    hide Legal, Run, Step;
    var m := s.shm.(wmtx := 0, readers := 1);
    r := Moves(s, r, m, ps, a, RAccess);
    r := Moves(s, r, m, ps, a, RLock(g));
    var m1 := m.(rlock := true);
    r := Moves(s, r, m1, ps, a, RLoadOut(g));
    r := Moves(s, r, m1, ps, a, RStoreOut(g, 1));
  }

  /** Alone, a writer takes sixteen steps for one round: its number is stored
      and logged, and everything else is as it was. */
  lemma SoloWrite(s: State, a: nat, v: int) returns (r: seq<(nat, int)>)
    requires Quiet(s.shm) && a < |s.procs| && s.procs[a] == WIdle(v)
    ensures Legal(s, r) && |r| == 16
    ensures Run(s, r) == State(s.shm.(data := Some(v), log := s.shm.log + [v]), s.procs[a := WIdle(0)])
  {
    r := SoloEnter(s, a, v);
    hide Legal, Run, Step;
    var ps := s.procs;
    var m := s.shm.(rmtx := 0, wmtx := 0, writers := 1);
    r := Moves(s, r, m, ps, a, WBegin(v));
    r := Moves(s, r, m.(data := None), ps, a, WEnd(v));
    var m1 := m.(data := Some(v), log := m.log + [v]);
    r := Moves(s, r, m1, ps, a, WPostW);
    var m2 := m1.(wmtx := 1);
    r := Moves(s, r, m2, ps, a, WLock);
    var m3 := m2.(wlock := true);
    r := Moves(s, r, m3, ps, a, WLoadOut);
    r := Moves(s, r, m3, ps, a, WStoreOut(1));
    var m4 := m3.(writers := 0);
    r := Moves(s, r, m4, ps, a, WTestOut);
    r := Moves(s, r, m4, ps, a, WPostGate);
    r := Moves(s, r, m4.(rmtx := 1), ps, a, WUnlockOut);
  }

  lemma SoloEnter(s: State, a: nat, v: int) returns (r: seq<(nat, int)>)
    requires Quiet(s.shm) && a < |s.procs| && s.procs[a] == WIdle(v)
    ensures Legal(s, r) && |r| == 7
    ensures Run(s, r) == State(s.shm.(rmtx := 0, wmtx := 0, writers := 1), s.procs[a := WBegin(v)])
  {
    r := SoloCount(s, a, v);
    hide Legal, Run, Step;
    var ps := s.procs;
    var m := s.shm.(wlock := true, writers := 1);
    r := Moves(s, r, m, ps, a, WTestIn(v));
    r := Moves(s, r, m, ps, a, WWaitGate(v));
    var m1 := m.(rmtx := 0);
    r := Moves(s, r, m1, ps, a, WUnlockIn(v));
    r := Moves(s, r, m1.(wlock := false), ps, a, WWaitW(v));
  }

  lemma SoloCount(s: State, a: nat, v: int) returns (r: seq<(nat, int)>)
    requires Quiet(s.shm) && a < |s.procs| && s.procs[a] == WIdle(v)
    ensures Legal(s, r) && |r| == 3
    ensures Run(s, r) == State(s.shm.(wlock := true, writers := 1), s.procs[a := WTestIn(v)])
  {
    assert s.procs[a := WIdle(v)] == s.procs;
    r := Moves(s, [], s.shm, s.procs, a, WIdle(v));
    hide Legal, Run, Step;
    r := Moves(s, r, s.shm.(wlock := true), s.procs, a, WLoadIn(v));
    r := Moves(s, r, s.shm.(wlock := true), s.procs, a, WStoreIn(v, 0));
  }

  /** A second reader counts itself in, and the first one leaves while
      `readers` is still 1. */
  lemma LeaveCounted(s: State, r0: seq<(nat, int)>, m: Shared, ps: seq<Proc>, a: nat, b: nat)
    returns (r: seq<(nat, int)>)
    requires Legal(s, r0) && Run(s, r0) == State(m, ps)
    requires a < |ps| && b < |ps| && a != b && ps[a] == RAccess && ps[b] == RIdle
    requires m.rmtx == 1 && m.wmtx == 0 && m.readers == 1 && !m.rlock
    ensures Legal(s, r)
    ensures Run(s, r).shm.wmtx == 0
    ensures Run(s, r).procs == ps[b := RTestIn][a := RUnlock(m.data)]
  {
    hide Legal, Run, Step;
    assert ps[b := RIdle] == ps;
    r := Moves(s, r0, m, ps, b, RIdle);
    var m1 := m.(rmtx := 0);
    r := Moves(s, r, m1, ps, b, RLoadIn);
    r := Moves(s, r, m1, ps, b, RStoreIn(1));
    r := LeaveTwo(s, r, m1.(readers := 2), ps[b := RTestIn], a);
  }

  /** A reader leaves while two are counted. */
  lemma LeaveTwo(s: State, r0: seq<(nat, int)>, m: Shared, ps: seq<Proc>, a: nat) returns (r: seq<(nat, int)>)
    requires Legal(s, r0) && Run(s, r0) == State(m, ps)
    requires a < |ps| && ps[a] == RAccess && m.wmtx == 0 && m.readers == 2 && !m.rlock
    ensures Legal(s, r) && Run(s, r).shm.wmtx == 0
    ensures Run(s, r).procs == ps[a := RUnlock(m.data)]
  {
    hide Legal, Run, Step;
    assert ps[a := RAccess] == ps;
    r := Moves(s, r0, m, ps, a, RAccess);
    r := Moves(s, r, m, ps, a, RLock(m.data));
    var m1 := m.(rlock := true);
    r := Moves(s, r, m1, ps, a, RLoadOut(m.data));
    r := Moves(s, r, m1, ps, a, RStoreOut(m.data, 2));
    r := Moves(s, r, m1.(readers := 1), ps, a, RTestOut(m.data));
  }

  /** Any two readers can lose the token. */
  lemma TwoReadersLose(s: State, a: nat, b: nat) returns (r: seq<(nat, int)>)
    requires Initial(s) && a < |s.procs| && b < |s.procs| && a != b
    requires s.procs[a].IsReader() && s.procs[b].IsReader()
    ensures Legal(s, r) && Lost(Run(s, r))
  {
    var r0 := Enter(s, s.shm, s.procs, a);
    var ps := s.procs[a := RAccess];
    r := LeaveCounted(s, r0, s.shm.(wmtx := 0, readers := 1), ps, a, b);
    var t := Run(s, r);
    assert forall i :: 0 <= i < |t.procs| && i != a && i != b ==> t.procs[i] == s.procs[i];
    SumZero(t.procs, Holds);
  }

  /** The token survives every run exactly when at most one process reads. */
  lemma TokenSurvivesIff(s: State)
    requires Initial(s)
    ensures AtMostOneReader(s.procs) <==>
            forall schedule :: Legal(s, schedule) ==>
              Run(s, schedule).shm.wmtx + Sum(Run(s, schedule).procs, Holds) == 1
  {
    if AtMostOneReader(s.procs) {
      InitialSingle(s);
      forall schedule | Legal(s, schedule)
        ensures Run(s, schedule).shm.wmtx + Sum(Run(s, schedule).procs, Holds) == 1
      {
        SingleRun(s, schedule);
      }
    } else {
      var a, b :| 0 <= a < b < |s.procs| && s.procs[a].IsReader() && s.procs[b].IsReader();
      var r := TwoReadersLose(s, a, b);
      hide Initial, AtMostOneReader;
      assert Legal(s, r) && Run(s, r).shm.wmtx + Sum(Run(s, r).procs, Holds) == 0;
    }
  }

  /** A state where no process can move is reachable. */
  ghost predicate CanHang(s: State) {
    exists schedule :: Legal(s, schedule) && Stuck(Run(s, schedule))
  }

  lemma SingleNeverHangs(s: State)
    requires Initial(s) && s.procs != [] && AtMostOneReader(s.procs)
    ensures !CanHang(s)
  {
    InitialSingle(s);
    InitialRun(s);
    forall schedule | Legal(s, schedule) ensures !Stuck(Run(s, schedule)) {
      SingleRun(s, schedule);
      RunKeeps(s, schedule);
      TokenMoves(Run(s, schedule));
    }
  }

  lemma TwoReadersHang(s: State, a: nat, b: nat)
    requires Initial(s) && a < |s.procs| && b < |s.procs| && a != b
    requires s.procs[a].IsReader() && s.procs[b].IsReader()
    ensures CanHang(s)
  {
    var lost := TwoReadersLose(s, a, b);
    var r := RunDry(s, lost);
    hide Stuck, Legal, Run;
    assert Legal(s, r) && Stuck(Run(s, r));
  }

  /** The hang: a state where no process can move is reachable exactly when at
      least two processes read. */
  lemma HangIff(s: State)
    requires Initial(s) && s.procs != []
    ensures CanHang(s) <==> !AtMostOneReader(s.procs)
  {
    if AtMostOneReader(s.procs) {
      SingleNeverHangs(s);
    } else {
      var a, b :| 0 <= a < b < |s.procs| && s.procs[a].IsReader() && s.procs[b].IsReader();
      TwoReadersHang(s, a, b);
    }
  }

  /** In every run, with any number of readers: if nobody can move, the token
      has been lost. */
  lemma StuckOnlyLost(s: State, schedule: seq<(nat, int)>)
    requires Initial(s) && s.procs != [] && Legal(s, schedule) && Stuck(Run(s, schedule))
    ensures Lost(Run(s, schedule))
  {
    var t := Run(s, schedule);
    InitialRun(s);
    RunKeeps(s, schedule);
    SumNonNegative(t.procs, Holds);
    if t.shm.wmtx + Sum(t.procs, Holds) == 1 {
      TokenMoves(t);
    }
  }

  /** With at most one reader, in every run: nobody in the middle of the
      protocol is ever stuck for good. */
  lemma SingleReaderNeverStuck(s: State, schedule: seq<(nat, int)>, mid: nat) returns (i: nat)
    requires Initial(s) && AtMostOneReader(s.procs) && Legal(s, schedule)
    requires mid < |Run(s, schedule).procs| && !Run(s, schedule).procs[mid].Idle()
    ensures Enabled(Run(s, schedule), i) && !Run(s, schedule).procs[i].Idle()
  {
    InitialSingle(s);
    SingleRun(s, schedule);
    InitialRun(s);
    RunKeeps(s, schedule);
    i := Progress(Run(s, schedule), mid);
  }
}
