/**
 * The producer/consumer scripts of pro_com with atomic counting semaphores:
 * any number of producers and consumers, one bounded buffer file, three
 * semaphores, which those of FileSemaphores.dfy are shown to implement.
 */
module BoundedBuffer {
  import opened Sums

  // A consumer takes an item in three separately interleavable steps: it reads
  // the first line, copies the remaining lines (sed -i works on a copy) and
  // puts the copy in place of the buffer.

  type Item = string

  datatype Sem = Free | Space | Data

  datatype Sems = Sems(free: int, space: int, data: int) {
    function Get(s: Sem): int {
      match s case Free => free case Space => space case Data => data
    }

    function Add(s: Sem, n: int): Sems {
      match s
      case Free => this.(free := free + n)
      case Space => this.(space := space + n)
      case Data => this.(data := data + n)
    }
  }

  /** Where a process stands in its produce or comsume function. */
  datatype Proc =
    | WaitSpace(val: Item)     // producer: about to wait on space
    | WaitFreeP(val: Item)     //           holds a space credit
    | Append(val: Item)        //           in the critical section
    | PostFreeP(val: Item)     //           has appended
    | PostData(val: Item)
    | WaitData                 // consumer: about to wait on data
    | WaitFreeC                //           holds a data credit
    | ReadHead                 //           in the critical section
    | CopyTail(head: Item)
    | Install(head: Item, tail: seq<Item>)
    | PostFreeC                //           has removed its item
    | PostSpace
  {
    predicate IsProducer() {
      WaitSpace? || WaitFreeP? || Append? || PostFreeP? || PostData?
    }
  }

  /** The semaphore call a process makes next, if its next step is one. */
  datatype Call = NoCall | Wait(sem: Sem) | Post(sem: Sem)

  function NextCall(p: Proc): Call {
    match p
    case WaitSpace(_) => Wait(Space)
    case WaitFreeP(_) => Wait(Free)
    case PostFreeP(_) => Post(Free)
    case PostData(_) => Post(Data)
    case WaitData => Wait(Data)
    case WaitFreeC => Wait(Free)
    case PostFreeC => Post(Free)
    case PostSpace => Post(Space)
    case _ => NoCall
  }

  /** The process after its semaphore call. */
  function AfterCall(p: Proc): Proc {
    match p
    case WaitSpace(v) => WaitFreeP(v)
    case WaitFreeP(v) => Append(v)
    case PostFreeP(v) => PostData(v)
    case PostData(v) => WaitSpace(v)
    case WaitData => WaitFreeC
    case WaitFreeC => ReadHead
    case PostFreeC => PostSpace
    case PostSpace => WaitData
    case _ => p
  }

  /** The whole system; `produced` and `consumed` record, in order, the lines
      ever appended and the lines ever removed. */
  datatype State = State(
    sems: Sems, buffer: seq<Item>, procs: seq<Proc>,
    produced: seq<Item>, consumed: seq<Item>)

  /** Line 1 of the buffer, as sed prints it. */
  function FirstLine(buffer: seq<Item>): Item {
    if buffer == [] then "" else buffer[0]
  }

  /** The buffer without line 1, as sed leaves it. */
  function RestLines(buffer: seq<Item>): seq<Item> {
    if buffer == [] then [] else buffer[1..]
  }

  /** Process i does its next step on the buffer file. */
  function FileStep(s: State, i: nat): State
    requires i < |s.procs|
  {
    match s.procs[i]
    case Append(v) =>
      s.(buffer := s.buffer + [v], produced := s.produced + [v], procs := s.procs[i := PostFreeP(v)])
    case ReadHead =>
      s.(procs := s.procs[i := CopyTail(FirstLine(s.buffer))])
    case CopyTail(h) =>
      s.(procs := s.procs[i := Install(h, RestLines(s.buffer))])
    case Install(h, t) =>
      s.(buffer := t, consumed := s.consumed + [h], procs := s.procs[i := PostFreeC])
    case _ => s
  }

  predicate Enabled(s: State, i: nat) {
    i < |s.procs| &&
    match NextCall(s.procs[i])
    case Wait(sem) => s.sems.Get(sem) > 0
    case _ => true
  }

  function Step(s: State, i: nat): State
    requires i < |s.procs|
  {
    var p := s.procs[i];
    match NextCall(p)
    case Wait(sem) => s.(sems := s.sems.Add(sem, -1), procs := s.procs[i := AfterCall(p)])
    case Post(sem) => s.(sems := s.sems.Add(sem, 1), procs := s.procs[i := AfterCall(p)])
    case NoCall => FileStep(s, i)
  }

  /** A schedule names, step by step, the process that moves. */
  predicate Legal(s: State, schedule: seq<nat>)
    decreases |schedule|
  {
    schedule == [] || (Enabled(s, schedule[0]) && Legal(Step(s, schedule[0]), schedule[1..]))
  }

  function RunFrom(s: State, schedule: seq<nat>): State
    requires Legal(s, schedule)
    decreases |schedule|
  {
    if schedule == [] then s else RunFrom(Step(s, schedule[0]), schedule[1..])
  }

  /** run.sh: fresh semaphore files and every process before its first wait.
      The buffer file is not cleared, so it may hold lines left over from an
      earlier run; they count as produced. */
  predicate Initial(s: State, bufsize: nat) {
    && s.sems == Sems(1, bufsize, 0)
    && s.produced == s.buffer && s.consumed == []
    && forall i :: 0 <= i < |s.procs| ==> s.procs[i].WaitSpace? || s.procs[i].WaitData?
  }

  // ---------------------------------------------------------------------
  // Credits
  // ---------------------------------------------------------------------

  /** In the critical section guarded by `free`. */
  function Inside(p: Proc): int {
    if p.Append? || p.PostFreeP? || p.ReadHead? || p.CopyTail? || p.Install? || p.PostFreeC? then 1 else 0
  }

  /** A space credit held but not yet turned into a line. */
  function SpaceHeld(p: Proc): int {
    if p.WaitFreeP? || p.Append? then 1 else 0
  }

  /** A line appended but not yet announced on `data`. */
  function Unannounced(p: Proc): int {
    if p.PostFreeP? || p.PostData? then 1 else 0
  }

  /** A data credit held whose line is still in the buffer. */
  function DataHeld(p: Proc): int {
    if p.WaitFreeC? || p.ReadHead? || p.CopyTail? || p.Install? then 1 else 0
  }

  /** A line removed but not yet given back on `space`. */
  function Unreturned(p: Proc): int {
    if p.PostFreeC? || p.PostSpace? then 1 else 0
  }

  /** What a consumer in the critical section has read still is in the buffer. */
  predicate ReadsCurrent(p: Proc, buffer: seq<Item>) {
    match p
    case CopyTail(h) => buffer != [] && h == buffer[0]
    case Install(h, t) => buffer != [] && h == buffer[0] && t == buffer[1..]
    case _ => true
  }

  /** Credit conservation: the mutex token, the lines, the buffer slots; `left`
      lines were in the buffer from the start. */
  ghost predicate Credits(s: State, bufsize: nat, left: nat) {
    && s.sems.free >= 0 && s.sems.space >= 0 && s.sems.data >= 0
    && s.sems.free + Sum(s.procs, Inside) == 1
    && |s.buffer| == left + s.sems.data + Sum(s.procs, DataHeld) + Sum(s.procs, Unannounced)
    && bufsize + left == s.sems.space + Sum(s.procs, SpaceHeld) + |s.buffer| + Sum(s.procs, Unreturned)
  }

  /** First in, first out, and no stale copies in the critical section. */
  ghost predicate Fifo(s: State) {
    && s.produced == s.consumed + s.buffer
    && forall i :: 0 <= i < |s.procs| ==> ReadsCurrent(s.procs[i], s.buffer)
  }

  ghost predicate Inv(s: State, bufsize: nat, left: nat) {
    Credits(s, bufsize, left) && Fifo(s)
  }

  /** Every sum moves by the change of the process that moved. */
  lemma SumsUpdate(ps: seq<Proc>, i: nat, p: Proc)
    requires i < |ps|
    ensures Sum(ps[i := p], Inside) == Sum(ps, Inside) - Inside(ps[i]) + Inside(p)
    ensures Sum(ps[i := p], DataHeld) == Sum(ps, DataHeld) - DataHeld(ps[i]) + DataHeld(p)
    ensures Sum(ps[i := p], Unannounced) == Sum(ps, Unannounced) - Unannounced(ps[i]) + Unannounced(p)
    ensures Sum(ps[i := p], SpaceHeld) == Sum(ps, SpaceHeld) - SpaceHeld(ps[i]) + SpaceHeld(p)
    ensures Sum(ps[i := p], Unreturned) == Sum(ps, Unreturned) - Unreturned(ps[i]) + Unreturned(p)
  {
    SumUpdate(ps, i, p, Inside);
    SumUpdate(ps, i, p, DataHeld);
    SumUpdate(ps, i, p, Unannounced);
    SumUpdate(ps, i, p, SpaceHeld);
    SumUpdate(ps, i, p, Unreturned);
  }

  lemma SumsNonNegative(ps: seq<Proc>)
    ensures Sum(ps, Inside) >= 0 && Sum(ps, DataHeld) >= 0 && Sum(ps, Unannounced) >= 0
    ensures Sum(ps, SpaceHeld) >= 0 && Sum(ps, Unreturned) >= 0
  {
    SumNonNegative(ps, Inside);
    SumNonNegative(ps, DataHeld);
    SumNonNegative(ps, Unannounced);
    SumNonNegative(ps, SpaceHeld);
    SumNonNegative(ps, Unreturned);
  }

  /** At most one process is in the critical section. */
  lemma MutualExclusion(s: State, bufsize: nat, left: nat, i: nat, j: nat)
    requires Inv(s, bufsize, left) && i < |s.procs| && j < |s.procs|
    requires Inside(s.procs[i]) == 1 && Inside(s.procs[j]) == 1
    ensures i == j
  {
    if i < j {
      SumAtLeastTwo(s.procs, i, j, Inside);
    } else if j < i {
      SumAtLeastTwo(s.procs, j, i, Inside);
    }
  }

  /** A consumer in the critical section finds a line to read. */
  lemma NeverReadsEmpty(s: State, bufsize: nat, left: nat, i: nat)
    requires Inv(s, bufsize, left) && i < |s.procs| && DataHeld(s.procs[i]) == 1
    ensures s.buffer != []
  {
    SumAtLeast(s.procs, i, DataHeld);
    SumsNonNegative(s.procs);
  }

  lemma InitialInv(s: State, bufsize: nat)
    requires Initial(s, bufsize)
    ensures Inv(s, bufsize, |s.buffer|)
  {
    SumZero(s.procs, Inside);
    SumZero(s.procs, DataHeld);
    SumZero(s.procs, Unannounced);
    SumZero(s.procs, SpaceHeld);
    SumZero(s.procs, Unreturned);
  }

  lemma StepCredits(s: State, bufsize: nat, left: nat, i: nat)
    requires Credits(s, bufsize, left) && Enabled(s, i)
    requires ReadsCurrent(s.procs[i], s.buffer)
    ensures Credits(Step(s, i), bufsize, left)
  {
    CreditsLocal(s, i);
    hide Step, Enabled, ReadsCurrent, Inside, DataHeld, Unannounced, SpaceHeld, Unreturned;
    SumsUpdate(s.procs, i, Step(s, i).procs[i]);
  }

  /** The same equations for the process that moves, without sums. */
  lemma CreditsLocal(s: State, i: nat)
    requires Enabled(s, i) && ReadsCurrent(s.procs[i], s.buffer)
    requires s.sems.free >= 0 && s.sems.space >= 0 && s.sems.data >= 0
    ensures var s', p := Step(s, i), s.procs[i];
            var p' := s'.procs[i];
            && s'.procs == s.procs[i := p']
            && s'.sems.free >= 0 && s'.sems.space >= 0 && s'.sems.data >= 0
            && s'.sems.free + Inside(p') == s.sems.free + Inside(p)
            && |s'.buffer| - s'.sems.data - DataHeld(p') - Unannounced(p')
               == |s.buffer| - s.sems.data - DataHeld(p) - Unannounced(p)
            && s'.sems.space + SpaceHeld(p') + |s'.buffer| + Unreturned(p')
               == s.sems.space + SpaceHeld(p) + |s.buffer| + Unreturned(p)
  {
  }

  lemma StepFifo(s: State, bufsize: nat, left: nat, i: nat)
    requires Inv(s, bufsize, left) && Enabled(s, i)
    ensures Fifo(Step(s, i))
  {
    var s' := Step(s, i);
    if s.procs[i].ReadHead? || s.procs[i].CopyTail? || s.procs[i].Install? {
      NeverReadsEmpty(s, bufsize, left, i);
    }
    forall j | 0 <= j < |s'.procs| ensures ReadsCurrent(s'.procs[j], s'.buffer) {
      if j != i && Inside(s.procs[i]) == 1 && Inside(s.procs[j]) == 1 {
        MutualExclusion(s, bufsize, left, i, j);
      }
    }
  }

  /** Safety over every run of any number of producers and consumers. */
  lemma {:induction false} RunInv(s: State, bufsize: nat, left: nat, schedule: seq<nat>)
    requires Inv(s, bufsize, left) && Legal(s, schedule)
    ensures Inv(RunFrom(s, schedule), bufsize, left)
    decreases |schedule|
  {
    if schedule != [] {
      StepCredits(s, bufsize, left, schedule[0]);
      StepFifo(s, bufsize, left, schedule[0]);
      RunInv(Step(s, schedule[0]), bufsize, left, schedule[1..]);
    }
  }

  /** What the invariant means for an observer.  As many lines as were left over
      at the start are in the buffer at any time, so that many of the lines
      appended so far have not been delivered. */
  lemma FifoDelivery(s: State, bufsize: nat, schedule: seq<nat>)
    requires Initial(s, bufsize) && Legal(s, schedule)
    ensures var t := RunFrom(s, schedule);
            && t.produced == t.consumed + t.buffer
            && |s.buffer| <= |t.buffer| <= bufsize + |s.buffer|
            && |t.consumed| + |s.buffer| <= |t.produced|
            && t.sems.free >= 0 && t.sems.space >= 0 && t.sems.data >= 0
            && forall i :: 0 <= i < |t.procs| && t.procs[i].ReadHead? ==> t.buffer != []
  {
    InitialInv(s, bufsize);
    RunInv(s, bufsize, |s.buffer|, schedule);
    var t := RunFrom(s, schedule);
    SumsNonNegative(t.procs);
    forall i | 0 <= i < |t.procs| && t.procs[i].ReadHead? ensures t.buffer != [] {
      NeverReadsEmpty(t, bufsize, |s.buffer|, i);
    }
  }

  // ---------------------------------------------------------------------
  // What is produced
  // ---------------------------------------------------------------------

  /** The line a producer was started with. */
  function LineOf(p: Proc): Item {
    match p
    case WaitSpace(v) => v
    case WaitFreeP(v) => v
    case Append(v) => v
    case PostFreeP(v) => v
    case PostData(v) => v
    case _ => ""
  }

  /** The own lines, as of the start, of the producers that append in the run,
      in the order in which they do. */
  function Appends(s: State, lines: seq<Item>, r: seq<nat>): seq<Item>
    requires Legal(s, r) && |lines| == |s.procs|
    decreases |r|
  {
    if r == [] then []
    else
      (if s.procs[r[0]].Append? then [lines[r[0]]] else []) + Appends(Step(s, r[0]), lines, r[1..])
  }

  function LinesOf(ps: seq<Proc>): seq<Item> {
    seq(|ps|, i requires 0 <= i < |ps| => LineOf(ps[i]))
  }

  /** Neither the kind of a process nor the line of a producer ever changes. */
  ghost predicate KeepsLines(ps: seq<Proc>, lines: seq<Item>, kinds: seq<bool>) {
    && |lines| == |kinds| == |ps|
    && forall i :: 0 <= i < |ps| ==> ps[i].IsProducer() == kinds[i] && (kinds[i] ==> LineOf(ps[i]) == lines[i])
  }

  lemma StepLines(s: State, lines: seq<Item>, kinds: seq<bool>, i: nat)
    requires KeepsLines(s.procs, lines, kinds) && i < |s.procs|
    ensures KeepsLines(Step(s, i).procs, lines, kinds)
    ensures Step(s, i).produced == s.produced + if s.procs[i].Append? then [lines[i]] else []
  {
    assert s.procs[i].IsProducer() == kinds[i];
  }

  /** Producers append the lines they were started with, and nothing else is
      ever produced. */
  lemma {:induction false} ProducedAre(s: State, lines: seq<Item>, kinds: seq<bool>, r: seq<nat>)
    requires KeepsLines(s.procs, lines, kinds) && Legal(s, r)
    ensures KeepsLines(RunFrom(s, r).procs, lines, kinds)
    ensures RunFrom(s, r).produced == s.produced + Appends(s, lines, r)
    decreases |r|
  {
    if r != [] {
      StepLines(s, lines, kinds, r[0]);
      hide KeepsLines;
      ProducedAre(Step(s, r[0]), lines, kinds, r[1..]);
    }
  }

  /** So what is delivered is what was left over followed by the lines of the
      producers in the order they appended, as far as it has been taken. */
  lemma DeliveredAre(s: State, bufsize: nat, r: seq<nat>)
    requires Initial(s, bufsize) && Legal(s, r)
    ensures var t := RunFrom(s, r);
            t.consumed + t.buffer == s.buffer + Appends(s, LinesOf(s.procs), r)
    ensures forall i :: 0 <= i < |s.procs| && s.procs[i].IsProducer() ==>
              i < |RunFrom(s, r).procs| && LineOf(RunFrom(s, r).procs[i]) == LineOf(s.procs[i])
  {
    var kinds := seq(|s.procs|, i requires 0 <= i < |s.procs| => s.procs[i].IsProducer());
    assert KeepsLines(s.procs, LinesOf(s.procs), kinds);
    ProducedAre(s, LinesOf(s.procs), kinds, r);
    FifoDelivery(s, bufsize, r);
  }

  // ---------------------------------------------------------------------
  // When the buffer overflows
  // ---------------------------------------------------------------------

  lemma RunCons(s: State, i: nat, r: seq<nat>)
    requires Enabled(s, i) && Legal(Step(s, i), r)
    ensures Legal(s, [i] + r) && RunFrom(s, [i] + r) == RunFrom(Step(s, i), r)
  {
    assert ([i] + r)[1..] == r;
  }

  /** Alone at work, a producer appends a line in five steps and is back where
      it was. */
  lemma {:induction false} ProduceOne(s: State, p: nat, r: seq<nat>)
    requires p < |s.procs| && s.procs[p].WaitSpace? && s.sems.free == 1 && s.sems.space > 0
    requires Legal(Produced(s, p), r)
    ensures Legal(s, [p] + ([p] + ([p] + ([p] + ([p] + r)))))
    ensures RunFrom(s, [p] + ([p] + ([p] + ([p] + ([p] + r))))) == RunFrom(Produced(s, p), r)
  {
    var s1, s2, s3, s4 := ProduceSteps(s, p);
    hide Legal, RunFrom, Step, Enabled, Produced;
    RunCons(s4, p, r);
    RunCons(s3, p, [p] + r);
    RunCons(s2, p, [p] + ([p] + r));
    RunCons(s1, p, [p] + ([p] + ([p] + r)));
    RunCons(s, p, [p] + ([p] + ([p] + ([p] + r))));
  }

  lemma ProduceSteps(s: State, p: nat) returns (s1: State, s2: State, s3: State, s4: State)
    requires p < |s.procs| && s.procs[p].WaitSpace? && s.sems.free == 1 && s.sems.space > 0
    ensures Enabled(s, p) && Enabled(s1, p) && Enabled(s2, p) && Enabled(s3, p) && Enabled(s4, p)
    ensures s1 == Step(s, p) && s2 == Step(s1, p) && s3 == Step(s2, p) && s4 == Step(s3, p)
    ensures Step(s4, p) == Produced(s, p)
  {
    var v, ps := s.procs[p].val, s.procs;
    s1 := s.(sems := s.sems.Add(Space, -1), procs := ps[p := WaitFreeP(v)]);
    s2 := s1.(sems := s1.sems.Add(Free, -1), procs := ps[p := Append(v)]);
    s3 := s2.(buffer := s.buffer + [v], produced := s.produced + [v], procs := ps[p := PostFreeP(v)]);
    s4 := s3.(sems := s3.sems.Add(Free, 1), procs := ps[p := PostData(v)]);
    assert s1.procs[p := Append(v)] == s2.procs;
    assert s2.procs[p := PostFreeP(v)] == s3.procs;
    assert s3.procs[p := PostData(v)] == s4.procs;
    assert s4.procs[p := WaitSpace(v)] == s.procs;
  }

  function Produced(s: State, p: nat): State
    requires p < |s.procs| && s.procs[p].WaitSpace?
  {
    var v := s.procs[p].val;
    s.(sems := Sems(s.sems.free, s.sems.space - 1, s.sems.data + 1),
       buffer := s.buffer + [v], produced := s.produced + [v])
  }

  /** A producer can use up every free slot. */
  lemma {:induction false} FillUp(s: State, p: nat) returns (r: seq<nat>)
    requires p < |s.procs| && s.procs[p].WaitSpace? && s.sems.free == 1 && s.sems.space >= 0
    ensures Legal(s, r) && |RunFrom(s, r).buffer| == |s.buffer| + s.sems.space
    decreases s.sems.space
  {
    r := [];
    if s.sems.space > 0 {
      r := FillUp(Produced(s, p), p);
      ProduceOne(s, p, r);
      r := [p] + ([p] + ([p] + ([p] + ([p] + r))));
    }
  }

  /** The buffer stays within the given number of lines in every run. */
  ghost predicate AlwaysWithin(s: State, bound: int) {
    forall r :: Legal(s, r) ==> |RunFrom(s, r).buffer| <= bound
  }

  /** With a producer present the bound of FifoDelivery is reached: the buffer
      keeps to its configured size in every run exactly when it started empty. */
  lemma OverflowIff(s: State, bufsize: nat, p: nat)
    requires Initial(s, bufsize) && p < |s.procs| && s.procs[p].IsProducer()
    ensures AlwaysWithin(s, bufsize) <==> s.buffer == []
    ensures forall bound: int :: AlwaysWithin(s, bound) <==> bufsize + |s.buffer| <= bound
  {
    var r := FillUp(s, p);
    forall bound: int ensures AlwaysWithin(s, bound) <==> bufsize + |s.buffer| <= bound {
      if bufsize + |s.buffer| <= bound {
        forall q | Legal(s, q) ensures |RunFrom(s, q).buffer| <= bound {
          FifoDelivery(s, bufsize, q);
        }
      } else {
        assert |RunFrom(s, r).buffer| > bound;
      }
    }
  }

  // ---------------------------------------------------------------------
  // Progress
  // ---------------------------------------------------------------------

  /** With room in the buffer and both kinds of process present, some process
      can always take a step. */
  lemma Progress(s: State, bufsize: nat, left: nat, producer: nat, consumer: nat) returns (i: nat)
    requires Inv(s, bufsize, left) && bufsize >= 1
    requires producer < |s.procs| && s.procs[producer].IsProducer()
    requires consumer < |s.procs| && !s.procs[consumer].IsProducer()
    ensures Enabled(s, i)
  {
    SumsNonNegative(s.procs);
    if s.sems.free == 0 {
      i := SumPositive(s.procs, Inside);
    } else if Sum(s.procs, SpaceHeld) > 0 {
      i := SumPositive(s.procs, SpaceHeld);
    } else if Sum(s.procs, DataHeld) > 0 {
      i := SumPositive(s.procs, DataHeld);
    } else if Sum(s.procs, Unannounced) > 0 {
      i := SumPositive(s.procs, Unannounced);
    } else if Sum(s.procs, Unreturned) > 0 {
      i := SumPositive(s.procs, Unreturned);
    } else if s.sems.space > 0 {
      i := producer;
    } else {
      i := consumer;
    }
  }

  // ---------------------------------------------------------------------
  // Deliveries
  // ---------------------------------------------------------------------

  /** Steps of the current round, seven per line taken and five per line
      appended, that its line does not account for yet, or not any more. */
  function Place(p: Proc): int {
    match p
    case WaitSpace(_) => 0
    case WaitFreeP(_) => 1
    case Append(_) => 2
    case PostFreeP(_) => -2
    case PostData(_) => -1
    case WaitData => 0
    case WaitFreeC => 1
    case ReadHead => 2
    case CopyTail(_) => 3
    case Install(_, _) => 4
    case PostFreeC => -2
    case PostSpace => -1
  }

  lemma StepPlace(s: State, i: nat)
    requires Enabled(s, i)
    ensures var s' := Step(s, i);
            5 * |s'.produced| + 7 * |s'.consumed| + Sum(s'.procs, Place)
            == 5 * |s.produced| + 7 * |s.consumed| + Sum(s.procs, Place) + 1
  {
    var s' := Step(s, i);
    assert s'.procs == s.procs[i := s'.procs[i]];
    SumUpdate(s.procs, i, s'.procs[i], Place);
  }

  /** The exact number of steps of a run. */
  lemma {:induction false} StepsCount(s: State, r: seq<nat>)
    requires Legal(s, r)
    ensures var t := RunFrom(s, r);
            |r| == 5 * (|t.produced| - |s.produced|) + 7 * (|t.consumed| - |s.consumed|)
                   + Sum(t.procs, Place) - Sum(s.procs, Place)
    ensures |RunFrom(s, r).procs| == |s.procs|
    decreases |r|
  {
    if r != [] {
      StepPlace(s, r[0]);
      StepsCount(Step(s, r[0]), r[1..]);
    }
  }

  lemma {:induction false} PlaceBound(ps: seq<Proc>)
    ensures Sum(ps, Place) <= 4 * |ps|
  {
    if ps != [] {
      PlaceBound(ps[1..]);
    }
  }

  /** Steps cannot go on without deliveries. */
  lemma StepsDeliver(s: State, bufsize: nat, r: seq<nat>)
    requires Initial(s, bufsize) && Legal(s, r)
    ensures |r| <= 12 * |RunFrom(s, r).consumed| + 5 * bufsize + 4 * |s.procs|
  {
    StepsCount(s, r);
    FifoDelivery(s, bufsize, r);
    SumZero(s.procs, Place);
    PlaceBound(RunFrom(s, r).procs);
  }
}
