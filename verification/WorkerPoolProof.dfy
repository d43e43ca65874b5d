/** Every interleaving of the test runner delivers every job exactly once, never gets stuck,
    stops every worker on its own poison job, and ends. */
module WorkerPoolProof {
  import opened WorkerPool

  // ----- where the jobs are -----

  predicate Holds(w: Worker, j: nat) { !w.NotStarted? && !w.Waiting? && w.job == j }

  /** How many workers hold job j; a stopped worker keeps its poison job. */
  function Holders(ws: seq<Worker>, j: nat): nat {
    if ws == [] then 0 else Holders(ws[..|ws| - 1], j) + (if Holds(ws[|ws| - 1], j) then 1 else 0)
  }

  function Copies(q: seq<nat>, j: nat): nat {
    if q == [] then 0 else Copies(q[..|q| - 1], j) + (if q[|q| - 1] == j then 1 else 0)
  }

  /** The number of workers that hold a job. */
  function Busy(ws: seq<Worker>): nat {
    if ws == [] then 0 else Busy(ws[..|ws| - 1]) + IsBusy(ws[|ws| - 1])
  }

  function IsBusy(w: Worker): nat { if w.NotStarted? || w.Waiting? then 0 else 1 }

  lemma {:induction false} HoldersUpdate(ws: seq<Worker>, i: nat, w: Worker, j: nat)
    requires i < |ws|
    ensures Holders(ws[i := w], j) ==
            Holders(ws, j) - (if Holds(ws[i], j) then 1 else 0) + (if Holds(w, j) then 1 else 0)
    ensures Holds(ws[i], j) ==> Holders(ws, j) >= 1
  {
    var n, ws' := |ws| - 1, ws[i := w];
    if i == n {
      assert ws'[..n] == ws[..n];
    } else {
      assert ws'[..n] == ws[..n][i := w];
      HoldersUpdate(ws[..n], i, w, j);
    }
  }

  lemma {:induction false} BusyUpdate(ws: seq<Worker>, i: nat, w: Worker)
    requires i < |ws|
    ensures Busy(ws[i := w]) == Busy(ws) - IsBusy(ws[i]) + IsBusy(w)
  {
    var n, ws' := |ws| - 1, ws[i := w];
    if i == n {
      assert ws'[..n] == ws[..n];
    } else {
      assert ws'[..n] == ws[..n][i := w];
      BusyUpdate(ws[..n], i, w);
    }
  }

  lemma {:induction false} BusyAll(ws: seq<Worker>)
    ensures Busy(ws) <= |ws|
    ensures Busy(ws) == |ws| <==> forall i :: 0 <= i < |ws| ==> IsBusy(ws[i]) == 1
  {
    if ws != [] { BusyAll(ws[..|ws| - 1]); }
  }

  lemma HeldTwice(ws: seq<Worker>, i: nat, k: nat, j: nat)
    requires i < |ws| && k < |ws| && i != k && Holds(ws[i], j) && Holds(ws[k], j)
    ensures Holders(ws, j) >= 2
  {
    HoldersUpdate(ws, i, Waiting, j);
    HoldersUpdate(ws[i := Waiting], k, Waiting, j);
  }

  lemma CopiesPush(q: seq<nat>, x: nat, j: nat)
    ensures Copies(q + [x], j) == Copies(q, j) + if x == j then 1 else 0
  {
    assert (q + [x])[..|q|] == q;
  }

  lemma {:induction false} CopiesPop(q: seq<nat>, j: nat)
    requires q != []
    ensures Copies(q, j) == Copies(q[1..], j) + if q[0] == j then 1 else 0
  {
    if |q| > 1 {
      CopiesPop(q[..|q| - 1], j);
      assert q[..|q| - 1][1..] == q[1..][..|q| - 2];
    }
  }

  lemma {:induction false} CopiesIn(q: seq<nat>, j: nat)
    ensures Copies(q, j) > 0 <==> j in q
  {
    if q != [] {
      CopiesIn(q[..|q| - 1], j);
      assert q == q[..|q| - 1] + [q[|q| - 1]];
    }
  }

  /** In how many places job j is once it has left the input queue. */
  function Spots(s: State, j: nat): nat {
    Holders(s.workers, j) + Copies(s.output, j) + Copies(s.collected, j)
  }

  // ----- the invariant -----

  function Taken(s: State): int { s.put - |s.input| }

  /** Sizes and the order of the main thread's phases. */
  ghost predicate Sizes(c: Config, s: State) {
    && |s.workers| == c.processors && |s.jobs| == Tests(c) + c.processors
    && s.started <= c.processors && s.put <= Tests(c) + c.processors
    && (s.put > 0 ==> s.started == c.processors)
    && (forall i :: 0 <= i < |s.workers| ==> (s.workers[i].NotStarted? <==> i >= s.started))
  }

  /** The input queue holds the jobs last put, in the order of their put. */
  ghost predicate Fifo(s: State) {
    |s.input| <= s.put && forall k :: 0 <= k < |s.input| ==> s.input[k] == Taken(s) + k
  }

  ghost predicate Shape(c: Config, s: State) { Sizes(c, s) && Fifo(s) }

  /** Every job taken from the input queue is in exactly one place. */
  ghost predicate Places(s: State) {
    && Taken(s) >= 0
    && (forall j: nat :: Spots(s, j) == if j < Taken(s) then 1 else 0)
    && Busy(s.workers) + |s.output| + |s.collected| == Taken(s)
  }

  ghost predicate WorkerFits(c: Config, s: State, w: Worker) {
    match w
    case Running(j) => j < Tests(c)
    case Putting(j) => j < Tests(c)
    case Stopped(j) => j >= Tests(c)
    case Got(j) => j < Tests(c) && j < |s.jobs| ==> !s.jobs[j].isBreak
    case _ => true
  }

  /** Poison jobs stop workers; tests are marked as broken off only after an interrupt. */
  ghost predicate Flags(c: Config, s: State) {
    && (forall i :: 0 <= i < |s.workers| ==> WorkerFits(c, s, s.workers[i]))
    && (forall k :: 0 <= k < |s.output| ==> s.output[k] < Tests(c))
    && (forall k :: 0 <= k < |s.collected| ==> s.collected[k] < Tests(c))
    && (forall j :: 0 <= j < |s.jobs| ==> JobFits(c, s, j))
  }

  ghost predicate JobFits(c: Config, s: State, j: nat)
    requires j < |s.jobs|
  {
    && (j >= Tests(c) ==> s.jobs[j].isBreak)
    && (j < Tests(c) ==> s.jobs[j].isSkip == c.skips[j])
    && (j < Tests(c) && s.jobs[j].isBreak ==> s.threadExit && j < Taken(s))
  }

  /** The main thread: nothing is collected before all is put, nothing joined before all is collected. */
  ghost predicate Phases(c: Config, s: State) {
    && |s.collected| <= Tests(c) && s.joined <= c.processors
    && (s.collected != [] ==> s.put == Tests(c) + c.processors)
    && (s.joined > 0 ==> |s.collected| == Tests(c) && s.put == Tests(c) + c.processors)
    && (forall i :: 0 <= i < s.joined && i < |s.workers| ==> s.workers[i].Stopped?)
    && (s.returned ==> s.joined == c.processors && |s.collected| == Tests(c) && s.started == c.processors)
  }

  function CountOf(jobs: seq<Job>, done: seq<nat>, v: Verdict): nat {
    if done == [] then 0
    else CountOf(jobs, done[..|done| - 1], v) +
         (if done[|done| - 1] < |jobs| && VerdictOf(jobs[done[|done| - 1]]) == v then 1 else 0)
  }

  ghost predicate Counted(s: State) {
    && s.passed == CountOf(s.jobs, s.collected, Passed)
    && s.skipped == CountOf(s.jobs, s.collected, Skipped)
    && s.failed == CountOf(s.jobs, s.collected, Failed)
    && s.valgrind == CountOf(s.jobs, s.collected, Valgrind)
    && s.crashed == CountOf(s.jobs, s.collected, Crashed)
  }

  ghost predicate Inv(c: Config, s: State) {
    Shape(c, s) && Places(s) && Flags(c, s) && Phases(c, s) && Counted(s)
  }

  lemma InitInv(c: Config)
    ensures Inv(c, Init(c))
  {
    forall j: nat
      ensures Spots(Init(c), j) == 0
    {
      NobodyHolds(c.processors, j);
    }
    NobodyHolds(c.processors, 0);
  }

  lemma {:induction false} NobodyHolds(n: nat, j: nat)
    ensures var ws: seq<Worker> := seq(n, _ => NotStarted); Holders(ws, j) == 0 && Busy(ws) == 0
  {
    if n > 0 {
      var ws: seq<Worker> := seq(n, _ => NotStarted);
      assert ws[..n - 1] == seq(n - 1, _ => NotStarted);
      NobodyHolds(n - 1, j);
    }
  }

  // ----- every step keeps it -----

  /** A job that a worker holds is held by no other worker and is in no queue. */
  lemma HeldOnce(s: State, i: nat)
    requires Places(s) && i < |s.workers| && IsBusy(s.workers[i]) == 1
    ensures var j := s.workers[i].job;
            && j < Taken(s) && j !in s.output && j !in s.collected
            && forall k :: 0 <= k < |s.workers| && k != i ==> !Holds(s.workers[k], j)
  {
    var j := s.workers[i].job;
    HoldersUpdate(s.workers, i, Waiting, j);
    CopiesIn(s.output, j);
    CopiesIn(s.collected, j);
    assert Spots(s, j) <= 1;
    forall k | 0 <= k < |s.workers| && k != i
      ensures !Holds(s.workers[k], j)
    {
      if Holds(s.workers[k], j) { HeldTwice(s.workers, i, k, j); }
    }
  }

  lemma {:induction false} CountSame(a: seq<Job>, b: seq<Job>, done: seq<nat>, v: Verdict)
    requires |a| == |b| && forall k :: 0 <= k < |done| ==> done[k] < |a| && a[done[k]] == b[done[k]]
    ensures CountOf(a, done, v) == CountOf(b, done, v)
  {
    if done != [] { CountSame(a, b, done[..|done| - 1], v); }
  }

  /** Changing a job that has not been collected leaves the tallies alone. */
  lemma CountedKept(s: State, t: State)
    requires Counted(s) && |s.jobs| == |t.jobs| && s.collected == t.collected
    requires forall k :: 0 <= k < |s.collected| ==>
             s.collected[k] < |s.jobs| && s.jobs[s.collected[k]] == t.jobs[s.collected[k]]
    requires s.passed == t.passed && s.skipped == t.skipped && s.failed == t.failed && s.valgrind == t.valgrind &&
             s.crashed == t.crashed
    ensures Counted(t)
  {
    CountSame(s.jobs, t.jobs, s.collected, Passed);
    CountSame(s.jobs, t.jobs, s.collected, Skipped);
    CountSame(s.jobs, t.jobs, s.collected, Failed);
    CountSame(s.jobs, t.jobs, s.collected, Valgrind);
    CountSame(s.jobs, t.jobs, s.collected, Crashed);
  }

  lemma SizesKept(c: Config, s: State, t: Step)
    requires Sizes(c, s) && Enabled(c, s, t)
    ensures Sizes(c, Apply(c, s, t))
  {
  }

  lemma FifoKept(c: Config, s: State, t: Step)
    requires Fifo(s) && Enabled(c, s, t)
    ensures Fifo(Apply(c, s, t))
  {
  }

  lemma ShapeKept(c: Config, s: State, t: Step)
    requires Shape(c, s) && Enabled(c, s, t)
    ensures Shape(c, Apply(c, s, t))
  {
    hide Sizes, Fifo, Apply;
    SizesKept(c, s, t);
    FifoKept(c, s, t);
  }

  lemma PhasesKept(c: Config, s: State, t: Step)
    requires Shape(c, s) && Phases(c, s) && Enabled(c, s, t)
    ensures Phases(c, Apply(c, s, t))
  {
  }

  /** Only Get puts a job into a new place. */
  lemma SpotsStep(c: Config, s: State, t: Step, j: nat)
    requires Enabled(c, s, t) && Shape(c, s)
    ensures Spots(Apply(c, s, t), j) == Spots(s, j) + if t.Get? && s.input[0] == j then 1 else 0
  {
    hide Holders, Copies, Shape;
    match t
    case Start =>
      assert !Holds(s.workers[s.started], j) by { ShapeStarted(c, s); }
      HoldersUpdate(s.workers, s.started, Waiting, j);
    case Get(i) => HoldersUpdate(s.workers, i, Got(s.input[0]), j);
    case Check(i) => HoldersUpdate(s.workers, i, CheckJob(s, i).workers[i], j);
    case Run(i, _) => HoldersUpdate(s.workers, i, Putting(s.workers[i].job), j);
    case Put(i) =>
      HoldersUpdate(s.workers, i, Waiting, j);
      CopiesPush(s.output, s.workers[i].job, j);
    case Collect =>
      CopiesPop(s.output, j);
      CopiesPush(s.collected, s.output[0], j);
    case _ =>
  }

  lemma ShapeStarted(c: Config, s: State)
    requires Shape(c, s) && Enabled(c, s, Start)
    ensures s.workers[s.started].NotStarted?
  {
  }

  lemma BusyStep(c: Config, s: State, t: Step)
    requires Enabled(c, s, t) && Shape(c, s)
    ensures var r := Apply(c, s, t);
            Busy(r.workers) + |r.output| + |r.collected| ==
            Busy(s.workers) + |s.output| + |s.collected| + if t.Get? then 1 else 0
  {
    hide Busy, Shape;
    match t
    case Start =>
      ShapeStarted(c, s);
      BusyUpdate(s.workers, s.started, Waiting);
    case Get(i) => BusyUpdate(s.workers, i, Got(s.input[0]));
    case Check(i) => BusyUpdate(s.workers, i, CheckJob(s, i).workers[i]);
    case Run(i, _) => BusyUpdate(s.workers, i, Putting(s.workers[i].job));
    case Put(i) => BusyUpdate(s.workers, i, Waiting);
    case _ =>
  }

  lemma TakenStep(c: Config, s: State, t: Step)
    requires Enabled(c, s, t) && Shape(c, s)
    ensures Taken(Apply(c, s, t)) == Taken(s) + if t.Get? then 1 else 0
    ensures t.Get? ==> s.input[0] == Taken(s)
  {
  }

  lemma PlacesKept(c: Config, s: State, t: Step)
    requires Shape(c, s) && Places(s) && Enabled(c, s, t)
    ensures Places(Apply(c, s, t))
  {
    hide Shape, Apply, Spots, Taken, Busy;
    var r := Apply(c, s, t);
    BusyStep(c, s, t);
    TakenStep(c, s, t);
    forall j: nat
      ensures Spots(r, j) == if j < Taken(r) then 1 else 0
    {
      SpotsStep(c, s, t, j);
    }
  }

  /** Only Check and Run change a job, and only the one their worker holds. */
  lemma JobsKept(c: Config, s: State, t: Step)
    requires Enabled(c, s, t)
    ensures var r := Apply(c, s, t);
            && |r.jobs| == |s.jobs|
            && forall j :: 0 <= j < |s.jobs| && r.jobs[j] != s.jobs[j] ==>
                 (t.Check? || t.Run?) && j == s.workers[t.i].job && r.jobs[j].isSkip == s.jobs[j].isSkip &&
                 (r.jobs[j].isBreak == s.jobs[j].isBreak || (t.Check? && s.threadExit && r.jobs[j].isBreak))
  {
  }

  lemma FlagsKept(c: Config, s: State, t: Step)
    requires Inv(c, s) && Enabled(c, s, t)
    ensures Flags(c, Apply(c, s, t))
  {
    hide Apply, Shape, Places, Phases, Counted, WorkerFits, JobFits, Enabled;
    var r := Apply(c, s, t);
    JobsKept(c, s, t);
    SameWorkers(c, s, t);
    forall j | 0 <= j < |r.jobs|
      ensures JobFits(c, r, j)
    {
      JobFitsKept(c, s, t, j);
    }
    forall i | 0 <= i < |r.workers|
      ensures WorkerFits(c, r, r.workers[i])
    {
      WorkerFitsKept(c, s, t, i);
    }
    QueuesKept(c, s, t);
  }

  lemma SameWorkers(c: Config, s: State, t: Step)
    requires Enabled(c, s, t)
    ensures |Apply(c, s, t).workers| == |s.workers|
  {
  }

  lemma QueuesKept(c: Config, s: State, t: Step)
    requires Inv(c, s) && Enabled(c, s, t)
    ensures var r := Apply(c, s, t);
            && (forall k :: 0 <= k < |r.output| ==> r.output[k] < Tests(c))
            && (forall k :: 0 <= k < |r.collected| ==> r.collected[k] < Tests(c))
  {
    hide Places, Counted, Phases, Shape;
    if t.Put? { assert WorkerFits(c, s, s.workers[t.i]); }
  }

  lemma JobFitsKept(c: Config, s: State, t: Step, j: nat)
    requires Inv(c, s) && Enabled(c, s, t) && j < |s.jobs|
    ensures j < |Apply(c, s, t).jobs| && JobFits(c, Apply(c, s, t), j)
  {
    hide Places, Counted, Phases, CountOf, Apply;
    JobsKept(c, s, t);
    TakenGrows(c, s, t);
    assert JobFits(c, s, j);
    if t.Check? || t.Run? { HeldOnce(s, t.i); }
  }

  lemma TakenGrows(c: Config, s: State, t: Step)
    requires Enabled(c, s, t)
    ensures Taken(s) <= Taken(Apply(c, s, t)) && (s.threadExit ==> Apply(c, s, t).threadExit)
  {
  }

  lemma JobFitsDef(c: Config, s: State, j: nat)
    requires Flags(c, s) && j < |s.jobs|
    ensures j >= Tests(c) ==> s.jobs[j].isBreak
    ensures j < Tests(c) && Taken(s) <= j ==> !s.jobs[j].isBreak
  {
    assert JobFits(c, s, j);
  }

  /** A worker that does not step fits as before: no job it holds was changed. */
  lemma OtherFits(c: Config, s: State, t: Step, i: nat)
    requires Inv(c, s) && Enabled(c, s, t) && i < |s.workers|
    requires i < |Apply(c, s, t).workers| && Apply(c, s, t).workers[i] == s.workers[i]
    requires (t.Check? || t.Run?) ==> t.i != i
    ensures WorkerFits(c, Apply(c, s, t), s.workers[i])
  {
    hide Places, Counted, Phases, CountOf, JobFits, Shape, Apply;
    assert WorkerFits(c, s, s.workers[i]);
    JobsKept(c, s, t);
    if t.Check? || t.Run? {
      HeldOnce(s, t.i);
      assert !Holds(s.workers[i], s.workers[t.i].job);
    }
  }

  lemma WorkerFitsKept(c: Config, s: State, t: Step, i: nat)
    requires Inv(c, s) && Enabled(c, s, t) && i < |s.workers|
    ensures i < |Apply(c, s, t).workers| && WorkerFits(c, Apply(c, s, t), Apply(c, s, t).workers[i])
  {
    hide Places, Counted, Phases, CountOf, JobFits, Shape;
    var r := Apply(c, s, t);
    if (t.Check? || t.Run? || t.Get? || t.Put?) && t.i == i {
      assert WorkerFits(c, s, s.workers[i]);
      if t.Check? {
        JobFitsDef(c, s, s.workers[i].job);
      } else if t.Get? && s.input[0] < Tests(c) {
        JobCount(c, s);
        TakenStep(c, s, t);
        JobFitsDef(c, s, s.input[0]);
      }
    } else if r.workers[i] == s.workers[i] {
      OtherFits(c, s, t, i);
    }
  }

  lemma CountAdds(jobs: seq<Job>, done: seq<nat>, j: nat)
    requires j < |jobs|
    ensures forall v: Verdict ::
            CountOf(jobs, done + [j], v) == CountOf(jobs, done, v) + if VerdictOf(jobs[j]) == v then 1 else 0
  {
    assert (done + [j])[..|done|] == done;
  }

  lemma JobCount(c: Config, s: State)
    requires Shape(c, s)
    ensures |s.jobs| == Tests(c) + c.processors
  {
  }

  lemma CountsKept(c: Config, s: State, t: Step)
    requires Inv(c, s) && Enabled(c, s, t)
    ensures Counted(Apply(c, s, t))
  {
    hide Places, Phases, Shape;
    if t.Collect? {
      hide CountOf;
      CountAdds(s.jobs, s.collected, s.output[0]);
    } else {
      hide CountOf;
      if t.Check? || t.Run? { HeldOnce(s, t.i); }
      JobsKept(c, s, t);
      assert |s.jobs| >= Tests(c) by { JobCount(c, s); }
      CountedKept(s, Apply(c, s, t));
    }
  }

  lemma StepKeepsInv(c: Config, s: State, t: Step)
    requires Inv(c, s) && Enabled(c, s, t)
    ensures Inv(c, Apply(c, s, t))
  {
    hide Shape, Places, Flags, Phases, Counted, Apply;
    ShapeKept(c, s, t);
    PlacesKept(c, s, t);
    FlagsKept(c, s, t);
    PhasesKept(c, s, t);
    CountsKept(c, s, t);
  }

  lemma {:induction false} RunKeepsInv(c: Config, s: State, steps: seq<Step>)
    requires Inv(c, s) && IsRun(c, s, steps)
    ensures Inv(c, After(c, s, steps))
    decreases |steps|
  {
    hide Inv;
    if steps != [] {
      StepKeepsInv(c, s, steps[0]);
      RunKeepsInv(c, Apply(c, s, steps[0]), steps[1..]);
    }
  }

  // ----- the run ends -----

  function WorkerWeight(w: Worker): nat {
    match w
    case Got(_) => 4
    case Running(_) => 3
    case Putting(_) => 2
    case _ => 0
  }

  function WorkersWeight(ws: seq<Worker>): nat {
    if ws == [] then 0 else WorkersWeight(ws[..|ws| - 1]) + WorkerWeight(ws[|ws| - 1])
  }

  lemma {:induction false} WeightUpdate(ws: seq<Worker>, i: nat, w: Worker)
    requires i < |ws|
    ensures WorkersWeight(ws[i := w]) == WorkersWeight(ws) - WorkerWeight(ws[i]) + WorkerWeight(w)
  {
    var n, ws' := |ws| - 1, ws[i := w];
    if i == n {
      assert ws'[..n] == ws[..n];
    } else {
      assert ws'[..n] == ws[..n][i := w];
      WeightUpdate(ws[..n], i, w);
    }
  }

  /** Bounds the steps that are left. */
  function Measure(c: Config, s: State): int {
    (c.processors - s.started) + 6 * (Tests(c) + c.processors - s.put) + 5 * |s.input| + WorkersWeight(s.workers)
    + |s.output| + (c.processors - s.joined) + (if s.returned then 0 else 1) + (if s.threadExit then 0 else 1)
  }

  function WorkerOf(s: State, t: Step): nat {
    if t.Start? then s.started else if t.Get? || t.Check? || t.Run? || t.Put? then t.i else 0
  }

  /** What a worker's step does to its weight. */
  lemma WeightStep(c: Config, s: State, t: Step)
    requires Shape(c, s) && Enabled(c, s, t)
    ensures WorkersWeight(Apply(c, s, t).workers) <= WorkersWeight(s.workers) +
            if t.Get? then 4 else if t.Check? || t.Run? then -1 else if t.Put? then -2 else 0
  {
    hide WorkersWeight;
    if t.Start? || t.Get? || t.Check? || t.Run? || t.Put? {
      WeightUpdate(s.workers, WorkerOf(s, t), Apply(c, s, t).workers[WorkerOf(s, t)]);
    }
  }

  lemma MeasureDrops(c: Config, s: State, t: Step)
    requires Inv(c, s) && Enabled(c, s, t)
    ensures Measure(c, Apply(c, s, t)) < Measure(c, s)
  {
    hide WorkersWeight, Places, Counted, Flags, Phases, Fifo, Sizes;
    WeightStep(c, s, t);
  }

  lemma MeasurePositive(c: Config, s: State)
    requires Inv(c, s)
    ensures Measure(c, s) >= 0
  {
  }

  lemma {:induction false} InitMeasure(c: Config)
    ensures Measure(c, Init(c)) == 8 * c.processors + 6 * Tests(c) + 2
  {
    NobodyWeighs(c.processors);
  }

  lemma {:induction false} NobodyWeighs(n: nat)
    ensures WorkersWeight(seq(n, _ => NotStarted)) == 0
  {
    if n > 0 {
      var ws: seq<Worker> := seq(n, _ => NotStarted);
      assert ws[..n - 1] == seq(n - 1, _ => NotStarted);
      NobodyWeighs(n - 1);
    }
  }

  lemma {:induction false} RunUsesMeasure(c: Config, s: State, steps: seq<Step>)
    requires Inv(c, s) && IsRun(c, s, steps)
    ensures |steps| + Measure(c, After(c, s, steps)) <= Measure(c, s)
    decreases |steps|
  {
    hide Inv, Measure, Apply;
    if steps != [] {
      StepKeepsInv(c, s, steps[0]);
      MeasureDrops(c, s, steps[0]);
      RunUsesMeasure(c, Apply(c, s, steps[0]), steps[1..]);
    }
  }

  /** However the threads are scheduled, a run has at most this many steps. */
  lemma EveryRunEnds(c: Config, steps: seq<Step>)
    requires IsRun(c, Init(c), steps)
    ensures |steps| <= 8 * c.processors + 6 * Tests(c) + 2
  {
    InitInv(c);
    RunUsesMeasure(c, Init(c), steps);
    RunKeepsInv(c, Init(c), steps);
    MeasurePositive(c, After(c, Init(c), steps));
    InitMeasure(c);
  }

  // ----- the run never gets stuck -----

  /** Some thread can go on without waiting for an interrupt. */
  ghost predicate CanGoOn(c: Config, s: State) {
    exists t: Step :: !t.Interrupt? && Enabled(c, s, t)
  }

  /** A worker in the middle of a job can always go on. */
  lemma WorkerGoesOn(c: Config, s: State, i: nat)
    requires Inv(c, s) && i < |s.workers| && (s.workers[i].Got? || s.workers[i].Running? || s.workers[i].Putting?)
    ensures CanGoOn(c, s)
  {
    HeldOnce(s, i);
    if s.workers[i].Got? { assert Enabled(c, s, Check(i)); }
    if s.workers[i].Running? { assert Enabled(c, s, Run(i, 0)); }
    if s.workers[i].Putting? { assert Enabled(c, s, Put(i)); }
  }

  predicate Idle(w: Worker) { w.Waiting? || w.Stopped? }

  /** Jobs lo .. hi-1 in the hands of workers, and in a queue. */
  function SumHolders(ws: seq<Worker>, lo: nat, hi: nat): nat
    requires lo <= hi
  {
    if hi == lo then 0 else SumHolders(ws, lo, hi - 1) + Holders(ws, hi - 1)
  }

  function SumCopies(q: seq<nat>, n: nat): nat {
    if n == 0 then 0 else SumCopies(q, n - 1) + Copies(q, n - 1)
  }

  lemma {:induction false} SumHoldersLast(ws: seq<Worker>, lo: nat, hi: nat)
    requires lo <= hi && ws != []
    ensures var w := ws[|ws| - 1];
            SumHolders(ws, lo, hi) ==
            SumHolders(ws[..|ws| - 1], lo, hi) + if IsBusy(w) == 1 && lo <= w.job < hi then 1 else 0
  {
    if hi > lo { SumHoldersLast(ws, lo, hi - 1); }
  }

  lemma {:induction false} BusyIsSum(ws: seq<Worker>, lo: nat, hi: nat)
    requires lo <= hi
    requires forall i :: 0 <= i < |ws| && IsBusy(ws[i]) == 1 ==> lo <= ws[i].job < hi
    ensures Busy(ws) == SumHolders(ws, lo, hi)
  {
    if ws == [] {
      NoHolders(lo, hi);
    } else {
      BusyIsSum(ws[..|ws| - 1], lo, hi);
      SumHoldersLast(ws, lo, hi);
    }
  }

  lemma {:induction false} NoHolders(lo: nat, hi: nat)
    requires lo <= hi
    ensures SumHolders([], lo, hi) == 0
  {
    if hi > lo { NoHolders(lo, hi - 1); }
  }

  lemma {:induction false} SumHoldersBound(s: State, lo: nat, hi: nat)
    requires Places(s) && lo <= hi
    ensures SumHolders(s.workers, lo, hi) <= hi - lo
  {
    if hi > lo {
      SumHoldersBound(s, lo, hi - 1);
      assert Spots(s, hi - 1) <= 1;
    }
  }

  lemma {:induction false} SumCopiesLast(q: seq<nat>, n: nat)
    requires q != []
    ensures SumCopies(q, n) == SumCopies(q[..|q| - 1], n) + if q[|q| - 1] < n then 1 else 0
  {
    if n > 0 { SumCopiesLast(q, n - 1); }
  }

  lemma {:induction false} LengthIsSum(q: seq<nat>, n: nat)
    requires forall k :: 0 <= k < |q| ==> q[k] < n
    ensures |q| == SumCopies(q, n)
  {
    if q == [] {
      NoCopies(n);
    } else {
      LengthIsSum(q[..|q| - 1], n);
      SumCopiesLast(q, n);
    }
  }

  lemma {:induction false} NoCopies(n: nat)
    ensures SumCopies([], n) == 0
  {
    if n > 0 { NoCopies(n - 1); }
  }

  /** The two queues together hold at most every test once; if they hold that many, they hold all. */
  lemma {:induction false} QueuesBound(s: State, n: nat)
    requires Places(s)
    ensures SumCopies(s.output, n) + SumCopies(s.collected, n) <= n
    ensures SumCopies(s.collected, n) == n ==> forall j :: 0 <= j < n ==> Copies(s.collected, j) == 1
  {
    if n > 0 {
      QueuesBound(s, n - 1);
      assert Spots(s, n - 1) <= 1;
    }
  }

  /** When every worker is idle and every test has been taken, the output queue and the
      collector have all tests between them. */
  lemma IdleMeansDelivered(c: Config, s: State)
    requires Inv(c, s) && Tests(c) <= Taken(s)
    requires forall i :: 0 <= i < |s.workers| ==> Idle(s.workers[i])
    ensures |s.output| + |s.collected| >= Tests(c)
  {
    forall i | 0 <= i < |s.workers| && IsBusy(s.workers[i]) == 1
      ensures Tests(c) <= s.workers[i].job < Taken(s)
    {
      HeldOnce(s, i);
      assert WorkerFits(c, s, s.workers[i]);
    }
    BusyIsSum(s.workers, Tests(c), Taken(s));
    SumHoldersBound(s, Tests(c), Taken(s));
  }

  /** Before every test has been taken no worker has stopped. */
  lemma NotStoppedEarly(c: Config, s: State, i: nat)
    requires Inv(c, s) && i < |s.workers| && s.workers[i].Stopped?
    ensures Tests(c) < Taken(s)
  {
    HeldOnce(s, i);
    assert WorkerFits(c, s, s.workers[i]);
  }

  lemma AllCollected(c: Config, s: State)
    requires Inv(c, s) && |s.collected| == Tests(c)
    ensures s.output == []
    ensures forall j :: 0 <= j < Tests(c) ==> Copies(s.collected, j) == 1
  {
    LengthIsSum(s.output, Tests(c));
    LengthIsSum(s.collected, Tests(c));
    QueuesBound(s, Tests(c));
  }

  lemma CollectorGoesOn(c: Config, s: State)
    requires Inv(c, s) && c.processors > 0 && s.put == Tests(c) + c.processors && |s.collected| < Tests(c)
    requires forall i :: 0 <= i < |s.workers| ==> Idle(s.workers[i])
    ensures CanGoOn(c, s)
  {
    if s.output != [] {
      assert Enabled(c, s, Collect) by { JobCount(c, s); assert s.output[0] < Tests(c); }
    } else {
      if Tests(c) <= Taken(s) { IdleMeansDelivered(c, s); }
      assert Idle(s.workers[0]);
      if s.workers[0].Stopped? { NotStoppedEarly(c, s, 0); }
      assert Enabled(c, s, Get(0));
    }
  }

  lemma JoinerGoesOn(c: Config, s: State)
    requires Inv(c, s) && s.put == Tests(c) + c.processors && |s.collected| == Tests(c) && s.joined < c.processors
    requires forall i :: 0 <= i < |s.workers| ==> Idle(s.workers[i])
    ensures CanGoOn(c, s)
  {
    AllCollected(c, s);
    BusyAll(s.workers);
    assert Idle(s.workers[s.joined]);
    if s.workers[s.joined].Stopped? {
      assert Enabled(c, s, Join);
    } else {
      assert IsBusy(s.workers[s.joined]) == 0;
      assert Enabled(c, s, Get(s.joined));
    }
  }

  lemma GoesOn(c: Config, s: State)
    requires Inv(c, s) && !s.returned && (c.processors > 0 || Tests(c) == 0)
    ensures CanGoOn(c, s)
  {
    if s.started < c.processors {
      assert Enabled(c, s, Start);
    } else if s.put < Tests(c) {
      assert Enabled(c, s, Dispatch);
    } else if s.put < Tests(c) + c.processors {
      assert Enabled(c, s, Poison);
    } else if i :| 0 <= i < |s.workers| && !Idle(s.workers[i]) {
      WorkerGoesOn(c, s, i);
    } else if |s.collected| < Tests(c) {
      CollectorGoesOn(c, s);
    } else if s.joined < c.processors {
      JoinerGoesOn(c, s);
    } else {
      assert Enabled(c, s, Return);
    }
  }

  /** In no interleaving does the runner get stuck before run_tests returns. */
  ghost predicate NeverStuck(c: Config) {
    forall steps: seq<Step> :: IsRun(c, Init(c), steps) ==>
      After(c, Init(c), steps).returned || CanGoOn(c, After(c, Init(c), steps))
  }

  /** With no worker the collector waits forever for the first test. */
  lemma {:induction false} NoWorkers(c: Config, n: nat)
    requires c.processors == 0 && n <= Tests(c)
    ensures var steps := seq(n, _ => Dispatch);
            IsRun(c, Init(c), steps) && After(c, Init(c), steps) == Init(c).(put := n, input := seq(n, k => k))
  {
    if n > 0 {
      NoWorkers(c, n - 1);
      var steps: seq<Step> := seq(n, _ => Dispatch);
      assert steps == seq(n - 1, _ => Dispatch) + [Dispatch];
      RunAppendOne(c, Init(c), seq(n - 1, _ => Dispatch), Dispatch);
      assert seq(n, (k: nat) => k) == seq(n - 1, (k: nat) => k) + [n - 1];
    }
  }

  lemma {:induction false} RunAppendOne(c: Config, s: State, steps: seq<Step>, t: Step)
    requires IsRun(c, s, steps) && Enabled(c, After(c, s, steps), t)
    ensures IsRun(c, s, steps + [t]) && After(c, s, steps + [t]) == Apply(c, After(c, s, steps), t)
    decreases |steps|
  {
    hide Apply, Enabled;
    if steps == [] {
      assert steps + [t] == [t];
      assert [t][1..] == [];
    } else {
      assert (steps + [t])[1..] == steps[1..] + [t];
      RunAppendOne(c, Apply(c, s, steps[0]), steps[1..], t);
    }
  }

  /** One worker is enough, and needed as soon as there is a test. */
  lemma NeverStuckExactly(c: Config)
    ensures NeverStuck(c) <==> c.processors > 0 || Tests(c) == 0
  {
    if c.processors > 0 || Tests(c) == 0 {
      forall steps: seq<Step> | IsRun(c, Init(c), steps)
        ensures After(c, Init(c), steps).returned || CanGoOn(c, After(c, Init(c), steps))
      {
        InitInv(c);
        RunKeepsInv(c, Init(c), steps);
        if !After(c, Init(c), steps).returned { GoesOn(c, After(c, Init(c), steps)); }
      }
    } else {
      NoWorkers(c, Tests(c));
      var steps: seq<Step> := seq(Tests(c), _ => Dispatch);
      var s := After(c, Init(c), steps);
      assert !s.returned && !CanGoOn(c, s);
    }
  }

  // ----- what a finished run has done -----

  /** Every test is collected exactly once, both queues are empty, and every worker has
      stopped on a poison job of its own. */
  lemma DeliveredExactlyOnce(c: Config, steps: seq<Step>)
    requires IsRun(c, Init(c), steps) && After(c, Init(c), steps).returned
    ensures var s := After(c, Init(c), steps);
            && |s.collected| == Tests(c)
            && (forall j :: 0 <= j < Tests(c) ==> Copies(s.collected, j) == 1)
            && s.output == [] && s.input == [] && s.put == Tests(c) + c.processors
            && |s.workers| == c.processors
            && (forall i :: 0 <= i < |s.workers| ==>
                s.workers[i].Stopped? && Tests(c) <= s.workers[i].job < Tests(c) + c.processors)
            && (forall i, k :: 0 <= i < k < |s.workers| ==> s.workers[i].job != s.workers[k].job)
  {
    InitInv(c);
    RunKeepsInv(c, Init(c), steps);
    var s := After(c, Init(c), steps);
    AllCollected(c, s);
    forall i | 0 <= i < |s.workers|
      ensures s.workers[i].Stopped? && Tests(c) <= s.workers[i].job < Tests(c) + c.processors
      ensures forall k :: 0 <= k < |s.workers| && k != i ==> !Holds(s.workers[k], s.workers[i].job)
    {
      HeldOnce(s, i);
      assert WorkerFits(c, s, s.workers[i]);
    }
    assert forall i :: 0 <= i < |s.workers| ==> IsBusy(s.workers[i]) == 1;
    BusyAll(s.workers);
  }

  // ----- the counts -----

  function Interrupts(s: State): nat { CountOf(s.jobs, s.collected, Interrupted) }

  lemma {:induction false} CountsPartition(jobs: seq<Job>, done: seq<nat>)
    requires forall k :: 0 <= k < |done| ==> done[k] < |jobs|
    ensures CountOf(jobs, done, Passed) + CountOf(jobs, done, Skipped) + CountOf(jobs, done, Failed)
          + CountOf(jobs, done, Valgrind) + CountOf(jobs, done, Crashed) + CountOf(jobs, done, Interrupted) == |done|
  {
    if done != [] { CountsPartition(jobs, done[..|done| - 1]); }
  }

  lemma {:induction false} CountZero(jobs: seq<Job>, done: seq<nat>, v: Verdict)
    requires forall k :: 0 <= k < |done| ==> done[k] < |jobs|
    ensures CountOf(jobs, done, v) == 0 <==> forall k :: 0 <= k < |done| ==> VerdictOf(jobs[done[k]]) != v
  {
    if done != [] {
      CountZero(jobs, done[..|done| - 1], v);
      assert done == done[..|done| - 1] + [done[|done| - 1]];
    }
  }

  predicate Good(job: Job) { VerdictOf(job) == Passed || VerdictOf(job) == Skipped }

  /** The six counts partition the tests, and run_tests returns 0 exactly when every test
      passed or was skipped: none failed, crashed, had a valgrind error or was interrupted. */
  lemma ExitCodeMeaning(c: Config, steps: seq<Step>)
    requires IsRun(c, Init(c), steps) && After(c, Init(c), steps).returned
    ensures var s := After(c, Init(c), steps);
            && s.passed + s.skipped + s.failed + s.valgrind + s.crashed + Interrupts(s) == Tests(c)
            && |s.jobs| >= Tests(c)
            && (ExitCode(c, s) == 0 <==> forall j :: 0 <= j < Tests(c) ==> Good(s.jobs[j]))
            && (Interrupts(s) > 0 ==> s.threadExit)
  {
    InitInv(c);
    RunKeepsInv(c, Init(c), steps);
    var s := After(c, Init(c), steps);
    JobCount(c, s);
    CountsPartition(s.jobs, s.collected);
    AllCollected(c, s);
    forall v: Verdict
      ensures CountOf(s.jobs, s.collected, v) == 0 <==> forall j :: 0 <= j < Tests(c) ==> VerdictOf(s.jobs[j]) != v
    {
      CollectedVerdicts(c, s, v);
    }
    if !s.threadExit {
      forall j | 0 <= j < Tests(c)
        ensures VerdictOf(s.jobs[j]) != Interrupted
      {
        assert JobFits(c, s, j);
      }
    }
  }

  lemma CollectedVerdicts(c: Config, s: State, v: Verdict)
    requires Inv(c, s) && |s.jobs| >= Tests(c) && forall j :: 0 <= j < Tests(c) ==> Copies(s.collected, j) == 1
    ensures CountOf(s.jobs, s.collected, v) == 0 <==> forall j :: 0 <= j < Tests(c) ==> VerdictOf(s.jobs[j]) != v
  {
    CountZero(s.jobs, s.collected, v);
    if CountOf(s.jobs, s.collected, v) == 0 {
      forall j | 0 <= j < Tests(c)
        ensures VerdictOf(s.jobs[j]) != v
      {
        CopiesIn(s.collected, j);
        var k :| 0 <= k < |s.collected| && s.collected[k] == j;
      }
    }
  }
}
