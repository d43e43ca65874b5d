/** What happens to every test in a run of the test runner: whether it is run, with which return code,
    and what run_tests makes of it, said by the steps of the run. */
module WorkerRuns {
  import opened WorkerPool
  import opened WorkerPoolProof

  // ----- the steps that concern one test -----

  /** The step is the run of job j, in this state. */
  predicate RunsJob(s: State, t: Step, j: nat) {
    t.Run? && t.i < |s.workers| && s.workers[t.i].Running? && s.workers[t.i].job == j
  }

  /** The step is the look at thread_exit for job j. */
  predicate ChecksJob(s: State, t: Step, j: nat) {
    t.Check? && t.i < |s.workers| && s.workers[t.i].Got? && s.workers[t.i].job == j
  }

  /** The return codes of all runs of job j, in order. */
  ghost function Codes(c: Config, s: State, steps: seq<Step>, j: nat): seq<int>
    requires IsRun(c, s, steps)
    decreases |steps|
  {
    if steps == [] then []
    else (if RunsJob(s, steps[0], j) then [steps[0].code] else []) + Codes(c, Apply(c, s, steps[0]), steps[1..], j)
  }

  /** For every check of job j whether an interrupt had come before. */
  ghost function Checks(c: Config, s: State, steps: seq<Step>, j: nat, interrupted: bool): seq<bool>
    requires IsRun(c, s, steps)
    decreases |steps|
  {
    if steps == [] then []
    else (if ChecksJob(s, steps[0], j) then [interrupted] else [])
         + Checks(c, Apply(c, s, steps[0]), steps[1..], j, interrupted || steps[0].Interrupt?)
  }

  // ----- how far a test has come -----

  datatype Phase = Before | InRun | Behind

  predicate IsRunning(s: State, j: nat) { Running(j) in s.workers }

  predicate IsPutting(s: State, j: nat) { Putting(j) in s.workers }

  function PhaseOf(s: State, j: nat): Phase {
    if IsRunning(s, j) then InRun
    else if IsPutting(s, j) || j in s.output || j in s.collected then Behind
    else Before
  }

  /** A worker that changes, with another job or none, changes nothing for job j. */
  lemma OtherWorker(ws: seq<Worker>, i: nat, w: Worker, v: Worker)
    requires i < |ws| && ws[i] != v && w != v
    ensures v in ws <==> v in ws[i := w]
  {
    if v in ws {
      var k :| 0 <= k < |ws| && ws[k] == v;
      assert ws[i := w][k] == v;
    }
  }

  lemma OthersStay(s: State, i: nat, w: Worker, j: nat)
    requires i < |s.workers| && s.workers[i] != Running(j) && s.workers[i] != Putting(j)
    requires w != Running(j) && w != Putting(j)
    ensures IsRunning(SetWorker(s, i, w), j) == IsRunning(s, j) && IsPutting(SetWorker(s, i, w), j) == IsPutting(s, j)
  {
    OtherWorker(s.workers, i, w, Running(j));
    OtherWorker(s.workers, i, w, Putting(j));
  }

  /** The only worker with job j. */
  lemma OwnWorker(s: State, i: nat, w: Worker, j: nat)
    requires Places(s) && i < |s.workers| && IsBusy(s.workers[i]) == 1 && s.workers[i].job == j
    ensures IsRunning(s, j) == s.workers[i].Running? && IsPutting(s, j) == s.workers[i].Putting?
    ensures j !in s.output && j !in s.collected
    ensures IsRunning(SetWorker(s, i, w), j) == (w == Running(j)) &&
            IsPutting(SetWorker(s, i, w), j) == (w == Putting(j))
  {
    HeldOnce(s, i);
    assert SetWorker(s, i, w).workers[i] == w;
    assert forall k :: 0 <= k < |s.workers| && k != i ==> s.workers[k] != Running(j) && s.workers[k] != Putting(j);
  }

  lemma InvParts(c: Config, s: State, j: nat)
    requires Inv(c, s) && j < Tests(c)
    ensures Places(s) && j < |s.jobs| && JobFits(c, s, j) && Flags(c, s) && Shape(c, s)
  {
  }

  lemma CheckPhase(c: Config, s: State, i: nat, j: nat)
    requires Inv(c, s) && Enabled(c, s, Check(i)) && j < Tests(c)
    ensures PhaseOf(Apply(c, s, Check(i)), j) ==
            if s.workers[i].job == j then (if s.threadExit || c.skips[j] then Behind else InRun) else PhaseOf(s, j)
    ensures s.workers[i].job == j ==> PhaseOf(s, j) == Before && !s.jobs[j].isBreak
  {
    InvParts(c, s, j);
    assert WorkerFits(c, s, s.workers[i]);
    hide Inv, Places;
    var w := CheckJob(s, i).workers[i];
    if s.workers[i].job == j {
      OwnWorker(s, i, w, j) by { assert Places(s); }
    } else {
      OthersStay(s, i, w, j);
    }
  }

  lemma RunPhase(c: Config, s: State, i: nat, code: int, j: nat)
    requires Inv(c, s) && Enabled(c, s, Run(i, code)) && j < Tests(c)
    ensures PhaseOf(Apply(c, s, Run(i, code)), j) == if s.workers[i].job == j then Behind else PhaseOf(s, j)
    ensures s.workers[i].job == j ==> PhaseOf(s, j) == InRun
  {
    InvParts(c, s, j);
    hide Inv, Places;
    if s.workers[i].job == j {
      OwnWorker(s, i, Putting(j), j);
    } else {
      OthersStay(s, i, Putting(s.workers[i].job), j);
    }
  }

  lemma PutPhase(c: Config, s: State, i: nat, j: nat)
    requires Inv(c, s) && Enabled(c, s, Put(i)) && j < Tests(c)
    ensures PhaseOf(Apply(c, s, Put(i)), j) == PhaseOf(s, j)
  {
    InvParts(c, s, j);
    hide Inv, Places;
    if s.workers[i].job == j {
      OwnWorker(s, i, Waiting, j);
    } else {
      OthersStay(s, i, Waiting, j);
    }
  }

  lemma {:induction false} PhaseStep(c: Config, s: State, t: Step, j: nat)
    requires Inv(c, s) && Enabled(c, s, t) && j < Tests(c)
    ensures PhaseOf(Apply(c, s, t), j) ==
            if ChecksJob(s, t, j) then (if s.threadExit || c.skips[j] then Behind else InRun)
            else if RunsJob(s, t, j) then Behind
            else PhaseOf(s, j)
    ensures ChecksJob(s, t, j) ==> PhaseOf(s, j) == Before && !s.jobs[j].isBreak
    ensures RunsJob(s, t, j) ==> PhaseOf(s, j) == InRun
  {
    InvParts(c, s, j);
    hide Inv, Places, CheckJob, Tally, VerdictOf, Sizes, Fifo, Flags, JobFits;
    match t
    case Check(i) => CheckPhase(c, s, i, j);
    case Run(i, code) => RunPhase(c, s, i, code, j);
    case Put(i) => PutPhase(c, s, i, j);
    case Get(i) => OthersStay(s, i, Got(s.input[0]), j);
    case Start =>
      ShapeStarted(c, s);
      OthersStay(s, s.started, Waiting, j);
    case _ =>
  }

  // ----- the history of a test -----

  /** What the codes and checks of job j so far have to do with where it is. */
  ghost predicate History(c: Config, s: State, j: nat, codes: seq<int>, checks: seq<bool>)
    requires j < |s.jobs| && j < Tests(c)
  {
    match PhaseOf(s, j)
    case Before => codes == [] && checks == [] && !s.jobs[j].isBreak
    case InRun => codes == [] && checks == [false] && !s.jobs[j].isBreak && !c.skips[j]
    case Behind =>
      && |checks| == 1 && s.jobs[j].isBreak == checks[0]
      && codes == if checks[0] || c.skips[j] then [] else [s.jobs[j].returncode]
  }

  /** Only its own check and run change the job. */
  lemma JobStep(c: Config, s: State, t: Step, j: nat)
    requires Enabled(c, s, t) && j < |s.jobs|
    ensures var r := Apply(c, s, t);
            && j < |r.jobs|
            && (if RunsJob(s, t, j) then r.jobs[j] == s.jobs[j].(returncode := t.code)
                else if ChecksJob(s, t, j) && s.threadExit then r.jobs[j].isBreak && (!s.jobs[j].isBreak ==>
                  r.jobs[j] == s.jobs[j].(isBreak := true))
                else r.jobs[j] == s.jobs[j])
            && r.threadExit == (s.threadExit || t.Interrupt?)
  {
  }

  lemma HistoryStep(c: Config, s: State, t: Step, j: nat, codes: seq<int>, checks: seq<bool>)
    requires Inv(c, s) && Enabled(c, s, t) && j < Tests(c) && j < |s.jobs| && History(c, s, j, codes, checks)
    ensures j < |Apply(c, s, t).jobs|
    ensures History(c, Apply(c, s, t), j,
                    codes + if RunsJob(s, t, j) then [t.code] else [],
                    checks + if ChecksJob(s, t, j) then [s.threadExit] else [])
  {
    PhaseStep(c, s, t, j);
    JobStep(c, s, t, j);
    hide Inv, PhaseOf, Apply, Enabled;
    assert codes + [] == codes && checks + [] == checks;
  }

  lemma {:induction false} HistoryRun(c: Config, s: State, steps: seq<Step>, j: nat, codes: seq<int>, checks: seq<bool>)
    requires Inv(c, s) && IsRun(c, s, steps) && j < Tests(c) && j < |s.jobs| && History(c, s, j, codes, checks)
    ensures j < |After(c, s, steps).jobs|
    ensures History(c, After(c, s, steps), j,
                    codes + Codes(c, s, steps, j), checks + Checks(c, s, steps, j, s.threadExit))
    decreases |steps|
  {
    hide Inv, History, ChecksJob, Apply, Enabled;
    if steps == [] {
      assert codes + [] == codes && checks + [] == checks;
    } else {
      var t, r := steps[0], Apply(c, s, steps[0]);
      var code := if RunsJob(s, t, j) then [t.code] else [];
      var check := if ChecksJob(s, t, j) then [s.threadExit] else [];
      HistoryStep(c, s, t, j, codes, checks);
      StepKeepsInv(c, s, t);
      JobStep(c, s, t, j);
      HistoryRun(c, r, steps[1..], j, codes + code, checks + check);
      assert codes + code + Codes(c, r, steps[1..], j) == codes + Codes(c, s, steps, j);
      var later := Checks(c, r, steps[1..], j, r.threadExit);
      assert checks + check + later == checks + Checks(c, s, steps, j, s.threadExit);
    }
  }

  // ----- finished runs -----

  /** Job j was checked after an interrupt. */
  ghost predicate BrokenOff(c: Config, steps: seq<Step>, j: nat)
    requires IsRun(c, Init(c), steps)
  {
    Checks(c, Init(c), steps, j, false) == [true]
  }

  /** In a run that has returned every test was checked exactly once; it was run exactly once if it is
      not skipped and no interrupt came before its check, and otherwise never; its return code is the
      one of that run. */
  lemma EveryTestIsRun(c: Config, steps: seq<Step>, j: nat)
    requires IsRun(c, Init(c), steps) && After(c, Init(c), steps).returned && j < Tests(c)
    ensures var s := After(c, Init(c), steps);
            && j < |s.jobs| && |Checks(c, Init(c), steps, j, false)| == 1
            && s.jobs[j].isBreak == BrokenOff(c, steps, j) && s.jobs[j].isSkip == c.skips[j]
            && Codes(c, Init(c), steps, j) ==
               if BrokenOff(c, steps, j) || c.skips[j] then [] else [s.jobs[j].returncode]
  {
    var s := After(c, Init(c), steps);
    InitInv(c);
    RunKeepsInv(c, Init(c), steps);
    AllStarted(c, j);
    HistoryRun(c, Init(c), steps, j, [], []);
    DeliveredExactlyOnce(c, steps);
    CopiesIn(s.collected, j);
    assert JobFits(c, s, j);
    hide Inv;
    assert forall i :: 0 <= i < |s.workers| ==> s.workers[i].Stopped?;
    assert PhaseOf(s, j) == Behind;
    var codes, checks := Codes(c, Init(c), steps, j), Checks(c, Init(c), steps, j, false);
    assert [] + codes == codes && [] + checks == checks;
  }

  lemma AllStarted(c: Config, j: nat)
    requires j < Tests(c)
    ensures j < |Init(c).jobs| && History(c, Init(c), j, [], []) && !Init(c).threadExit
  {
    assert forall i :: 0 <= i < c.processors ==> Init(c).workers[i] == NotStarted;
  }

  /** run_tests returns 0 exactly when no test was broken off and every test that is not skipped ended
      with return code 0, and otherwise 1. */
  lemma ExitCodeIsZero(c: Config, steps: seq<Step>)
    requires IsRun(c, Init(c), steps) && After(c, Init(c), steps).returned
    ensures ExitCode(c, After(c, Init(c), steps)) == 0 <==>
            forall j :: 0 <= j < Tests(c) ==>
              !BrokenOff(c, steps, j) && (c.skips[j] || Codes(c, Init(c), steps, j) == [0])
    ensures ExitCode(c, After(c, Init(c), steps)) == 0 || ExitCode(c, After(c, Init(c), steps)) == 1
  {
    var s := After(c, Init(c), steps);
    ExitCodeMeaning(c, steps);
    forall j | 0 <= j < Tests(c)
      ensures Good(s.jobs[j]) <==> !BrokenOff(c, steps, j) && (c.skips[j] || Codes(c, Init(c), steps, j) == [0])
    {
      EveryTestIsRun(c, steps, j);
    }
    hide Good, BrokenOff;
  }

  /** An interrupt may come at any moment, and a running test may end with any code. */
  lemma AnythingMayHappen(c: Config, steps: seq<Step>, i: nat, code: int)
    requires IsRun(c, Init(c), steps)
    ensures Interrupt !in steps ==> IsRun(c, Init(c), steps + [Interrupt])
    ensures var s := After(c, Init(c), steps);
            i < |s.workers| && s.workers[i].Running? ==> IsRun(c, Init(c), steps + [Run(i, code)])
  {
    var s := After(c, Init(c), steps);
    InitInv(c);
    RunKeepsInv(c, Init(c), steps);
    if Interrupt !in steps {
      FlagIsInterrupt(c, Init(c), steps);
      RunAppendOne(c, Init(c), steps, Interrupt);
    }
    if i < |s.workers| && s.workers[i].Running? {
      assert WorkerFits(c, s, s.workers[i]);
      RunAppendOne(c, Init(c), steps, Run(i, code));
    }
  }

  lemma {:induction false} FlagIsInterrupt(c: Config, s: State, steps: seq<Step>)
    requires IsRun(c, s, steps)
    ensures After(c, s, steps).threadExit <==> s.threadExit || Interrupt in steps
    decreases |steps|
  {
    if steps != [] {
      assert steps == [steps[0]] + steps[1..];
      FlagIsInterrupt(c, Apply(c, s, steps[0]), steps[1..]);
    }
  }

  // ----- the counts -----

  /** Of distinct jobs done, as many as have the verdict. */
  lemma {:induction false} CountIsSize(jobs: seq<Job>, done: seq<nat>, v: Verdict)
    requires forall j :: Copies(done, j) <= 1
    requires forall k :: 0 <= k < |done| ==> done[k] < |jobs|
    ensures CountOf(jobs, done, v) == |set j | j in done && VerdictOf(jobs[j]) == v|
  {
    if done != [] {
      var rest, x := done[..|done| - 1], done[|done| - 1];
      assert Copies(done, x) == Copies(rest, x) + 1;
      forall j: nat
        ensures Copies(rest, j) <= 1
      {
        assert Copies(done, j) <= 1;
      }
      CountIsSize(jobs, rest, v);
      CopiesIn(rest, x);
      assert done == rest + [x];
      var a := set j | j in rest && VerdictOf(jobs[j]) == v;
      var b := set j | j in done && VerdictOf(jobs[j]) == v;
      if VerdictOf(jobs[x]) == v { assert b == a + {x}; } else { assert b == a; }
    }
  }

  /** The tests whose one run ended with this code. */
  ghost function EndedWith(c: Config, steps: seq<Step>, code: int): set<nat>
    requires IsRun(c, Init(c), steps)
  {
    set j: nat | j < Tests(c) && Codes(c, Init(c), steps, j) == [code]
  }

  /** The tests whose one run ended with a code that stands for a crash. */
  ghost function CrashedTests(c: Config, steps: seq<Step>): set<nat>
    requires IsRun(c, Init(c), steps)
  {
    set j: nat | j < Tests(c) && |Codes(c, Init(c), steps, j)| == 1 && !(0 <= Codes(c, Init(c), steps, j)[0] <= 2)
  }

  /** The tests that were passed over. */
  ghost function SkippedTests(c: Config, steps: seq<Step>): set<nat>
    requires IsRun(c, Init(c), steps)
  {
    set j: nat | j < Tests(c) && c.skips[j] && !BrokenOff(c, steps, j)
  }

  lemma VerdictMeans(c: Config, steps: seq<Step>, j: nat)
    requires IsRun(c, Init(c), steps) && After(c, Init(c), steps).returned && j < Tests(c)
    ensures j < |After(c, Init(c), steps).jobs|
    ensures var v := VerdictOf(After(c, Init(c), steps).jobs[j]);
            && (v == Passed <==> j in EndedWith(c, steps, 0))
            && (v == Failed <==> j in EndedWith(c, steps, 1))
            && (v == Valgrind <==> j in EndedWith(c, steps, 2))
            && (v == Crashed <==> j in CrashedTests(c, steps))
            && (v == Skipped <==> j in SkippedTests(c, steps))
  {
    EveryTestIsRun(c, steps, j);
    hide BrokenOff;
  }

  /** The count of a verdict is the number of the tests that have it. */
  lemma CountIsTests(c: Config, s: State, v: Verdict, tests: set<nat>)
    requires Inv(c, s) && |s.jobs| >= Tests(c) && forall j :: 0 <= j < Tests(c) ==> Copies(s.collected, j) == 1
    requires forall j: nat :: j in tests <==> j < Tests(c) && VerdictOf(s.jobs[j]) == v
    ensures CountOf(s.jobs, s.collected, v) == |tests|
  {
    forall j: nat
      ensures Copies(s.collected, j) <= 1 && (j in s.collected <==> j < Tests(c))
    {
      CollectedOnce(c, s, j);
    }
    hide Inv, VerdictOf;
    CountIsSize(s.jobs, s.collected, v);
    assert (set j | j in s.collected && VerdictOf(s.jobs[j]) == v) == tests;
  }

  /** The counters at the end: tests that passed, failed and had a valgrind error are those whose one
      run ended with 0, 1 and 2, crashed are those with another code, and skipped are those to be
      skipped that were not broken off. */
  lemma CountsMeaning(c: Config, steps: seq<Step>)
    requires IsRun(c, Init(c), steps) && After(c, Init(c), steps).returned
    ensures var s := After(c, Init(c), steps);
            && s.passed == |EndedWith(c, steps, 0)|
            && s.failed == |EndedWith(c, steps, 1)|
            && s.valgrind == |EndedWith(c, steps, 2)|
            && s.crashed == |CrashedTests(c, steps)|
            && s.skipped == |SkippedTests(c, steps)|
  {
    var s := After(c, Init(c), steps);
    InitInv(c);
    RunKeepsInv(c, Init(c), steps);
    DeliveredExactlyOnce(c, steps);
    JobCount(c, s);
    assert Counted(s);
    forall j: nat | j < Tests(c)
      ensures var v := VerdictOf(s.jobs[j]);
              && (v == Passed <==> j in EndedWith(c, steps, 0))
              && (v == Failed <==> j in EndedWith(c, steps, 1))
              && (v == Valgrind <==> j in EndedWith(c, steps, 2))
              && (v == Crashed <==> j in CrashedTests(c, steps))
              && (v == Skipped <==> j in SkippedTests(c, steps))
    {
      VerdictMeans(c, steps, j);
    }
    assert forall k, j :: j in EndedWith(c, steps, k) ==> j < Tests(c);
    assert forall j :: j in CrashedTests(c, steps) || j in SkippedTests(c, steps) ==> j < Tests(c);
    hide Inv, VerdictOf, EndedWith, CrashedTests, SkippedTests, CountOf, Copies;
    CountIsTests(c, s, Passed, EndedWith(c, steps, 0));
    CountIsTests(c, s, Failed, EndedWith(c, steps, 1));
    CountIsTests(c, s, Valgrind, EndedWith(c, steps, 2));
    CountIsTests(c, s, Crashed, CrashedTests(c, steps));
    CountIsTests(c, s, Skipped, SkippedTests(c, steps));
  }

  lemma CollectedOnce(c: Config, s: State, j: nat)
    requires Inv(c, s) && forall k :: 0 <= k < Tests(c) ==> Copies(s.collected, k) == 1
    ensures Copies(s.collected, j) <= 1 && (j in s.collected <==> j < Tests(c))
  {
    CopiesIn(s.collected, j);
    if j in s.collected {
      var k :| 0 <= k < |s.collected| && s.collected[k] == j;
      assert s.collected[k] < Tests(c);
    }
  }
}
