/** The parallel test runner of test.py as a transition system: worker threads, the two
    FIFO queues, one poison job for every worker, and an interrupt at any moment. */
module WorkerPool {

  /** What is run: for every test whether it is to be skipped, and the number of threads. */
  datatype Config = Config(skips: seq<bool>, processors: nat)

  /** The fields of a Job that the protocol looks at. */
  datatype Job = Job(isBreak: bool, isSkip: bool, returncode: int)

  /** Where a worker stands in worker_thread.run. */
  datatype Worker =
    | NotStarted
    | Waiting                // before input_queue.get()
    | Got(job: nat)          // before the tests of is_break, thread_exit and is_skip
    | Running(job: nat)      // in run_job_synchronously
    | Putting(job: nat)      // before output_queue.put(job)
    | Stopped(job: nat)      // returned, on that poison job

  /** Jobs are numbered in the order of their put: tests first, then the poison jobs. */
  datatype State = State(
    workers: seq<Worker>,
    jobs: seq<Job>,
    input: seq<nat>,
    output: seq<nat>,
    threadExit: bool,
    started: nat,            // threads started by the main thread
    put: nat,                // jobs put into the input queue by the main thread
    collected: seq<nat>,     // jobs taken from the output queue, in order
    joined: nat,
    passed: nat, skipped: nat, failed: nat, valgrind: nat, crashed: nat,
    returned: bool)

  datatype Step =
    | Start | Dispatch | Poison | Collect | Join | Return         // the main thread
    | Get(i: nat) | Check(i: nat) | Run(i: nat, code: int) | Put(i: nat)   // worker i
    | Interrupt

  function Tests(c: Config): nat { |c.skips| }

  function Init(c: Config): State {
    State(seq(c.processors, _ => NotStarted),
          seq(Tests(c) + c.processors, j requires 0 <= j < Tests(c) + c.processors =>
            Job(j >= Tests(c), j < Tests(c) && c.skips[j], 0)),
          [], [], false, 0, 0, [], 0, 0, 0, 0, 0, 0, false)
  }

  predicate Enabled(c: Config, s: State, t: Step) {
    match t
    case Start => s.started < |s.workers|
    case Dispatch => s.started == c.processors && s.put < Tests(c)
    case Poison => s.started == c.processors && Tests(c) <= s.put < Tests(c) + c.processors
    case Collect => s.put == Tests(c) + c.processors && |s.collected| < Tests(c) && s.output != [] &&
      s.output[0] < |s.jobs|
    case Join => |s.collected| == Tests(c) && s.put == Tests(c) + c.processors &&
                 s.joined < |s.workers| && s.workers[s.joined].Stopped?
    case Return => |s.collected| == Tests(c) && s.joined == c.processors && s.started == c.processors && !s.returned
    case Get(i) => i < |s.workers| && s.workers[i].Waiting? && s.input != []
    case Check(i) => i < |s.workers| && s.workers[i].Got? && s.workers[i].job < |s.jobs|
    case Run(i, _) => i < |s.workers| && s.workers[i].Running? && s.workers[i].job < |s.jobs|
    case Put(i) => i < |s.workers| && s.workers[i].Putting?
    case Interrupt => !s.threadExit
  }

  function SetWorker(s: State, i: nat, w: Worker): State
    requires i < |s.workers|
  {
    s.(workers := s.workers[i := w])
  }

  function Apply(c: Config, s: State, t: Step): State
    requires Enabled(c, s, t)
  {
    match t
    case Start => SetWorker(s, s.started, Waiting).(started := s.started + 1)
    case Dispatch => s.(input := s.input + [s.put], put := s.put + 1)
    case Poison => s.(input := s.input + [s.put], put := s.put + 1)
    case Collect => Tally(s.(output := s.output[1..], collected := s.collected + [s.output[0]]), s.jobs[s.output[0]])
    case Join => s.(joined := s.joined + 1)
    case Return => s.(returned := true)
    case Get(i) => SetWorker(s, i, Got(s.input[0])).(input := s.input[1..])
    case Check(i) => CheckJob(s, i)
    case Run(i, code) =>
      var j := s.workers[i].job;
      SetWorker(s, i, Putting(j)).(jobs := s.jobs[j := s.jobs[j].(returncode := code)])
    case Put(i) => SetWorker(s, i, Waiting).(output := s.output + [s.workers[i].job])
    case Interrupt => s.(threadExit := true)
  }

  /** The tests at the top of the worker's loop. */
  function CheckJob(s: State, i: nat): State
    requires i < |s.workers| && s.workers[i].Got? && s.workers[i].job < |s.jobs|
  {
    var j := s.workers[i].job;
    if s.jobs[j].isBreak then SetWorker(s, i, Stopped(j))
    else if s.threadExit then SetWorker(s, i, Putting(j)).(jobs := s.jobs[j := s.jobs[j].(isBreak := true)])
    else if s.jobs[j].isSkip then SetWorker(s, i, Putting(j))
    else SetWorker(s, i, Running(j))
  }

  datatype Verdict = Interrupted | Skipped | Passed | Failed | Valgrind | Crashed

  function VerdictOf(job: Job): Verdict {
    if job.isBreak then Interrupted
    else if job.isSkip then Skipped
    else if job.returncode == 0 then Passed
    else if job.returncode == 1 then Failed
    else if job.returncode == 2 then Valgrind
    else Crashed
  }

  /** The body of the collecting loop. */
  function Tally(s: State, job: Job): State {
    match VerdictOf(job)
    case Interrupted => s
    case Skipped => s.(skipped := s.skipped + 1)
    case Passed => s.(passed := s.passed + 1)
    case Failed => s.(failed := s.failed + 1)
    case Valgrind => s.(valgrind := s.valgrind + 1)
    case Crashed => s.(crashed := s.crashed + 1)
  }

  /** What run_tests returns. */
  function ExitCode(c: Config, s: State): int {
    if s.passed + s.skipped == Tests(c) then 0 else 1
  }

  /** A run: steps each enabled where it is taken. */
  ghost predicate IsRun(c: Config, s: State, steps: seq<Step>)
    decreases |steps|
  {
    steps == [] || (Enabled(c, s, steps[0]) && IsRun(c, Apply(c, s, steps[0]), steps[1..]))
  }

  ghost function After(c: Config, s: State, steps: seq<Step>): State
    requires IsRun(c, s, steps)
    decreases |steps|
  {
    if steps == [] then s else After(c, Apply(c, s, steps[0]), steps[1..])
  }
}
