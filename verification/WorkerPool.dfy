/** The test worker pool of test.py: `worker_thread.run` and the dispatch, sentinel, collect, count,
    join and exit-code parts of `run_tests`.

    `Pool` is the protocol as a state machine: one step is one queue operation, one look at the
    interrupt flag, one finished job, one join or one signal, and steps of different threads
    interleave freely.  `TestRun` holds the same state in mutable fields; its methods are the steps.
 */
module WorkerPool {

  /** number is the position in dispatch order, -1 for a sentinel; the other fields are the Job's. */
  datatype Job = Job(number: int, isBreak: bool, isSkip: bool, returncode: int)

  const SENTINEL := Job(-1, true, false, 0)

  /** Where a worker thread is in its loop. */
  datatype Worker =
    | Waiting                  // blocked in input_queue.get()
    | Took(job: Job)           // about to look at thread_exit
    | Running(job: Job)        // inside run_job_synchronously
    | Reporting(job: Job)      // about to put the job on the output queue
    | Stopped                  // left the loop

  datatype Step =
    | Dispatch | PostSentinel | Collect | Join
    | Take(w: nat) | CheckFlag(w: nat) | Finish(w: nat, rc: int) | Report(w: nat)
    | Interrupt

  datatype Pool = Pool(
    jobs: seq<Job>,            // the jobs run_tests dispatches, in order
    dispatched: nat,
    sentinels: nat,            // sentinels put so far
    input: seq<Job>,
    workers: seq<Worker>,
    output: seq<Job>,
    collected: seq<Job>,       // what the main thread got so far, in order
    joined: nat,
    interrupted: bool,         // thread_exit
    ran: map<int, int>         // history: return codes of the jobs really run
  )

  ghost predicate Fresh(jobs: seq<Job>) {
    forall i :: 0 <= i < |jobs| ==> jobs[i].number == i && !jobs[i].isBreak
  }

  function Init(jobs: seq<Job>, n: nat): Pool {
    Pool(jobs, 0, 0, [], seq(n, _ => Waiting), [], [], 0, false, map[])
  }

  predicate Enabled(s: Pool, step: Step) {
    match step
    case Dispatch => s.dispatched < |s.jobs|
    case PostSentinel => s.dispatched == |s.jobs| && s.sentinels < |s.workers|
    case Collect => s.sentinels == |s.workers| && |s.collected| < |s.jobs| && s.output != []
    case Join =>
      && s.sentinels == |s.workers| && |s.collected| == |s.jobs|
      && s.joined < |s.workers| && s.workers[s.joined].Stopped?
    case Take(w) => w < |s.workers| && s.workers[w].Waiting? && s.input != []
    case CheckFlag(w) => w < |s.workers| && s.workers[w].Took?
    case Finish(w, _) => w < |s.workers| && s.workers[w].Running?
    case Report(w) => w < |s.workers| && s.workers[w].Reporting?
    case Interrupt => !s.interrupted
  }

  function Apply(s: Pool, step: Step): Pool
    requires Enabled(s, step)
  {
    match step
    case Dispatch => s.(input := s.input + [s.jobs[s.dispatched]], dispatched := s.dispatched + 1)
    case PostSentinel => s.(input := s.input + [SENTINEL], sentinels := s.sentinels + 1)
    case Collect => s.(collected := s.collected + [s.output[0]], output := s.output[1..])
    case Join => s.(joined := s.joined + 1)
    case Take(w) =>
      var job := s.input[0];
      s.(input := s.input[1..], workers := s.workers[w := if job.isBreak then Stopped else Took(job)])
    case CheckFlag(w) =>
      var job := s.workers[w].job;
      var next :=
        if s.interrupted then Reporting(job.(isBreak := true))
        else if job.isSkip then Reporting(job)
        else Running(job);
      s.(workers := s.workers[w := next])
    case Finish(w, rc) =>
      var job := s.workers[w].job;
      s.(workers := s.workers[w := Reporting(job.(returncode := rc))], ran := s.ran[job.number := rc])
    case Report(w) =>
      s.(workers := s.workers[w := Waiting], output := s.output + [s.workers[w].job])
    case Interrupt => s.(interrupted := true)
  }

  // ---------------------------------------------------------------------------------------------
  // The invariant
  // ---------------------------------------------------------------------------------------------

  /** How often job number n stands in a queue. */
  ghost function Count(jobs: seq<Job>, n: int): nat {
    if jobs == [] then 0 else (if jobs[0].number == n then 1 else 0) + Count(jobs[1..], n)
  }

  predicate Busy(worker: Worker) {
    !worker.Waiting? && !worker.Stopped?
  }

  ghost function InHand(worker: Worker, n: int): nat {
    if Busy(worker) && worker.job.number == n then 1 else 0
  }

  /** How many workers hold job number n. */
  ghost function Held(workers: seq<Worker>, n: int): nat {
    if workers == [] then 0 else InHand(workers[0], n) + Held(workers[1..], n)
  }

  ghost function BusyCount(workers: seq<Worker>): nat {
    if workers == [] then 0 else (if Busy(workers[0]) then 1 else 0) + BusyCount(workers[1..])
  }

  ghost function StoppedCount(workers: seq<Worker>): nat {
    if workers == [] then 0 else (if workers[0].Stopped? then 1 else 0) + StoppedCount(workers[1..])
  }

  ghost function Sentinels(n: nat): (r: seq<Job>)
    ensures |r| == n && forall i :: 0 <= i < n ==> r[i] == SENTINEL
  {
    seq(n, _ => SENTINEL)
  }

  /** In how many places job number n is. */
  ghost function Places(s: Pool, n: int): nat {
    Count(s.input, n) + Held(s.workers, n) + Count(s.output, n) + Count(s.collected, n)
  }

  /** A dispatched job is in exactly one place; a job not dispatched yet is in none. */
  ghost predicate OnePlaceEach(s: Pool) {
    forall n: nat :: Places(s, n) == if n < s.dispatched then 1 else 0
  }

  /** job is the dispatched job of its number, up to the fields a worker sets. */
  ghost predicate Original(jobs: seq<Job>, job: Job) {
    && 0 <= job.number < |jobs|
    && job == jobs[job.number].(isBreak := job.isBreak, returncode := job.returncode)
  }

  /** What a job on its way back to the main thread says: it was dropped because of the interrupt and not
      run, or it was skipped and not run, or it was run and carries the return code of that run. */
  ghost predicate Reported(jobs: seq<Job>, interrupted: bool, ran: map<int, int>, job: Job) {
    && Original(jobs, job)
    && (job.isBreak ==> interrupted)
    && (job.isBreak || job.isSkip ==> job.number !in ran)
    && (!job.isBreak && !job.isSkip ==> job.number in ran && ran[job.number] == job.returncode)
  }

  ghost predicate AllReported(jobs: seq<Job>, interrupted: bool, ran: map<int, int>, queue: seq<Job>) {
    forall i :: 0 <= i < |queue| ==> Reported(jobs, interrupted, ran, queue[i])
  }

  ghost predicate WorkerInv(jobs: seq<Job>, interrupted: bool, ran: map<int, int>, worker: Worker) {
    match worker
    case Took(job) => Original(jobs, job) && !job.isBreak && job.number !in ran
    case Running(job) => Original(jobs, job) && !job.isBreak && !job.isSkip && job.number !in ran
    case Reporting(job) => Reported(jobs, interrupted, ran, job)
    case _ => true
  }

  /** What the jobs in the workers' hands, on the output queue and in the main thread carry. */
  ghost predicate Contents(s: Pool) {
    && Fresh(s.jobs)
    && (forall w :: 0 <= w < |s.workers| ==> WorkerInv(s.jobs, s.interrupted, s.ran, s.workers[w]))
    && AllReported(s.jobs, s.interrupted, s.ran, s.output)
    && AllReported(s.jobs, s.interrupted, s.ran, s.collected)
  }

  /** The input queue once t jobs have left it and while r sentinels are still in it. */
  ghost predicate Queue(s: Pool, t: nat, r: nat) {
    && t <= s.dispatched <= |s.jobs|
    && (forall n :: n in s.ran ==> 0 <= n < t)
    && s.input == s.jobs[t..s.dispatched] + Sentinels(r)
    && (s.sentinels > 0 ==> s.dispatched == |s.jobs|)
    && r <= s.sentinels
  }

  ghost predicate Tally(s: Pool, t: nat, r: nat) {
    && r + StoppedCount(s.workers) == s.sentinels <= |s.workers|
    && (StoppedCount(s.workers) > 0 ==> t == |s.jobs|)
    && BusyCount(s.workers) + |s.output| + |s.collected| == t
    && s.joined <= |s.workers|
    && (forall i :: 0 <= i < s.joined ==> s.workers[i].Stopped?)
    && (s.joined > 0 ==> s.sentinels == |s.workers| && |s.collected| == |s.jobs|)
  }

  ghost predicate InvAt(s: Pool, t: nat, r: nat) {
    Contents(s) && OnePlaceEach(s) && Queue(s, t, r) && Tally(s, t, r)
  }

  ghost predicate Inv(s: Pool) {
    exists t, r :: InvAt(s, t, r)
  }

  // ---------------------------------------------------------------------------------------------
  // Counting
  // ---------------------------------------------------------------------------------------------

  lemma {:induction false} CountConcat(a: seq<Job>, b: seq<Job>, n: int)
    ensures Count(a + b, n) == Count(a, n) + Count(b, n)
  {
    if a == [] {
      assert a + b == b;
    } else {
      assert (a + b)[1..] == a[1..] + b;
      CountConcat(a[1..], b, n);
    }
  }

  lemma CountAppend(a: seq<Job>, job: Job, n: int)
    ensures Count(a + [job], n) == Count(a, n) + if job.number == n then 1 else 0
  {
    CountConcat(a, [job], n);
  }

  lemma {:induction false} CountMember(a: seq<Job>, i: nat)
    requires i < |a|
    ensures Count(a, a[i].number) > 0
  {
    if i > 0 {
      CountMember(a[1..], i - 1);
    }
  }

  /** What changing one worker does to the counts. */
  lemma {:induction false} UpdateWorker(workers: seq<Worker>, w: nat, next: Worker)
    requires w < |workers|
    ensures StoppedCount(workers[w := next]) + (if workers[w].Stopped? then 1 else 0)
         == StoppedCount(workers) + (if next.Stopped? then 1 else 0)
    ensures BusyCount(workers[w := next]) + (if Busy(workers[w]) then 1 else 0)
         == BusyCount(workers) + (if Busy(next) then 1 else 0)
  {
    if w == 0 {
      assert workers[w := next][1..] == workers[1..];
    } else {
      assert workers[w := next][1..] == workers[1..][w - 1 := next];
      UpdateWorker(workers[1..], w - 1, next);
    }
  }

  lemma {:induction false} UpdateHeld(workers: seq<Worker>, w: nat, next: Worker, n: int)
    requires w < |workers|
    ensures Held(workers[w := next], n) + InHand(workers[w], n) == Held(workers, n) + InHand(next, n)
  {
    if w == 0 {
      assert workers[w := next][1..] == workers[1..];
    } else {
      assert workers[w := next][1..] == workers[1..][w - 1 := next];
      UpdateHeld(workers[1..], w - 1, next, n);
    }
  }

  lemma {:induction false} HeldAtLeast(workers: seq<Worker>, w: nat, n: int)
    requires w < |workers|
    ensures Held(workers, n) >= InHand(workers[w], n)
  {
    if w > 0 {
      HeldAtLeast(workers[1..], w - 1, n);
    }
  }

  lemma {:induction false} WorkersCounted(workers: seq<Worker>)
    ensures BusyCount(workers) + StoppedCount(workers) <= |workers|
    ensures StoppedCount(workers) < |workers| ==> exists w :: 0 <= w < |workers| && !workers[w].Stopped?
    ensures BusyCount(workers) > 0 ==> exists w :: 0 <= w < |workers| && Busy(workers[w])
    ensures StoppedCount(workers) == |workers| ==> forall w :: 0 <= w < |workers| ==> workers[w].Stopped?
    ensures (forall w :: 0 <= w < |workers| ==> workers[w].Stopped?) ==> StoppedCount(workers) == |workers|
  {
    if workers != [] {
      WorkersCounted(workers[1..]);
      assert forall w :: 0 <= w < |workers[1..]| ==> workers[1..][w] == workers[w + 1];
      assert workers == [workers[0]] + workers[1..];
    }
  }

  lemma {:induction false} AllWaiting(workers: seq<Worker>)
    requires forall w :: 0 <= w < |workers| ==> workers[w].Waiting?
    ensures StoppedCount(workers) == 0 && BusyCount(workers) == 0
    ensures forall n: int :: Held(workers, n) == 0
  {
    if workers != [] {
      AllWaiting(workers[1..]);
    }
  }

  // ---------------------------------------------------------------------------------------------
  // Every step keeps the invariant
  // ---------------------------------------------------------------------------------------------

  lemma InitInv(jobs: seq<Job>, n: nat)
    requires Fresh(jobs)
    ensures Inv(Init(jobs, n))
  {
    AllWaiting(Init(jobs, n).workers);
    assert InvAt(Init(jobs, n), 0, 0);
  }

  /** No step moves a job to two places, loses one, or brings in one that was not dispatched. */
  lemma PlacesKept(s: Pool, step: Step, t: nat, r: nat)
    requires InvAt(s, t, r) && Enabled(s, step)
    ensures OnePlaceEach(Apply(s, step))
  {
    forall n: nat ensures Places(Apply(s, step), n) == if n < Apply(s, step).dispatched then 1 else 0 {
      assert Places(s, n) == if n < s.dispatched then 1 else 0;
      match step
      case Dispatch => CountAppend(s.input, s.jobs[s.dispatched], n);
      case PostSentinel => CountAppend(s.input, SENTINEL, n);
      case Collect => CountAppend(s.collected, s.output[0], n);
      case Join =>
      case Interrupt =>
      case _ => WorkerKeepsPlace(s, step, t, r, n);
    }
  }

  lemma WorkerKeepsPlace(s: Pool, step: Step, t: nat, r: nat, n: nat)
    requires Fresh(s.jobs) && Queue(s, t, r) && Enabled(s, step)
    requires step.Take? || step.CheckFlag? || step.Finish? || step.Report?
    ensures Places(Apply(s, step), n) == Places(s, n)
  {
    var s' := Apply(s, step);
    UpdateHeld(s.workers, step.w, s'.workers[step.w], n);
    if step.Take? {
      QueueHead(s, t, r);
    } else if step.Report? {
      CountAppend(s.output, s.workers[step.w].job, n);
    }
  }

  lemma QueueHead(s: Pool, t: nat, r: nat)
    requires Fresh(s.jobs) && Queue(s, t, r) && s.input != []
    ensures if t < s.dispatched then s.input[0] == s.jobs[t] && !s.input[0].isBreak
            else r > 0 && s.input[0] == SENTINEL
  {
  }

  lemma ContentsKept(s: Pool, step: Step, t: nat, r: nat)
    requires InvAt(s, t, r) && Enabled(s, step)
    ensures Contents(Apply(s, step))
  {
    var s' := Apply(s, step);
    match step
    case Take(w) => QueueHead(s, t, r);
    case CheckFlag(w) => assert WorkerInv(s.jobs, s.interrupted, s.ran, s.workers[w]);
    case Finish(w, rc) => FinishKeepsContents(s, w, rc);
    case Report(w) => assert WorkerInv(s.jobs, s.interrupted, s.ran, s.workers[w]);
    case _ =>
  }

  /** Recording a return code spoils no other report: the job is nowhere else. */
  lemma FinishKeepsContents(s: Pool, w: nat, rc: int)
    requires Contents(s) && OnePlaceEach(s) && Enabled(s, Finish(w, rc))
    ensures Contents(Apply(s, Finish(w, rc)))
  {
    var s' := Apply(s, Finish(w, rc));
    var n := s.workers[w].job.number;
    assert WorkerInv(s.jobs, s.interrupted, s.ran, s.workers[w]);
    assert Places(s, n) <= 1;
    HeldAtLeast(s.workers, w, n);
    forall v | 0 <= v < |s.workers| && v != w
      ensures WorkerInv(s'.jobs, s'.interrupted, s'.ran, s.workers[v])
    {
      UpdateHeld(s.workers, w, Waiting, n);
      HeldAtLeast(s.workers[w := Waiting], v, n);
      assert WorkerInv(s.jobs, s.interrupted, s.ran, s.workers[v]);
    }
    forall i | 0 <= i < |s.output| ensures Reported(s'.jobs, s'.interrupted, s'.ran, s.output[i]) {
      CountMember(s.output, i);
    }
    forall i | 0 <= i < |s.collected| ensures Reported(s'.jobs, s'.interrupted, s'.ran, s.collected[i]) {
      CountMember(s.collected, i);
    }
  }

  /** The input queue stays first in, first out: the rest of the jobs, then the sentinels. */
  lemma QueueKept(s: Pool, step: Step, t: nat, r: nat) returns (t': nat, r': nat)
    requires InvAt(s, t, r) && Enabled(s, step)
    ensures Queue(Apply(s, step), t', r') && Tally(Apply(s, step), t', r')
  {
    match step
    case Take(w) => t', r' := TakeKeepsQueue(s, w, t, r);
    case PostSentinel => t', r' := t, r + 1;
    case _ =>
      t', r' := t, r;
      OtherStepsKeepQueue(s, step, t, r);
  }

  lemma TakeKeepsQueue(s: Pool, w: nat, t: nat, r: nat) returns (t': nat, r': nat)
    requires Fresh(s.jobs) && Queue(s, t, r) && Tally(s, t, r) && Enabled(s, Take(w))
    ensures Queue(Apply(s, Take(w)), t', r') && Tally(Apply(s, Take(w)), t', r')
  {
    var s' := Apply(s, Take(w));
    QueueHead(s, t, r);
    UpdateWorker(s.workers, w, s'.workers[w]);
    if t < s.dispatched {
      t', r' := t + 1, r;
      assert s.input[1..] == s.jobs[t + 1..s.dispatched] + Sentinels(r);
      assert r == s.sentinels - StoppedCount(s.workers);
    } else {
      t', r' := t, r - 1;
      assert s.input[1..] == s.jobs[t..s.dispatched] + Sentinels(r - 1);
    }
  }

  lemma OtherStepsKeepQueue(s: Pool, step: Step, t: nat, r: nat)
    requires InvAt(s, t, r) && Enabled(s, step) && !step.Take? && !step.PostSentinel?
    ensures Queue(Apply(s, step), t, r) && Tally(Apply(s, step), t, r)
  {
    match step
    case Dispatch => DispatchKeepsQueue(s, t, r);
    case CheckFlag(w) => WorkerKeepsQueue(s, step, t, r);
    case Finish(w, rc) =>
      HeldHasLeftQueue(s, w, t, r);
      WorkerKeepsQueue(s, step, t, r);
    case Report(w) => WorkerKeepsQueue(s, step, t, r);
    case _ =>
      hide Contents, OnePlaceEach;
  }

  lemma DispatchKeepsQueue(s: Pool, t: nat, r: nat)
    requires Queue(s, t, r) && Tally(s, t, r) && Enabled(s, Dispatch)
    ensures Queue(Apply(s, Dispatch), t, r) && Tally(Apply(s, Dispatch), t, r)
  {
    assert r == 0 && Sentinels(r) == [];
    assert s.jobs[t..s.dispatched] + [s.jobs[s.dispatched]] == s.jobs[t..s.dispatched + 1];
    assert s.jobs[t..s.dispatched + 1] + Sentinels(r) == s.jobs[t..s.dispatched + 1];
  }

  lemma WorkerKeepsQueue(s: Pool, step: Step, t: nat, r: nat)
    requires Queue(s, t, r) && Tally(s, t, r) && Enabled(s, step)
    requires step.CheckFlag? || step.Finish? || step.Report?
    requires step.Finish? ==> 0 <= s.workers[step.w].job.number < t
    ensures Queue(Apply(s, step), t, r) && Tally(Apply(s, step), t, r)
  {
    UpdateWorker(s.workers, step.w, Apply(s, step).workers[step.w]);
  }

  /** A job in a worker's hands is one of those that have left the input queue. */
  lemma HeldHasLeftQueue(s: Pool, w: nat, t: nat, r: nat)
    requires InvAt(s, t, r) && w < |s.workers| && s.workers[w].Running?
    ensures 0 <= s.workers[w].job.number < t
  {
    var n := s.workers[w].job.number;
    assert WorkerInv(s.jobs, s.interrupted, s.ran, s.workers[w]);
    HeldAtLeast(s.workers, w, n);
    assert Places(s, n) == if n < s.dispatched then 1 else 0;
    if n >= t {
      assert s.input[n - t] == s.jobs[n];
      CountMember(s.input, n - t);
    }
  }

  /** Every step of every thread, and the signal at any time, keeps the invariant. */
  lemma StepKeeps(s: Pool, step: Step)
    requires Inv(s) && Enabled(s, step)
    ensures Inv(Apply(s, step))
  {
    var t, r :| InvAt(s, t, r);
    ContentsKept(s, step, t, r);
    PlacesKept(s, step, t, r);
    var t', r' := QueueKept(s, step, t, r);
    assert InvAt(Apply(s, step), t', r');
  }

  // ---------------------------------------------------------------------------------------------
  // No deadlock, and every run ends
  // ---------------------------------------------------------------------------------------------

  ghost predicate Final(s: Pool) {
    s.sentinels == |s.workers| && |s.collected| == |s.jobs| && s.joined == |s.workers|
  }

  /** While the main thread is not through, some thread can move: no get and no join waits for ever. */
  lemma NoDeadlock(s: Pool) returns (step: Step)
    requires Inv(s) && |s.workers| > 0 && !Final(s)
    ensures Enabled(s, step) && step != Interrupt
  {
    var t, r :| InvAt(s, t, r);
    WorkersCounted(s.workers);
    if s.dispatched < |s.jobs| {
      step := Dispatch;
    } else if s.sentinels < |s.workers| {
      step := PostSentinel;
    } else if |s.collected| < |s.jobs| && s.output != [] {
      step := Collect;
    } else if |s.collected| == |s.jobs| && s.workers[s.joined].Stopped? {
      step := Join;
    } else if BusyCount(s.workers) > 0 {
      var w :| 0 <= w < |s.workers| && Busy(s.workers[w]);
      match s.workers[w] {
        case Took(_) => step := CheckFlag(w);
        case Running(_) => step := Finish(w, 0);
        case Reporting(_) => step := Report(w);
      }
    } else {
      assert StoppedCount(s.workers) < |s.workers|;
      var w :| 0 <= w < |s.workers| && !s.workers[w].Stopped?;
      NotBusyMeansWaiting(s.workers, w);
      step := Take(w);
    }
  }

  lemma {:induction false} NotBusyMeansWaiting(workers: seq<Worker>, w: nat)
    requires w < |workers| && BusyCount(workers) == 0 && !workers[w].Stopped?
    ensures workers[w].Waiting?
  {
    if w > 0 {
      NotBusyMeansWaiting(workers[1..], w - 1);
    }
  }

  ghost function InputWork(queue: seq<Job>): nat {
    if queue == [] then 0 else (if queue[0].isBreak then 1 else 5) + InputWork(queue[1..])
  }

  ghost function Work(worker: Worker): nat {
    match worker
    case Took(_) => 4
    case Running(_) => 3
    case Reporting(_) => 2
    case _ => 0
  }

  ghost function WorkersWork(workers: seq<Worker>): nat {
    if workers == [] then 0 else Work(workers[0]) + WorkersWork(workers[1..])
  }

  lemma {:induction false} InputWorkAppend(queue: seq<Job>, job: Job)
    ensures InputWork(queue + [job]) == InputWork(queue) + if job.isBreak then 1 else 5
  {
    if queue == [] {
      assert queue + [job] == [job];
    } else {
      assert (queue + [job])[1..] == queue[1..] + [job];
      InputWorkAppend(queue[1..], job);
    }
  }

  lemma {:induction false} WorkersWorkUpdate(workers: seq<Worker>, w: nat, next: Worker)
    requires w < |workers|
    ensures WorkersWork(workers[w := next]) + Work(workers[w]) == WorkersWork(workers) + Work(next)
  {
    if w == 0 {
      assert workers[w := next][1..] == workers[1..];
    } else {
      assert workers[w := next][1..] == workers[1..][w - 1 := next];
      WorkersWorkUpdate(workers[1..], w - 1, next);
    }
  }

  /** The steps still to come. */
  ghost function Measure(s: Pool): int {
    6 * (|s.jobs| - s.dispatched) + InputWork(s.input) + WorkersWork(s.workers) + |s.output|
    + 2 * (|s.workers| - s.sentinels) + (|s.workers| - s.joined) + if s.interrupted then 0 else 1
  }

  lemma MeasureDecreases(s: Pool, step: Step)
    requires Contents(s) && Enabled(s, step)
    ensures Measure(Apply(s, step)) < Measure(s)
  {
    var s' := Apply(s, step);
    match step
    case Dispatch => InputWorkAppend(s.input, s.jobs[s.dispatched]);
    case PostSentinel => InputWorkAppend(s.input, SENTINEL);
    case Take(w) => WorkersWorkUpdate(s.workers, w, s'.workers[w]);
    case CheckFlag(w) => WorkersWorkUpdate(s.workers, w, s'.workers[w]);
    case Finish(w, _) => WorkersWorkUpdate(s.workers, w, s'.workers[w]);
    case Report(w) => WorkersWorkUpdate(s.workers, w, s'.workers[w]);
    case _ =>
  }

  lemma MeasureNotNegative(s: Pool)
    requires Inv(s)
    ensures 0 <= Measure(s)
  {
    var t, r :| InvAt(s, t, r);
  }

  // ---------------------------------------------------------------------------------------------
  // Runs
  // ---------------------------------------------------------------------------------------------

  ghost predicate Next(s: Pool, s': Pool) {
    exists step :: Enabled(s, step) && s' == Apply(s, step)
  }

  ghost predicate IsRun(jobs: seq<Job>, n: nat, run: seq<Pool>) {
    && |run| > 0 && run[0] == Init(jobs, n)
    && forall i :: 0 <= i < |run| - 1 ==> Next(run[i], run[i + 1])
  }

  lemma NextKeeps(s: Pool, s': Pool)
    requires Inv(s) && Next(s, s')
    ensures Inv(s') && s'.jobs == s.jobs && |s'.workers| == |s.workers|
    ensures 0 <= Measure(s') < Measure(s)
  {
    var step :| Enabled(s, step) && s' == Apply(s, step);
    hide Inv, Enabled, Apply, Measure;
    StepKeeps(s, step);
    StepKeepsJobs(s, step);
    InvContents(s);
    MeasureDecreases(s, step);
    MeasureNotNegative(s');
  }

  lemma StepKeepsJobs(s: Pool, step: Step)
    requires Enabled(s, step)
    ensures Apply(s, step).jobs == s.jobs && |Apply(s, step).workers| == |s.workers|
  {
  }

  lemma InvContents(s: Pool)
    requires Inv(s)
    ensures Contents(s)
  {
    var t, r :| InvAt(s, t, r);
  }

  lemma {:induction false} RunInv(jobs: seq<Job>, n: nat, run: seq<Pool>, i: nat)
    requires Fresh(jobs) && IsRun(jobs, n, run) && i < |run|
    ensures Inv(run[i]) && run[i].jobs == jobs && |run[i].workers| == n
    ensures 0 <= Measure(run[i]) <= 6 * |jobs| + 3 * n + 1 - i
  {
    if i == 0 {
      InitInv(jobs, n);
      InitMeasure(run[0].workers);
    } else {
      RunInv(jobs, n, run, i - 1);
      assert Next(run[i - 1], run[i - 1 + 1]);
      NextKeeps(run[i - 1], run[i]);
    }
  }

  lemma {:induction false} InitMeasure(workers: seq<Worker>)
    requires forall w :: 0 <= w < |workers| ==> workers[w].Waiting?
    ensures WorkersWork(workers) == 0
  {
    if workers != [] {
      InitMeasure(workers[1..]);
    }
  }

  /** Every run ends: none is longer than 6 steps a job and 3 a worker, and the signal. */
  lemma RunsEnd(jobs: seq<Job>, n: nat, run: seq<Pool>)
    requires Fresh(jobs) && IsRun(jobs, n, run)
    ensures |run| <= 6 * |jobs| + 3 * n + 2
  {
    RunInv(jobs, n, run, |run| - 1);
  }

  /** In every state of every run a dispatched job is in exactly one place, what comes back is what was
      sent, and no sentinel is on the output queue or collected. */
  lemma RunsAreSafe(jobs: seq<Job>, n: nat, run: seq<Pool>, i: nat)
    requires Fresh(jobs) && IsRun(jobs, n, run) && i < |run|
    ensures OnePlaceEach(run[i])
    ensures forall k :: 0 <= k < |run[i].output| ==> Original(jobs, run[i].output[k])
    ensures forall k :: 0 <= k < |run[i].collected| ==> Original(jobs, run[i].collected[k])
    ensures !run[i].interrupted ==> forall k :: 0 <= k < |run[i].collected| ==> !run[i].collected[k].isBreak
  {
    RunInv(jobs, n, run, i);
  }

  /** No job is run twice: what a worker is running has not been run before. */
  lemma JobsRunOnce(jobs: seq<Job>, n: nat, run: seq<Pool>, i: nat, w: nat, rc: int)
    requires Fresh(jobs) && IsRun(jobs, n, run) && i < |run| && Enabled(run[i], Finish(w, rc))
    ensures var number := run[i].workers[w].job.number;
            && 0 <= number < |jobs| && number !in run[i].ran && !jobs[number].isSkip
            && Held(run[i].workers, number) == 1 && Count(run[i].input, number) == 0
  {
    RunInv(jobs, n, run, i);
    var s := run[i];
    var number := s.workers[w].job.number;
    assert WorkerInv(s.jobs, s.interrupted, s.ran, s.workers[w]);
    HeldAtLeast(s.workers, w, number);
    assert Places(s, number) == if number < s.dispatched then 1 else 0;
  }

  /** No worker has got past the look at the flag with job number k. */
  ghost predicate NotReached(s: Pool, k: nat) {
    && k !in s.ran && Count(s.output, k) == 0 && Count(s.collected, k) == 0
    && forall w :: 0 <= w < |s.workers| && Busy(s.workers[w]) && s.workers[w].job.number == k ==> s.workers[w].Took?
  }

  ghost predicate MarkedIfNumber(queue: seq<Job>, k: nat) {
    forall i :: 0 <= i < |queue| && queue[i].number == k ==> queue[i].isBreak
  }

  /** Job number k is not run, and wherever it is past the look at the flag it is marked as dropped. */
  ghost predicate Dropped(s: Pool, k: nat) {
    && k !in s.ran && MarkedIfNumber(s.output, k) && MarkedIfNumber(s.collected, k)
    && (forall w :: 0 <= w < |s.workers| && s.workers[w].Running? ==> s.workers[w].job.number != k)
    && (forall w :: 0 <= w < |s.workers| && s.workers[w].Reporting? && s.workers[w].job.number == k ==> s.workers[w].job.isBreak)
  }

  lemma NotReachedIsDropped(s: Pool, k: nat)
    requires NotReached(s, k)
    ensures Dropped(s, k)
  {
    forall i | 0 <= i < |s.output| ensures s.output[i].number != k {
      CountMember(s.output, i);
    }
    forall i | 0 <= i < |s.collected| ensures s.collected[i].number != k {
      CountMember(s.collected, i);
    }
  }

  lemma StepKeepsDropped(s: Pool, s': Pool, k: nat)
    requires Next(s, s') && s.interrupted && Dropped(s, k)
    ensures s'.interrupted && Dropped(s', k)
  {
    var step :| Enabled(s, step) && s' == Apply(s, step);
    match step
    case Collect =>
      assert forall i :: 0 <= i < |s'.output| ==> s'.output[i] == s.output[i + 1];
    case _ =>
  }

  /** After the signal nothing new is started: a job that no worker had looked the flag up for by then is
      never run, and it comes back, if it comes back, marked as dropped. */
  lemma {:induction false} InterruptDropsTheRest(jobs: seq<Job>, n: nat, run: seq<Pool>, i: nat, j: nat, k: nat)
    requires IsRun(jobs, n, run) && i <= j < |run| && run[i].interrupted && NotReached(run[i], k)
    ensures run[j].interrupted && k !in run[j].ran && MarkedIfNumber(run[j].collected, k)
    ensures Dropped(run[j], k)
    decreases j
  {
    if j == i {
      NotReachedIsDropped(run[i], k);
    } else {
      InterruptDropsTheRest(jobs, n, run, i, j - 1, k);
      assert Next(run[j - 1], run[j - 1 + 1]);
      StepKeepsDropped(run[j - 1], run[j], k);
    }
  }

  /** Where a run that can go no further has got to. */
  ghost predicate Complete(s: Pool) {
    && s.input == [] && s.output == []
    && (forall w :: 0 <= w < |s.workers| ==> s.workers[w].Stopped?)
    && |s.collected| == |s.jobs|
    && (forall n :: 0 <= n < |s.jobs| ==> Count(s.collected, n) == 1)
    && AllReported(s.jobs, s.interrupted, s.ran, s.collected)
  }

  lemma FinalIsComplete(s: Pool)
    requires Inv(s) && Final(s)
    ensures Complete(s)
  {
    var t, r :| InvAt(s, t, r);
    WorkersCounted(s.workers);
    AllStoppedHoldNothing(s.workers);
    assert s.input == [];
    forall n | 0 <= n < |s.jobs| ensures Count(s.collected, n) == 1 {
      assert Places(s, n) == if n < s.dispatched then 1 else 0;
    }
  }

  lemma {:induction false} AllStoppedHoldNothing(workers: seq<Worker>)
    requires forall w :: 0 <= w < |workers| ==> workers[w].Stopped?
    ensures forall n: int :: Held(workers, n) == 0
  {
    if workers != [] {
      AllStoppedHoldNothing(workers[1..]);
    }
  }

  /** Nothing but the signal can happen. */
  ghost predicate Stuck(s: Pool) {
    forall step :: Enabled(s, step) ==> step == Interrupt
  }

  /** A run stops moving only when every job is collected once, both queues are empty and every worker
      has left its loop, whenever the signal came. */
  lemma StuckRunsAreComplete(jobs: seq<Job>, n: nat, run: seq<Pool>)
    requires Fresh(jobs) && n > 0 && IsRun(jobs, n, run)
    requires Stuck(run[|run| - 1])
    ensures Final(run[|run| - 1]) && Complete(run[|run| - 1])
  {
    var s := run[|run| - 1];
    RunInv(jobs, n, run, |run| - 1);
    if !Final(s) {
      var step := NoDeadlock(s);
      assert false;
    }
    FinalIsComplete(s);
  }

  // ---------------------------------------------------------------------------------------------
  // The verdict
  // ---------------------------------------------------------------------------------------------

  datatype Outcome = Passed | Failed | ValgrindErrors | Crashed | Skipped | Interrupted

  /** How the main thread classifies a collected job. */
  function OutcomeOf(job: Job): Outcome {
    if job.isBreak then Interrupted
    else if job.isSkip then Skipped
    else if job.returncode == 0 then Passed
    else if job.returncode == 1 then Failed
    else if job.returncode == 2 then ValgrindErrors
    else Crashed
  }

  function Tallied(jobs: seq<Job>, o: Outcome): nat {
    if jobs == [] then 0
    else Tallied(jobs[..|jobs| - 1], o) + if OutcomeOf(jobs[|jobs| - 1]) == o then 1 else 0
  }

  lemma TallyAppend(jobs: seq<Job>, job: Job, o: Outcome)
    ensures Tallied(jobs + [job], o) == Tallied(jobs, o) + if OutcomeOf(job) == o then 1 else 0
  {
    assert (jobs + [job])[..|jobs|] == jobs;
  }

  lemma TallyAppendAll(jobs: seq<Job>, job: Job)
    ensures forall o :: Tallied(jobs + [job], o) == Tallied(jobs, o) + if OutcomeOf(job) == o then 1 else 0
  {
    forall o ensures Tallied(jobs + [job], o) == Tallied(jobs, o) + if OutcomeOf(job) == o then 1 else 0 {
      TallyAppend(jobs, job, o);
    }
  }

  lemma {:induction false} OutcomesAddUp(jobs: seq<Job>)
    ensures Tallied(jobs, Passed) + Tallied(jobs, Failed) + Tallied(jobs, ValgrindErrors)
            + Tallied(jobs, Crashed) + Tallied(jobs, Skipped) + Tallied(jobs, Interrupted) == |jobs|
  {
    if jobs != [] {
      OutcomesAddUp(jobs[..|jobs| - 1]);
    }
  }

  ghost predicate Good(job: Job) {
    OutcomeOf(job) == Passed || OutcomeOf(job) == Skipped
  }

  lemma {:induction false} AllGood(jobs: seq<Job>)
    ensures Tallied(jobs, Passed) + Tallied(jobs, Skipped) <= |jobs|
    ensures Tallied(jobs, Passed) + Tallied(jobs, Skipped) == |jobs|
            <==> forall i :: 0 <= i < |jobs| ==> Good(jobs[i])
  {
    if jobs != [] {
      var n := |jobs| - 1;
      AllGood(jobs[..n]);
      assert forall i :: 0 <= i < n ==> jobs[..n][i] == jobs[i];
    }
  }

  lemma {:induction false} CountFindsJob(jobs: seq<Job>, n: int) returns (i: nat)
    requires Count(jobs, n) > 0
    ensures i < |jobs| && jobs[i].number == n
  {
    if jobs[0].number == n {
      i := 0;
    } else {
      i := CountFindsJob(jobs[1..], n);
      i := i + 1;
    }
  }

  /** Job number n came back, not dropped, and it was skipped or really run with return code 0. */
  ghost predicate Succeeded(s: Pool, n: nat)
    requires n < |s.jobs|
  {
    exists i :: 0 <= i < |s.collected| && s.collected[i].number == n && !s.collected[i].isBreak
                && (s.jobs[n].isSkip || (n in s.ran && s.ran[n] == 0))
  }

  lemma VerdictMeaning(s: Pool)
    requires Complete(s)
    ensures Tallied(s.collected, Passed) + Tallied(s.collected, Skipped) == |s.jobs|
            <==> forall n :: 0 <= n < |s.jobs| ==> Succeeded(s, n)
  {
    AllGood(s.collected);
    if forall i :: 0 <= i < |s.collected| ==> Good(s.collected[i]) {
      forall n | 0 <= n < |s.jobs| ensures Succeeded(s, n) {
        var i := CountFindsJob(s.collected, n);
        assert Good(s.collected[i]);
      }
    }
    if forall n :: 0 <= n < |s.jobs| ==> Succeeded(s, n) {
      forall i | 0 <= i < |s.collected| ensures Good(s.collected[i]) {
        var n := s.collected[i].number;
        assert Succeeded(s, n);
        var k :| 0 <= k < |s.collected| && s.collected[k].number == n && !s.collected[k].isBreak
                 && (s.jobs[n].isSkip || (n in s.ran && s.ran[n] == 0));
        assert Count(s.collected, n) == 1;
        CountIsOne(s.collected, i, k);
      }
    }
  }

  lemma {:induction false} CountIsOne(jobs: seq<Job>, i: nat, k: nat)
    requires i < |jobs| && k < |jobs| && jobs[i].number == jobs[k].number && Count(jobs, jobs[i].number) == 1
    ensures i == k
  {
    if i > 0 && k > 0 {
      CountMember(jobs[1..], i - 1);
      CountIsOne(jobs[1..], i - 1, k - 1);
    } else if i > 0 {
      CountMember(jobs[1..], i - 1);
    } else if k > 0 {
      CountMember(jobs[1..], k - 1);
    }
  }

  // ---------------------------------------------------------------------------------------------
  // The verdict in terms of the steps
  // ---------------------------------------------------------------------------------------------

  /** run is the run that takes these steps. */
  ghost predicate IsTrace(jobs: seq<Job>, n: nat, steps: seq<Step>, run: seq<Pool>) {
    && |run| == |steps| + 1 && run[0] == Init(jobs, n)
    && forall i :: 0 <= i < |steps| ==> Enabled(run[i], steps[i]) && run[i + 1] == Apply(run[i], steps[i])
  }

  lemma TraceIsRun(jobs: seq<Job>, n: nat, steps: seq<Step>, run: seq<Pool>)
    requires IsTrace(jobs, n, steps, run)
    ensures IsRun(jobs, n, run)
  {
    forall i | 0 <= i < |run| - 1 ensures Next(run[i], run[i + 1]) {
      assert Enabled(run[i], steps[i]);
    }
  }

  lemma TraceAppend(jobs: seq<Job>, n: nat, steps: seq<Step>, run: seq<Pool>, step: Step)
    requires IsTrace(jobs, n, steps, run) && Enabled(run[|steps|], step)
    ensures IsTrace(jobs, n, steps + [step], run + [Apply(run[|steps|], step)])
  {
  }

  /** Step i is the end of the process of job number k, with return code rc. */
  ghost predicate Ends(steps: seq<Step>, run: seq<Pool>, i: nat, k: int, rc: int)
    requires |run| == |steps| + 1
  {
    && i < |steps| && steps[i].Finish? && steps[i].rc == rc
    && steps[i].w < |run[i].workers| && run[i].workers[steps[i].w].Running?
    && run[i].workers[steps[i].w].job.number == k
  }

  /** The process of job number k has ended with return code rc. */
  ghost predicate EndedWith(steps: seq<Step>, run: seq<Pool>, k: int, rc: int)
    requires |run| == |steps| + 1
  {
    exists i: nat :: Ends(steps, run, i, k, rc)
  }

  lemma EndsAppend(steps: seq<Step>, run: seq<Pool>, i: nat, k: int, rc: int)
    requires |run| == |steps| + 1 && |steps| > 0
    ensures var n := |steps| - 1;
            Ends(steps, run, i, k, rc)
            <==> if i == n then Ends(steps, run, n, k, rc) else Ends(steps[..n], run[..n + 1], i, k, rc)
  {
  }

  /** The history of return codes is what the steps say, and no process ends twice. */
  lemma {:induction false} RanIsEnded(jobs: seq<Job>, n: nat, steps: seq<Step>, run: seq<Pool>, k: int)
    requires Fresh(jobs) && IsTrace(jobs, n, steps, run)
    ensures var ran := run[|steps|].ran;
            forall i: nat, rc :: Ends(steps, run, i, k, rc) ==> k in ran && ran[k] == rc
    ensures forall i: nat, j: nat, rc, rd :: Ends(steps, run, i, k, rc) && Ends(steps, run, j, k, rd) ==> i == j
    ensures k in run[|steps|].ran ==> EndedWith(steps, run, k, run[|steps|].ran[k])
    decreases |steps|
  {
    if steps != [] {
      var m := |steps| - 1;
      var before, runBefore := steps[..m], run[..m + 1];
      RanIsEnded(jobs, n, before, runBefore, k);
      assert Enabled(run[m], steps[m]) && run[m + 1] == Apply(run[m], steps[m]);
      TraceIsRun(jobs, n, steps, run);
      forall i: nat, rc ensures
        Ends(steps, run, i, k, rc) <==> if i == m then Ends(steps, run, m, k, rc) else Ends(before, runBefore, i, k, rc)
      {
        EndsAppend(steps, run, i, k, rc);
      }
      if steps[m].Finish? {
        JobsRunOnce(jobs, n, run, m, steps[m].w, steps[m].rc);
      }
      if k in run[m + 1].ran {
        var rc := run[m + 1].ran[k];
        if steps[m].Finish? && run[m].workers[steps[m].w].job.number == k {
          assert Ends(steps, run, m, k, rc);
        } else {
          assert k in run[m].ran && run[m].ran[k] == rc;
          var i: nat :| Ends(before, runBefore, i, k, rc);
          assert Ends(steps, run, i, k, rc);
        }
      }
    }
  }

  /** What the main thread gets back for a job that was neither dropped nor skipped carries the return code
      its process has ended with, which has happened in one step of the run and only in that. */
  lemma CollectedHasEnded(jobs: seq<Job>, n: nat, steps: seq<Step>, run: seq<Pool>, c: nat)
    requires Fresh(jobs) && IsTrace(jobs, n, steps, run) && c < |run[|steps|].collected|
    requires !run[|steps|].collected[c].isBreak && !run[|steps|].collected[c].isSkip
    ensures var job := run[|steps|].collected[c];
            && EndedWith(steps, run, job.number, job.returncode)
            && forall i: nat, j: nat, rc, rd ::
                 Ends(steps, run, i, job.number, rc) && Ends(steps, run, j, job.number, rd) ==> i == j && rc == job.returncode
  {
    var s := run[|steps|];
    TraceIsRun(jobs, n, steps, run);
    RunInv(jobs, n, run, |steps|);
    InvContents(s);
    assert Reported(s.jobs, s.interrupted, s.ran, s.collected[c]);
    RanIsEnded(jobs, n, steps, run, s.collected[c].number);
  }

  /** Job number k came back marked as dropped. */
  ghost predicate CameBackDropped(s: Pool, k: int) {
    exists c :: 0 <= c < |s.collected| && s.collected[c].number == k && s.collected[c].isBreak
  }

  /** The return codes that count as a crash. */
  ghost predicate Crashes(steps: seq<Step>, run: seq<Pool>, k: int)
    requires |run| == |steps| + 1
  {
    exists rc :: rc != 0 && rc != 1 && rc != 2 && EndedWith(steps, run, k, rc)
  }

  /** What became of job number k. */
  ghost predicate Became(steps: seq<Step>, run: seq<Pool>, k: nat, o: Outcome)
    requires |run| == |steps| + 1
  {
    var s := run[|steps|];
    match o
    case Passed => EndedWith(steps, run, k, 0)
    case Failed => EndedWith(steps, run, k, 1)
    case ValgrindErrors => EndedWith(steps, run, k, 2)
    case Crashed => Crashes(steps, run, k)
    case Skipped => k < |s.jobs| && s.jobs[k].isSkip && !CameBackDropped(s, k)
    case Interrupted => CameBackDropped(s, k)
  }

  /** The numbers of the jobs with an outcome. */
  ghost function NumbersOf(jobs: seq<Job>, o: Outcome): set<int> {
    set i | 0 <= i < |jobs| && OutcomeOf(jobs[i]) == o :: jobs[i].number
  }

  ghost predicate DifferentNumbers(jobs: seq<Job>) {
    forall i, j :: 0 <= i < j < |jobs| ==> jobs[i].number != jobs[j].number
  }

  lemma {:induction false} TalliedIsNumber(jobs: seq<Job>, o: Outcome)
    requires DifferentNumbers(jobs)
    ensures |NumbersOf(jobs, o)| == Tallied(jobs, o)
  {
    if jobs == [] {
      assert NumbersOf(jobs, o) == {};
    } else {
      var m := |jobs| - 1;
      var front, last := jobs[..m], jobs[m];
      TalliedIsNumber(front, o);
      NumbersAppend(front, last, o);
      assert jobs == front + [last];
    }
  }

  lemma NumbersAppend(front: seq<Job>, last: Job, o: Outcome)
    requires DifferentNumbers(front + [last])
    ensures last.number !in NumbersOf(front, o)
    ensures NumbersOf(front + [last], o) == NumbersOf(front, o) + if OutcomeOf(last) == o then {last.number} else {}
  {
    var all := front + [last];
    assert all[|front|] == last;
    forall i | 0 <= i < |front| ensures all[i] == front[i] && front[i].number != last.number {
      assert all[i].number != all[|front|].number;
    }
    forall x ensures x in NumbersOf(all, o) <==> x in NumbersOf(front, o) || (OutcomeOf(last) == o && x == last.number) {
      if x in NumbersOf(front, o) {
        var i :| 0 <= i < |front| && OutcomeOf(front[i]) == o && front[i].number == x;
        assert all[i] == front[i];
      }
      if OutcomeOf(last) == o && x == last.number {
        assert OutcomeOf(all[|front|]) == o;
      }
    }
  }

  lemma CompleteHasDifferentNumbers(s: Pool)
    requires Complete(s)
    ensures DifferentNumbers(s.collected)
  {
    forall i, j | 0 <= i < j < |s.collected| ensures s.collected[i].number != s.collected[j].number {
      if s.collected[i].number == s.collected[j].number {
        assert Count(s.collected, s.collected[i].number) == 1;
        CountIsOne(s.collected, i, j);
      }
    }
  }

  /** A collected job has the outcome that its number has. */
  lemma OutcomeIsWhatBecame(jobs: seq<Job>, n: nat, steps: seq<Step>, run: seq<Pool>, c: nat, o: Outcome)
    requires Fresh(jobs) && IsTrace(jobs, n, steps, run) && Complete(run[|steps|]) && c < |run[|steps|].collected|
    ensures var job := run[|steps|].collected[c];
            job.number >= 0 && (OutcomeOf(job) == o <==> Became(steps, run, job.number, o))
  {
    var s := run[|steps|];
    var job := s.collected[c];
    var k := job.number;
    CompleteHasDifferentNumbers(s);
    TraceIsRun(jobs, n, steps, run);
    RunInv(jobs, n, run, |steps|);
    assert Reported(s.jobs, s.interrupted, s.ran, job);
    RanIsEnded(jobs, n, steps, run, k);
    assert CameBackDropped(s, k) <==> job.isBreak;
    assert job.isSkip == s.jobs[k].isSkip;
    if !job.isBreak && !job.isSkip {
      assert EndedWith(steps, run, k, job.returncode);
      assert forall rc :: EndedWith(steps, run, k, rc) ==> rc == job.returncode;
    } else {
      assert forall rc :: !EndedWith(steps, run, k, rc);
    }
  }

  /** The jobs that became o. */
  ghost function JobsThatBecame(steps: seq<Step>, run: seq<Pool>, o: Outcome): set<int>
    requires |run| == |steps| + 1
  {
    set k | 0 <= k < |run[|steps|].jobs| && Became(steps, run, k, o)
  }

  /** At the end the counters are the numbers of jobs whose processes have ended with 0, with 1, with 2 and
      with anything else, of the jobs skipped and of the jobs dropped. */
  lemma CountersExactly(jobs: seq<Job>, n: nat, steps: seq<Step>, run: seq<Pool>, o: Outcome)
    requires Fresh(jobs) && IsTrace(jobs, n, steps, run) && Complete(run[|steps|])
    ensures Tallied(run[|steps|].collected, o) == |JobsThatBecame(steps, run, o)|
  {
    var s := run[|steps|];
    CompleteHasDifferentNumbers(s);
    TalliedIsNumber(s.collected, o);
    forall k ensures k in NumbersOf(s.collected, o) <==> k in JobsThatBecame(steps, run, o) {
      if k in NumbersOf(s.collected, o) {
        var c :| 0 <= c < |s.collected| && OutcomeOf(s.collected[c]) == o && s.collected[c].number == k;
        OutcomeIsWhatBecame(jobs, n, steps, run, c, o);
        assert Reported(s.jobs, s.interrupted, s.ran, s.collected[c]);
      }
      if k in JobsThatBecame(steps, run, o) {
        var c := CountFindsJob(s.collected, k);
        OutcomeIsWhatBecame(jobs, n, steps, run, c, o);
      }
    }
    assert NumbersOf(s.collected, o) == JobsThatBecame(steps, run, o);
  }

  /** Every job was skipped or its process has ended with 0, and none was dropped. */
  ghost predicate AllWell(steps: seq<Step>, run: seq<Pool>)
    requires |run| == |steps| + 1
  {
    var s := run[|steps|];
    forall k :: 0 <= k < |s.jobs| ==>
      !CameBackDropped(s, k) && (s.jobs[k].isSkip || EndedWith(steps, run, k, 0))
  }

  lemma VerdictExactly(jobs: seq<Job>, n: nat, steps: seq<Step>, run: seq<Pool>)
    requires Fresh(jobs) && IsTrace(jobs, n, steps, run) && Complete(run[|steps|])
    ensures var s := run[|steps|];
            Tallied(s.collected, Passed) + Tallied(s.collected, Skipped) == |s.jobs| <==> AllWell(steps, run)
  {
    var s := run[|steps|];
    AllGood(s.collected);
    if AllWell(steps, run) {
      forall c | 0 <= c < |s.collected| ensures Good(s.collected[c]) {
        assert Reported(s.jobs, s.interrupted, s.ran, s.collected[c]);
        OutcomeIsWhatBecame(jobs, n, steps, run, c, Passed);
        OutcomeIsWhatBecame(jobs, n, steps, run, c, Skipped);
      }
    }
    if forall c :: 0 <= c < |s.collected| ==> Good(s.collected[c]) {
      forall k | 0 <= k < |s.jobs|
        ensures !CameBackDropped(s, k) && (s.jobs[k].isSkip || EndedWith(steps, run, k, 0))
      {
        var c := CountFindsJob(s.collected, k);
        assert Good(s.collected[c]);
        OutcomeIsWhatBecame(jobs, n, steps, run, c, Passed);
        OutcomeIsWhatBecame(jobs, n, steps, run, c, Skipped);
        OutcomeIsWhatBecame(jobs, n, steps, run, c, Interrupted);
      }
    }
  }

  // ---------------------------------------------------------------------------------------------
  // The program
  // ---------------------------------------------------------------------------------------------

  /** The shared queues, the flag, the threads and the counters of `run_tests`. */
  class TestRun {
    const jobs: seq<Job>
    var totalTests: nat
    var sentinels: nat
    var inputQueue: seq<Job>
    var outputQueue: seq<Job>
    var threads: seq<Worker>
    var threadExit: bool
    var collectedJobs: nat
    var joined: nat
    var passed: nat
    var failed: nat
    var valgrindErrors: nat
    var crashed: nat
    var skipped: nat
    ghost var collected: seq<Job>
    ghost var ran: map<int, int>
    const processors: nat
    ghost var steps: seq<Step>     // history: what has happened so far
    ghost var run: seq<Pool>       // and the states before, between and after

    ghost function View(): Pool
      reads this
    {
      Pool(jobs, totalTests, sentinels, inputQueue, threads, outputQueue, collected, joined, threadExit, ran)
    }

    ghost predicate Valid()
      reads this
    {
      Consistent() && Counted()
    }

    ghost predicate Consistent()
      reads this
    {
      && Inv(View()) && |threads| > 0
      && IsTrace(jobs, processors, steps, run) && run[|steps|] == View()
      && collectedJobs == |collected|
    }

    ghost predicate Counted()
      reads this`passed, this`failed, this`valgrindErrors, this`crashed, this`skipped, this`collected
    {
      && passed == Tallied(collected, Passed)
      && failed == Tallied(collected, Failed)
      && valgrindErrors == Tallied(collected, ValgrindErrors)
      && crashed == Tallied(collected, Crashed)
      && skipped == Tallied(collected, Skipped)
    }

    constructor (jobs: seq<Job>, processors: nat)
      requires Fresh(jobs) && processors > 0
      ensures Valid() && View() == Init(jobs, processors) && steps == []
    {
      this.jobs, this.processors := jobs, processors;
      totalTests, sentinels, collectedJobs, joined := 0, 0, 0, 0;
      inputQueue, outputQueue, threads, threadExit := [], [], seq(processors, _ => Waiting), false;
      passed, failed, valgrindErrors, crashed, skipped := 0, 0, 0, 0, 0;
      collected, ran := [], map[];
      steps, run := [], [Init(jobs, processors)];
      new;
      InitInv(jobs, processors);
    }

    /** `sigint_hook`.  The first signal is a step of the protocol, every further one changes nothing. */
    method SigintHook()
      requires Valid()
      modifies this
      ensures Valid() && threadExit
      ensures View() == if old(threadExit) then old(View()) else Apply(old(View()), Interrupt)
      ensures steps == if old(threadExit) then old(steps) else old(steps) + [Interrupt]
    {
      if !threadExit {
        StepKeeps(View(), Interrupt);
        TraceAppend(jobs, processors, steps, run, Interrupt);
        steps, run := steps + [Interrupt], run + [Apply(View(), Interrupt)];
      }
      threadExit := true;
    }

    method DispatchJob()
      requires Valid() && Enabled(View(), Dispatch)
      modifies this
      ensures Valid() && View() == Apply(old(View()), Dispatch)
      ensures steps == old(steps) + [Dispatch]
    {
      hide Inv, IsTrace, Tallied;
      StepKeeps(View(), Dispatch);
      TraceAppend(jobs, processors, steps, run, Dispatch);
      steps, run := steps + [Dispatch], run + [Apply(View(), Dispatch)];
      inputQueue := inputQueue + [jobs[totalTests]];
      totalTests := totalTests + 1;
    }

    method StopOneWorker()
      requires Valid() && Enabled(View(), PostSentinel)
      modifies this
      ensures Valid() && View() == Apply(old(View()), PostSentinel)
      ensures steps == old(steps) + [PostSentinel]
    {
      hide Inv, IsTrace, Tallied;
      StepKeeps(View(), PostSentinel);
      TraceAppend(jobs, processors, steps, run, PostSentinel);
      steps, run := steps + [PostSentinel], run + [Apply(View(), PostSentinel)];
      inputQueue := inputQueue + [SENTINEL];
      sentinels := sentinels + 1;
    }

    /** `job = self.input_queue.get()` and the test of its is_break. */
    method WorkerGet(w: nat)
      requires Valid() && Enabled(View(), Take(w))
      modifies this
      ensures Valid() && View() == Apply(old(View()), Take(w))
      ensures steps == old(steps) + [Take(w)]
    {
      hide Inv, IsTrace, Tallied;
      StepKeeps(View(), Take(w));
      TraceAppend(jobs, processors, steps, run, Take(w));
      steps, run := steps + [Take(w)], run + [Apply(View(), Take(w))];
      var job := inputQueue[0];
      inputQueue := inputQueue[1..];
      if job.isBreak {
        threads := threads[w := Stopped];
        return;
      }
      threads := threads[w := Took(job)];
    }

    /** The look at thread_exit and at is_skip. */
    method WorkerCheck(w: nat)
      requires Valid() && Enabled(View(), CheckFlag(w))
      modifies this
      ensures Valid() && View() == Apply(old(View()), CheckFlag(w))
      ensures steps == old(steps) + [CheckFlag(w)]
    {
      hide Inv, IsTrace, Tallied;
      StepKeeps(View(), CheckFlag(w));
      TraceAppend(jobs, processors, steps, run, CheckFlag(w));
      steps, run := steps + [CheckFlag(w)], run + [Apply(View(), CheckFlag(w))];
      var job := threads[w].job;
      if threadExit {
        threads := threads[w := Reporting(job.(isBreak := true))];
        return;
      }
      if job.isSkip {
        threads := threads[w := Reporting(job)];
      } else {
        threads := threads[w := Running(job)];
      }
    }

    /** The job's process has ended with that return code. */
    method WorkerFinish(w: nat, rc: int)
      requires Valid() && Enabled(View(), Finish(w, rc))
      modifies this
      ensures Valid() && View() == Apply(old(View()), Finish(w, rc))
      ensures steps == old(steps) + [Finish(w, rc)]
    {
      hide Inv, IsTrace, Tallied;
      StepKeeps(View(), Finish(w, rc));
      TraceAppend(jobs, processors, steps, run, Finish(w, rc));
      steps, run := steps + [Finish(w, rc)], run + [Apply(View(), Finish(w, rc))];
      var job := threads[w].job;
      ran := ran[job.number := rc];
      threads := threads[w := Reporting(job.(returncode := rc))];
    }

    method WorkerPut(w: nat)
      requires Valid() && Enabled(View(), Report(w))
      modifies this
      ensures Valid() && View() == Apply(old(View()), Report(w))
      ensures steps == old(steps) + [Report(w)]
    {
      hide Inv, IsTrace, Tallied;
      StepKeeps(View(), Report(w));
      TraceAppend(jobs, processors, steps, run, Report(w));
      steps, run := steps + [Report(w)], run + [Apply(View(), Report(w))];
      outputQueue := outputQueue + [threads[w].job];
      threads := threads[w := Waiting];
    }

    /** The classification in the collecting loop. */
    method CountJob(job: Job)
      modifies this`passed, this`failed, this`valgrindErrors, this`crashed, this`skipped
      ensures passed == old(passed) + if OutcomeOf(job) == Passed then 1 else 0
      ensures failed == old(failed) + if OutcomeOf(job) == Failed then 1 else 0
      ensures valgrindErrors == old(valgrindErrors) + if OutcomeOf(job) == ValgrindErrors then 1 else 0
      ensures crashed == old(crashed) + if OutcomeOf(job) == Crashed then 1 else 0
      ensures skipped == old(skipped) + if OutcomeOf(job) == Skipped then 1 else 0
    {
      if job.isBreak {
        return;
      }
      if job.isSkip {
        skipped := skipped + 1;
      } else {
        if job.returncode == 0 {
          passed := passed + 1;
        } else if job.returncode == 1 {
          failed := failed + 1;
        } else if job.returncode == 2 {
          valgrindErrors := valgrindErrors + 1;
        } else {
          crashed := crashed + 1;
        }
      }
    }

    /** `output_queue.get()`. */
    method CollectorGet() returns (job: Job)
      requires Consistent() && Enabled(View(), Collect)
      modifies this`outputQueue, this`collectedJobs, this`collected, this`steps, this`run
      ensures Consistent() && View() == Apply(old(View()), Collect)
      ensures steps == old(steps) + [Collect] && collected == old(collected) + [job]
    {
      hide Inv, IsTrace;
      StepKeeps(View(), Collect);
      TraceAppend(jobs, processors, steps, run, Collect);
      steps, run := steps + [Collect], run + [Apply(View(), Collect)];
      job := outputQueue[0];
      outputQueue := outputQueue[1..];
      collectedJobs := collectedJobs + 1;
      collected := collected + [job];
    }

    /** One turn of the collecting loop. */
    method CollectOne()
      requires Valid() && Enabled(View(), Collect)
      modifies this
      ensures Valid() && View() == Apply(old(View()), Collect)
      ensures steps == old(steps) + [Collect]
    {
      hide Inv, IsTrace, Tallied, OutcomeOf, Apply, Enabled;
      ghost var before := collected;
      var job := CollectorGet();
      TallyAppendAll(before, job);
      CountJob(job);
    }

    method JoinOne()
      requires Valid() && Enabled(View(), Join)
      modifies this
      ensures Valid() && View() == Apply(old(View()), Join)
      ensures steps == old(steps) + [Join]
    {
      hide Inv, IsTrace, Tallied;
      StepKeeps(View(), Join);
      TraceAppend(jobs, processors, steps, run, Join);
      steps, run := steps + [Join], run + [Apply(View(), Join)];
      joined := joined + 1;
    }

    lemma JobsAreFresh()
      requires Valid()
      ensures Fresh(jobs)
    {
      InvContents(View());
    }

    /** The exit code: 0 exactly when every job succeeded and none was dropped by the interrupt. */
    method ExitCode() returns (code: int)
      requires Valid() && Final(View())
      ensures Complete(View())
      ensures passed + failed + valgrindErrors + crashed + skipped + Tallied(collected, Interrupted) == totalTests
      ensures code == 0 || code == 1
      ensures code == 0 <==> forall n :: 0 <= n < |jobs| ==> Succeeded(View(), n)
      ensures code == 0 <==> AllWell(steps, run)
      ensures passed == |JobsThatBecame(steps, run, Passed)| && failed == |JobsThatBecame(steps, run, Failed)|
      ensures valgrindErrors == |JobsThatBecame(steps, run, ValgrindErrors)|
      ensures crashed == |JobsThatBecame(steps, run, Crashed)| && skipped == |JobsThatBecame(steps, run, Skipped)|
    {
      JobsAreFresh();
      FinalIsComplete(View());
      OutcomesAddUp(collected);
      VerdictMeaning(View());
      VerdictExactly(jobs, processors, steps, run);
      CountersExactly(jobs, processors, steps, run, Passed);
      CountersExactly(jobs, processors, steps, run, Failed);
      CountersExactly(jobs, processors, steps, run, ValgrindErrors);
      CountersExactly(jobs, processors, steps, run, Crashed);
      CountersExactly(jobs, processors, steps, run, Skipped);
      hide Inv, Final, Complete, AllWell, JobsThatBecame, Tallied, Succeeded;
      code := if passed + skipped == totalTests then 0 else 1;
    }
  }
}
