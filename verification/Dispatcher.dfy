/** The dispatcher behind mirroring and webhooks (`MirrorSync`, `attemptSync`,
    `StopSyncDispatcher`; `triggerWebhook`, `sendWebhookEvent`,
    `StopWebhookDispatcher`): a bounded queue, ten workers, retries on timers, and
    a shutdown that waits for all of them. */
module Dispatcher {
  type Task = nat

  const QUEUE_SIZE: nat := 5000
  const WORKERS: nat := 10
  const MAX_RETRIES: nat := 3

  /** Where a goroutine stands. `n` counts the retries of its task so far. */
  datatype Phase =
    | Receiving
    | Attempt(task: Task, n: nat)
    | Failed(task: Task, n: nat)
    | Cleared(task: Task, n: nat)
    | Added(task: Task, n: nat)
    | Pending(task: Task, n: nat)
    | Finished
    | Gone

  /** A worker, or the timer of one scheduled retry. */
  datatype Runner = Runner(isWorker: bool, phase: Phase)
  {
    predicate Carries(t: Task) {
      !phase.Receiving? && !phase.Finished? && !phase.Gone? && phase.task == t
    }
  }

  /** The first Stop: not called, flag set, queue closed and waiting, returned. */
  datatype Stop = NotCalled | Flagged | Waiting | Returned

  datatype State = State(
    queue: seq<Task>,
    closed: bool,
    shutdown: bool,
    counter: int,
    runners: seq<Runner>,
    stop: Stop,
    attempts: map<Task, nat>)
  {
    predicate Initialised() {
      runners != []
    }

    function At(r: nat): Phase
      requires r < |runners|
    {
      runners[r].phase
    }

    function Moved(r: nat, p: Phase): State
      requires r < |runners|
    {
      this.(runners := runners[r := runners[r].(phase := p)])
    }
  }

  const INITIAL := State([], false, false, 0, [], NotCalled, map[])

  // ----- the steps -----

  datatype Step =
    | Send(task: Task)
    | Take(r: nat)
    | Exit(r: nat)
    | Perform(r: nat, works: bool)
    | CheckFlag(r: nat)
    | CheckTries(r: nat)
    | Schedule(r: nat)
    | Fire(r: nat)
    | Finish(r: nat)
    | SetFlag
    | CloseQueue
    | Return

  predicate IsRunnerStep(step: Step) {
    !step.Send? && !step.SetFlag? && !step.CloseQueue? && !step.Return?
  }

  predicate Enabled(s: State, step: Step) {
    if IsRunnerStep(step) then
      step.r < |s.runners| &&
      var p := s.runners[step.r].phase;
      match step
      case Take(_) => p.Receiving? && s.queue != []
      case Exit(_) => p.Receiving? && s.queue == [] && s.closed
      case Perform(_, _) => p.Attempt?
      case CheckFlag(_) => p.Failed?
      case CheckTries(_) => p.Cleared?
      case Schedule(_) => p.Added?
      case Fire(_) => p.Pending?
      case _ => p.Finished?
    else
      match step
      case Send(task) => task !in s.attempts
      case SetFlag => true
      case CloseQueue => s.stop.Flagged?
      case _ => s.stop.Waiting? && s.counter == 0
  }

  function Workers(): seq<Runner> {
    seq(WORKERS, i => Runner(true, Receiving))
  }

  /** Whether a send puts its task on the queue. */
  predicate Accepts(s: State) {
    !s.shutdown && |s.queue| < QUEUE_SIZE
  }

  /** Under the mutex: refuse while shutting down, start the workers once, then
      enqueue or drop. */
  function DoSend(s: State, task: Task): State {
    if s.shutdown then s
    else
      var t := if s.Initialised() then s else s.(runners := Workers(), counter := s.counter + WORKERS);
      if |s.queue| < QUEUE_SIZE then t.(queue := s.queue + [task], attempts := s.attempts[task := 0]) else t
  }

  function Do(s: State, step: Step): State
    requires Enabled(s, step)
  {
    match step
    case Send(task) => DoSend(s, task)
    case Take(r) => s.(queue := s.queue[1..]).Moved(r, Attempt(s.queue[0], 0))
    case Exit(r) => s.(counter := s.counter - 1).Moved(r, Gone)
    case Perform(r, works) =>
      var p := s.At(r);
      var tried := if p.task in s.attempts then s.attempts[p.task] + 1 else 1;
      s.(attempts := s.attempts[p.task := tried]).Moved(r, if works then Finished else Failed(p.task, p.n))
    case CheckFlag(r) => s.Moved(r, if s.shutdown then Finished else Cleared(s.At(r).task, s.At(r).n))
    case CheckTries(r) =>
      if s.At(r).n >= MAX_RETRIES then s.Moved(r, Finished)
      else s.(counter := s.counter + 1).Moved(r, Added(s.At(r).task, s.At(r).n))
    case Schedule(r) =>
      var t := s.Moved(r, Finished);
      t.(runners := t.runners + [Runner(false, Pending(s.At(r).task, s.At(r).n + 1))])
    case Fire(r) => s.Moved(r, Attempt(s.At(r).task, s.At(r).n))
    case Finish(r) => if s.runners[r].isWorker then s.Moved(r, Receiving)
                      else s.(counter := s.counter - 1).Moved(r, Gone)
    case SetFlag => if s.shutdown then s else s.(shutdown := true, stop := Flagged)
    case CloseQueue => if s.Initialised() then s.(closed := true, stop := Waiting) else s.(stop := Returned)
    case Return => s.(stop := Returned)
  }

  // ----- sums over the goroutines -----

  function Sum(rs: seq<Runner>, weight: Runner -> nat): nat {
    if rs == [] then 0 else Sum(rs[..|rs| - 1], weight) + weight(rs[|rs| - 1])
  }

  lemma {:induction false} SumUpdate(rs: seq<Runner>, weight: Runner -> nat, i: nat, x: Runner)
    requires i < |rs|
    ensures Sum(rs[i := x], weight) == Sum(rs, weight) - weight(rs[i]) + weight(x)
  {
    var n := |rs| - 1;
    if i < n {
      assert rs[i := x][..n] == rs[..n][i := x];
      SumUpdate(rs[..n], weight, i, x);
    } else {
      assert rs[i := x][..n] == rs[..n];
    }
  }

  lemma SumAppend(rs: seq<Runner>, weight: Runner -> nat, x: Runner)
    ensures Sum(rs + [x], weight) == Sum(rs, weight) + weight(x)
  {
    assert (rs + [x])[..|rs|] == rs;
  }

  lemma {:induction false} SumIsZero(rs: seq<Runner>, weight: Runner -> nat)
    requires Sum(rs, weight) == 0
    ensures forall i :: 0 <= i < |rs| ==> weight(rs[i]) == 0
  {
    if rs != [] {
      SumIsZero(rs[..|rs| - 1], weight);
    }
  }

  lemma {:induction false} SumOfSame(rs: seq<Runner>, weight: Runner -> nat, w: nat)
    requires forall i :: 0 <= i < |rs| ==> weight(rs[i]) == w
    ensures Sum(rs, weight) == |rs| * w
  {
    if rs != [] {
      SumOfSame(rs[..|rs| - 1], weight, w);
    }
  }

  /** A goroutine counts once while it lives, and once more between the wait
      group's Add and the timer it announces. */
  function Units(r: Runner): nat {
    if r.phase.Gone? then 0 else if r.phase.Added? then 2 else 1
  }

  // ----- the invariant -----

  /** How often the task of a goroutine has been attempted. */
  predicate TriesFit(p: Phase, tried: nat) {
    match p
    case Attempt(_, n) => tried == n <= MAX_RETRIES
    case Pending(_, n) => tried == n <= MAX_RETRIES && n > 0
    case Failed(_, n) => tried == n + 1 && n <= MAX_RETRIES
    case Cleared(_, n) => tried == n + 1 && n <= MAX_RETRIES
    case Added(_, n) => tried == n + 1 && n < MAX_RETRIES
    case _ => true
  }

  predicate RunnerOk(s: State, r: Runner) {
    && (r.isWorker ==> !r.phase.Pending? && (r.phase.Gone? ==> s.closed && s.queue == []))
    && (!r.isWorker ==> !r.phase.Receiving?)
    && (!r.phase.Receiving? && !r.phase.Finished? && !r.phase.Gone? ==>
          r.phase.task in s.attempts && r.phase.task !in s.queue && TriesFit(r.phase, s.attempts[r.phase.task]))
  }

  ghost predicate Carried(s: State, t: Task) {
    exists i :: 0 <= i < |s.runners| && s.runners[i].Carries(t)
  }

  /** A task is queued and untried, or with one goroutine, or done after 1 to 4 attempts. */
  ghost predicate TaskOk(s: State, t: Task)
    requires t in s.attempts
  {
    && s.attempts[t] <= MAX_RETRIES + 1
    && (t in s.queue ==> s.attempts[t] == 0)
    && (t !in s.queue && !Carried(s, t) ==> s.attempts[t] >= 1)
  }

  ghost predicate StopOk(s: State) {
    && (s.stop.NotCalled? <==> !s.shutdown)
    && (s.closed ==> s.shutdown && s.Initialised() && !s.stop.Flagged?)
    && (s.stop.Waiting? ==> s.closed)
    && (s.stop.Returned? ==> s.counter == 0 && (s.Initialised() ==> s.closed))
  }

  ghost predicate RunnersOk(s: State) {
    && (s.Initialised() ==> |s.runners| >= WORKERS && forall i :: 0 <= i < |s.runners| ==>
          (s.runners[i].isWorker <==> i < WORKERS))
    && (forall i :: 0 <= i < |s.runners| ==> RunnerOk(s, s.runners[i]))
    && (forall i, j, t :: 0 <= i < j < |s.runners| && s.runners[i].Carries(t) ==> !s.runners[j].Carries(t))
  }

  ghost predicate QueueOk(s: State) {
    && |s.queue| <= QUEUE_SIZE
    && (!s.Initialised() ==> s.queue == [])
    && (forall i :: 0 <= i < |s.queue| ==> s.queue[i] in s.attempts)
    && (forall i, j :: 0 <= i < j < |s.queue| ==> s.queue[i] != s.queue[j])
  }

  ghost predicate Inv(s: State) {
    && s.counter == Sum(s.runners, Units)
    && RunnersOk(s) && QueueOk(s) && StopOk(s)
    && (forall t :: t in s.attempts ==> TaskOk(s, t))
  }

  // ----- every step keeps it -----

  /** How a step changes a sum over the goroutines. */
  lemma StepMovesSum(s: State, step: Step, weight: Runner -> nat)
    requires Enabled(s, step) && IsRunnerStep(step)
    ensures step.r < |Do(s, step).runners|
    ensures Sum(Do(s, step).runners, weight) ==
              Sum(s.runners, weight) - weight(s.runners[step.r]) + weight(Do(s, step).runners[step.r])
              + if step.Schedule? then weight(Runner(false, Pending(s.At(step.r).task, s.At(step.r).n + 1))) else 0
  {
    var r := step.r;
    var now := s.runners[r].(phase := Do(s, step).runners[r].phase);
    SumUpdate(s.runners, weight, r, now);
    if step.Schedule? {
      SumAppend(s.runners[r := now], weight, Runner(false, Pending(s.At(r).task, s.At(r).n + 1)));
    }
  }

  lemma CounterKeeps(s: State, step: Step)
    requires Inv(s) && Enabled(s, step)
    ensures Do(s, step).counter == Sum(Do(s, step).runners, Units)
  {
    if IsRunnerStep(step) {
      StepMovesSum(s, step, Units);
      StepMovesUnits(s, step);
    } else if step.Send? && !s.Initialised() {
      SumOfSame(Workers(), Units, 1);
    }
  }

  lemma StepMovesUnits(s: State, step: Step)
    requires Enabled(s, step) && IsRunnerStep(step) && step.r < |Do(s, step).runners|
    ensures Do(s, step).counter - s.counter ==
              Units(Do(s, step).runners[step.r]) - Units(s.runners[step.r]) + if step.Schedule? then 1 else 0
  {
  }

  /** Nothing but the phase of the moving goroutine changes. */
  lemma MoveKeepsRunners(s: State, s': State, r: nat)
    requires RunnersOk(s) && r < |s.runners| == |s'.runners| && s'.runners == s.runners[r := s'.runners[r]]
             && s'.runners[r].isWorker == s.runners[r].isWorker
    requires RunnerOk(s', s'.runners[r])
    requires forall t :: s'.runners[r].Carries(t) ==> s.runners[r].Carries(t) || t in s.queue
    requires s'.closed == s.closed && (s.queue == [] ==> s'.queue == []) && (forall t :: t in s'.queue ==> t in s.queue)
    requires forall t ::
               t in s.attempts ==> t in s'.attempts && (s'.attempts[t] == s.attempts[t] || s.runners[r].Carries(t))
    ensures RunnersOk(s')
  {
    forall i | 0 <= i < |s'.runners| ensures RunnerOk(s', s'.runners[i]) {
      assert RunnerOk(s, s.runners[i]);
    }
    forall i, j, t | 0 <= i < j < |s'.runners| && s'.runners[i].Carries(t) ensures !s'.runners[j].Carries(t) {
      assert RunnerOk(s, s.runners[i]) && RunnerOk(s, s.runners[j]);
    }
  }

  lemma MoveStepKeepsRunners(s: State, step: Step)
    requires Inv(s) && Enabled(s, step) && IsRunnerStep(step) && !step.Schedule?
    ensures RunnersOk(Do(s, step))
  {
    var s', r := Do(s, step), step.r;
    assert RunnerOk(s, s.runners[r]);
    if step.Take? {
      assert TaskOk(s, s.queue[0]);
    }
    assert RunnerOk(s', s'.runners[r]);
    MoveKeepsRunners(s, s', r);
  }

  lemma StopStepKeepsRunners(s: State, step: Step)
    requires Inv(s) && Enabled(s, step) && (step.SetFlag? || step.CloseQueue? || step.Return?)
    ensures RunnersOk(Do(s, step))
  {
    var s' := Do(s, step);
    forall i | 0 <= i < |s'.runners| ensures RunnerOk(s', s'.runners[i]) {
      assert RunnerOk(s, s.runners[i]);
    }
  }

  lemma ScheduleKeepsRunners(s: State, r: nat)
    requires Inv(s) && Enabled(s, Schedule(r))
    ensures RunnersOk(Do(s, Schedule(r)))
  {
    var s', p := Do(s, Schedule(r)), s.At(r);
    assert RunnerOk(s, s.runners[r]);
    forall i | 0 <= i < |s'.runners| ensures RunnerOk(s', s'.runners[i]) {
      if i < |s.runners| { assert RunnerOk(s, s.runners[i]); }
    }
    forall i, j, t | 0 <= i < j < |s'.runners| && s'.runners[i].Carries(t) ensures !s'.runners[j].Carries(t) {
      assert i < |s.runners| && i != r;
      assert s.runners[r].Carries(p.task);
    }
  }

  lemma SendKeepsRunners(s: State, task: Task)
    requires Inv(s) && Enabled(s, Send(task))
    ensures RunnersOk(Do(s, Send(task)))
  {
    var s' := Do(s, Send(task));
    forall i | 0 <= i < |s'.runners| ensures RunnerOk(s', s'.runners[i]) {
      if s.Initialised() { assert RunnerOk(s, s.runners[i]); }
    }
  }

  lemma RunnersKeep(s: State, step: Step)
    requires Inv(s) && Enabled(s, step)
    ensures RunnersOk(Do(s, step))
  {
    if step.Send? {
      SendKeepsRunners(s, step.task);
    } else if step.Schedule? {
      ScheduleKeepsRunners(s, step.r);
    } else if IsRunnerStep(step) {
      MoveStepKeepsRunners(s, step);
    } else {
      StopStepKeepsRunners(s, step);
    }
  }

  lemma CarriedKeeps(s: State, s': State, r: nat, t: Task)
    requires r < |s.runners| && |s'.runners| >= |s.runners| && Carried(s, t)
    requires forall i :: 0 <= i < |s.runners| && i != r ==> s'.runners[i] == s.runners[i]
    ensures Carried(s', t) || s.runners[r].Carries(t)
  {
    var i :| 0 <= i < |s.runners| && s.runners[i].Carries(t);
    if i != r {
      assert s'.runners[i].Carries(t);
    }
  }

  lemma RunnerStepKeepsTask(s: State, step: Step, t: Task)
    requires Inv(s) && Enabled(s, step) && IsRunnerStep(step) && t in Do(s, step).attempts
    ensures TaskOk(Do(s, step), t)
  {
    var s', r := Do(s, step), step.r;
    assert RunnerOk(s, s.runners[r]);
    assert t in s.attempts && TaskOk(s, t);
    if Carried(s, t) {
      CarriedKeeps(s, s', r, t);
    }
    if step.Schedule? && s.runners[r].Carries(t) {
      assert s'.runners[|s.runners|].Carries(t);
    }
    assert s'.runners[r].Carries(t) ==> Carried(s', t);
    if step.Take? && t in s.queue && t !in s'.queue {
      assert t == s.queue[0];
    }
  }

  lemma SendKeepsTask(s: State, task: Task, t: Task)
    requires Inv(s) && Enabled(s, Send(task)) && t in Do(s, Send(task)).attempts
    ensures TaskOk(Do(s, Send(task)), t)
  {
    var s' := Do(s, Send(task));
    if t in s.attempts {
      assert TaskOk(s, t);
      if Carried(s, t) {
        var i :| 0 <= i < |s.runners| && s.runners[i].Carries(t);
        assert s'.runners[i].Carries(t);
      }
    } else {
      assert s'.queue[|s.queue|] == t;
    }
  }

  lemma TasksKeep(s: State, step: Step, t: Task)
    requires Inv(s) && Enabled(s, step) && t in Do(s, step).attempts
    ensures TaskOk(Do(s, step), t)
  {
    if IsRunnerStep(step) {
      RunnerStepKeepsTask(s, step, t);
    } else if step.Send? {
      SendKeepsTask(s, step.task, t);
    } else {
      assert TaskOk(s, t);
      assert Carried(s, t) <==> Carried(Do(s, step), t);
    }
  }

  lemma QueueKeeps(s: State, step: Step)
    requires Inv(s) && Enabled(s, step)
    ensures QueueOk(Do(s, step)) && StopOk(Do(s, step))
  {
    if IsRunnerStep(step) {
      SumPositive(s.runners, step.r);
    }
  }

  lemma SumPositive(rs: seq<Runner>, r: nat)
    requires r < |rs|
    ensures !rs[r].phase.Gone? ==> Sum(rs, Units) > 0
  {
    if Sum(rs, Units) == 0 {
      SumIsZero(rs, Units);
    }
  }

  /** Every step of every goroutine keeps the invariant. */
  lemma StepKeeps(s: State, step: Step)
    requires Inv(s) && Enabled(s, step)
    ensures Inv(Do(s, step))
  {
    CounterKeeps(s, step);
    RunnersKeep(s, step);
    QueueKeeps(s, step);
    forall t | t in Do(s, step).attempts ensures TaskOk(Do(s, step), t) {
      TasksKeep(s, step, t);
    }
  }

  // ----- whole runs -----

  ghost predicate Leads(s: State, steps: seq<Step>, s': State)
    decreases |steps|
  {
    if steps == [] then s == s' else Enabled(s, steps[0]) && Leads(Do(s, steps[0]), steps[1..], s')
  }

  lemma {:induction false} RunKeeps(s: State, steps: seq<Step>, s': State)
    requires Inv(s) && Leads(s, steps, s')
    ensures Inv(s')
    decreases |steps|
  {
    if steps != [] {
      StepKeeps(s, steps[0]);
      RunKeeps(Do(s, steps[0]), steps[1..], s');
    }
  }

  /** In every interleaving: the wait group counts the live goroutines and the
      announced retries, no task is attempted more than 4 times, and a send is
      accepted only while the queue is open. */
  lemma RunsAreSafe(steps: seq<Step>, s: State)
    requires Leads(INITIAL, steps, s)
    ensures s.counter == Sum(s.runners, Units)
    ensures forall t :: t in s.attempts ==> s.attempts[t] <= 4
    ensures Accepts(s) ==> !s.closed
    ensures s.runners == [] || forall i :: 0 <= i < |s.runners| ==> (s.runners[i].isWorker <==> i < 10)
    ensures s.runners == [] || |s.runners| >= 10
  {
    RunKeeps(INITIAL, steps, s);
    forall t | t in s.attempts ensures s.attempts[t] <= 4 {
      assert TaskOk(s, t);
    }
  }

  /** When the first Stop has returned, the queue is empty, no goroutine lives, no
      retry is scheduled, and every task ever accepted was attempted 1 to 4 times. */
  lemma StopDrains(steps: seq<Step>, s: State)
    requires Leads(INITIAL, steps, s) && s.stop.Returned?
    ensures s.queue == []
    ensures forall i :: 0 <= i < |s.runners| ==> s.runners[i].phase.Gone?
    ensures forall t :: t in s.attempts ==> 1 <= s.attempts[t] <= 4
  {
    RunKeeps(INITIAL, steps, s);
    SumIsZero(s.runners, Units);
    if s.Initialised() {
      assert RunnerOk(s, s.runners[0]);
    }
    forall t | t in s.attempts ensures 1 <= s.attempts[t] <= 1 + MAX_RETRIES {
      assert TaskOk(s, t);
      assert !Carried(s, t);
    }
  }

  // ----- what becomes of a delivery -----

  /** How an attempt at the task goes in a step, if the step is one. */
  function Tried(s: State, step: Step, t: Task): seq<bool>
    requires Enabled(s, step)
  {
    if step.Perform? && s.At(step.r).task == t then [step.works] else []
  }

  /** The attempts at a task over a run, in order: did they work? */
  ghost function Attempts(s: State, steps: seq<Step>, t: Task): seq<bool>
    decreases |steps|
  {
    if steps == [] || !Enabled(s, steps[0]) then []
    else Tried(s, steps[0], t) + Attempts(Do(s, steps[0]), steps[1..], t)
  }

  /** The goroutine with the task finds the flag set after a failure. */
  predicate GivesUp(s: State, step: Step, t: Task)
    requires Enabled(s, step)
  {
    step.CheckFlag? && s.At(step.r).task == t && s.shutdown
  }

  ghost predicate GivenUp(s: State, steps: seq<Step>, t: Task)
    decreases |steps|
  {
    steps != [] && Enabled(s, steps[0]) && (GivesUp(s, steps[0], t) || GivenUp(Do(s, steps[0]), steps[1..], t))
  }

  predicate Worked(tried: seq<bool>) {
    tried != [] && tried[|tried| - 1]
  }

  /** Only the last attempt can have worked; a task that somebody still has was not
      delivered; one that nobody has was, or was tried 4 times, or was given up. */
  ghost predicate Accounted(s: State, t: Task, tried: seq<bool>, given: bool) {
    && (forall i :: 0 <= i < |tried| - 1 ==> !tried[i])
    && (given ==> s.shutdown && tried != [] && !Worked(tried))
    && (if t !in s.attempts then tried == [] && !given
        else
          && |tried| == s.attempts[t]
          && (t in s.queue || Carried(s, t) ==> !Worked(tried) && !given)
          && (t !in s.queue && !Carried(s, t) ==> Worked(tried) || |tried| == 4 || given))
  }

  /** A task that another goroutine or the queue has is not touched. */
  lemma OthersTaskKeeps(s: State, step: Step, t: Task)
    requires Inv(s) && Enabled(s, step) && IsRunnerStep(step) && !s.runners[step.r].Carries(t)
    requires !(step.Take? && s.queue[0] == t)
    ensures var s' := Do(s, step);
            && Tried(s, step, t) == [] && !GivesUp(s, step, t)
            && (t in s'.queue <==> t in s.queue) && (Carried(s', t) <==> Carried(s, t))
            && (t in s'.attempts <==> t in s.attempts) && (t in s.attempts ==> s'.attempts[t] == s.attempts[t])
  {
    var s', r := Do(s, step), step.r;
    assert RunnerOk(s, s.runners[r]);
    if Carried(s, t) {
      CarriedKeeps(s, s', r, t);
    }
    if i :| 0 <= i < |s'.runners| && s'.runners[i].Carries(t) {
      assert i < |s.runners| && s.runners[i].Carries(t);
    }
    if step.Take? {
      assert s.queue == [s.queue[0]] + s.queue[1..];
    }
  }

  /** The goroutine that has the task moves it on, or is done with it. */
  lemma OwnTaskMoves(s: State, step: Step, t: Task)
    requires Inv(s) && Enabled(s, step) && IsRunnerStep(step) && s.runners[step.r].Carries(t)
    ensures var s' := Do(s, step);
            && t in s.attempts && t !in s.queue && Carried(s, t) && t !in s'.queue && t in s'.attempts
            && (Carried(s', t) <==> s'.runners[step.r].Carries(t) || step.Schedule?)
  {
    var s', r := Do(s, step), step.r;
    assert RunnerOk(s, s.runners[r]);
    if step.Schedule? {
      assert s'.runners[|s.runners|].Carries(t);
    }
    forall i | 0 <= i < |s.runners| && i != r ensures !s.runners[i].Carries(t) {
    }
  }

  lemma OwnStepAccounts(s: State, step: Step, t: Task, tried: seq<bool>, given: bool)
    requires Inv(s) && Enabled(s, step) && IsRunnerStep(step) && s.runners[step.r].Carries(t)
    requires Accounted(s, t, tried, given)
    ensures Accounted(Do(s, step), t, tried + Tried(s, step, t), given || GivesUp(s, step, t))
  {
    OwnTaskMoves(s, step, t);
    assert RunnerOk(s, s.runners[step.r]);
    assert tried + [] == tried;
  }

  lemma TakeAccounts(s: State, r: nat, t: Task, tried: seq<bool>, given: bool)
    requires Inv(s) && Enabled(s, Take(r)) && s.queue[0] == t && Accounted(s, t, tried, given)
    ensures Accounted(Do(s, Take(r)), t, tried, given)
  {
    var s' := Do(s, Take(r));
    assert t in s.queue && t in s.attempts;
    assert s'.runners[r].Carries(t);
  }

  lemma OtherStepAccounts(s: State, step: Step, t: Task, tried: seq<bool>, given: bool)
    requires Inv(s) && Enabled(s, step) && !IsRunnerStep(step) && Accounted(s, t, tried, given)
    ensures Accounted(Do(s, step), t, tried, given)
  {
    var s' := Do(s, step);
    if i :| 0 <= i < |s.runners| && s.runners[i].Carries(t) {
      assert s'.runners[i].Carries(t);
    }
    if i :| 0 <= i < |s'.runners| && s'.runners[i].Carries(t) {
      assert s.Initialised() && s.runners[i].Carries(t);
    }
    if step.Send? && t == step.task && t in s'.attempts {
      assert s'.queue[|s.queue|] == t;
    }
  }

  lemma StepAccounts(s: State, step: Step, t: Task, tried: seq<bool>, given: bool)
    requires Inv(s) && Enabled(s, step) && Accounted(s, t, tried, given)
    ensures Accounted(Do(s, step), t, tried + Tried(s, step, t), given || GivesUp(s, step, t))
  {
    assert tried + [] == tried;
    if !IsRunnerStep(step) {
      OtherStepAccounts(s, step, t, tried, given);
    } else if s.runners[step.r].Carries(t) {
      OwnStepAccounts(s, step, t, tried, given);
    } else if step.Take? && s.queue[0] == t {
      TakeAccounts(s, step.r, t, tried, given);
    } else {
      OthersTaskKeeps(s, step, t);
    }
  }

  lemma {:induction false} RunAccounts(s: State, steps: seq<Step>, s': State, t: Task, tried: seq<bool>, given: bool)
    requires Inv(s) && Leads(s, steps, s') && Accounted(s, t, tried, given)
    ensures Accounted(s', t, tried + Attempts(s, steps, t), given || GivenUp(s, steps, t))
    decreases |steps|
  {
    if steps == [] {
      assert tried + [] == tried;
    } else {
      var next, now := Do(s, steps[0]), Tried(s, steps[0], t);
      StepKeeps(s, steps[0]);
      StepAccounts(s, steps[0], t, tried, given);
      RunAccounts(next, steps[1..], s', t, tried + now, given || GivesUp(s, steps[0], t));
      Associate(tried, now, Attempts(next, steps[1..], t));
    }
  }

  lemma Associate(a: seq<bool>, b: seq<bool>, c: seq<bool>)
    ensures (a + b) + c == a + (b + c)
  {
  }

  /** Over every run: a task that was delivered is not attempted again, and an accepted
      task that is neither queued nor with a goroutine was delivered by its last
      attempt, or failed 4 times, or failed and then met the shutdown flag. */
  lemma DeliveriesAreFinal(steps: seq<Step>, s: State, t: Task)
    requires Leads(INITIAL, steps, s)
    ensures Accounted(s, t, Attempts(INITIAL, steps, t), GivenUp(INITIAL, steps, t))
  {
    RunAccounts(INITIAL, steps, s, t, [], false);
    assert [] + Attempts(INITIAL, steps, t) == Attempts(INITIAL, steps, t);
  }

  // ----- the queue -----

  /** The task that a send puts on the queue: refused under the flag, dropped when
      5000 tasks wait. */
  function Queued(s: State, step: Step): seq<Task> {
    if step.Send? && !s.shutdown && |s.queue| < 5000 then [step.task] else []
  }

  /** The task with which a worker leaves the queue. */
  function Taken(s: State, step: Step): seq<Task>
    requires Enabled(s, step)
  {
    if step.Take? && Do(s, step).At(step.r).Attempt? then [Do(s, step).At(step.r).task] else []
  }

  ghost function AllQueued(s: State, steps: seq<Step>): seq<Task>
    decreases |steps|
  {
    if steps == [] || !Enabled(s, steps[0]) then [] else Queued(s, steps[0]) + AllQueued(Do(s, steps[0]), steps[1..])
  }

  ghost function AllTaken(s: State, steps: seq<Step>): seq<Task>
    decreases |steps|
  {
    if steps == [] || !Enabled(s, steps[0]) then [] else Taken(s, steps[0]) + AllTaken(Do(s, steps[0]), steps[1..])
  }

  /** Whatever is accepted comes out again, in the order in which it came. */
  lemma {:induction false} QueueIsInOrder(s: State, steps: seq<Step>, s': State)
    requires Leads(s, steps, s')
    ensures s.queue + AllQueued(s, steps) == AllTaken(s, steps) + s'.queue
    decreases |steps|
  {
    if steps != [] {
      var next := Do(s, steps[0]);
      QueueMoves(s, steps[0]);
      QueueIsInOrder(next, steps[1..], s');
      Regroup(s.queue, Queued(s, steps[0]), AllQueued(next, steps[1..]), Taken(s, steps[0]), next.queue,
              AllTaken(next, steps[1..]), s'.queue);
    }
  }

  lemma QueueMoves(s: State, step: Step)
    requires Enabled(s, step)
    ensures s.queue + Queued(s, step) == Taken(s, step) + Do(s, step).queue
  {
    if step.Take? {
      assert s.queue == [s.queue[0]] + s.queue[1..];
    }
  }

  lemma Regroup(q: seq<Task>, a: seq<Task>, b: seq<Task>, c: seq<Task>, r: seq<Task>, d: seq<Task>, z: seq<Task>)
    requires q + a == c + r && r + b == d + z
    ensures q + (a + b) == (c + d) + z
  {
    assert q + (a + b) == (q + a) + b;
    assert (c + d) + z == c + (d + z);
    assert (c + r) + b == c + (r + b);
  }

  // ----- the shutdown ends -----

  /** What a goroutine can still do once the flag is set. */
  function Work(r: Runner): nat {
    match r.phase
    case Gone => 0
    case Receiving => 1
    case Finished => 2
    case Failed(_, _) => 3
    case Attempt(_, _) => 4
    case Pending(_, _) => 5
    case Added(_, _) => 8
    case Cleared(_, _) => 9
  }

  function Remaining(s: State): nat {
    Sum(s.runners, Work) + 4 * |s.queue|
  }

  /** Under the flag every step of a goroutine gets nearer to the end ... */
  lemma ShutdownProgresses(s: State, step: Step)
    requires s.shutdown && Enabled(s, step)
    ensures IsRunnerStep(step) ==> Remaining(Do(s, step)) < Remaining(s)
    ensures !IsRunnerStep(step) ==> Remaining(Do(s, step)) == Remaining(s)
    ensures Do(s, step).shutdown
  {
    if IsRunnerStep(step) {
      StepMovesSum(s, step, Work);
      StepMovesWork(s, step);
    }
  }

  lemma StepMovesWork(s: State, step: Step)
    requires s.shutdown && Enabled(s, step) && IsRunnerStep(step) && step.r < |Do(s, step).runners|
    ensures Work(Do(s, step).runners[step.r]) + (if step.Schedule? then 5 else 0) + 4 * |Do(s, step).queue|
            < Work(s.runners[step.r]) + 4 * |s.queue|
  {
  }

  /** ... and while Stop waits, some goroutine can take one. */
  lemma ShutdownIsNeverStuck(s: State) returns (step: Step)
    requires Inv(s) && s.stop.Waiting? && s.counter > 0
    ensures IsRunnerStep(step) && Enabled(s, step)
  {
    var r := LiveRunner(s.runners);
    var p := s.runners[r].phase;
    assert RunnerOk(s, s.runners[r]);
    step := match p
      case Receiving => if s.queue == [] then Exit(r) else Take(r)
      case Attempt(_, _) => Perform(r, true)
      case Failed(_, _) => CheckFlag(r)
      case Cleared(_, _) => CheckTries(r)
      case Added(_, _) => Schedule(r)
      case Pending(_, _) => Fire(r)
      case _ => Finish(r);
  }

  lemma {:induction false} LiveRunner(rs: seq<Runner>) returns (r: nat)
    requires Sum(rs, Units) > 0
    ensures r < |rs| && !rs[r].phase.Gone?
  {
    if rs[|rs| - 1].phase.Gone? {
      r := LiveRunner(rs[..|rs| - 1]);
    } else {
      r := |rs| - 1;
    }
  }

  function RunnerSteps(steps: seq<Step>): nat {
    if steps == [] then 0 else (if IsRunnerStep(steps[0]) then 1 else 0) + RunnerSteps(steps[1..])
  }

  /** So Stop returns: after the flag only so many steps of goroutines are left. */
  lemma {:induction false} ShutdownIsBounded(s: State, steps: seq<Step>, s': State)
    requires s.shutdown && Leads(s, steps, s')
    ensures RunnerSteps(steps) + Remaining(s') <= Remaining(s)
    decreases |steps|
  {
    if steps != [] {
      ShutdownProgresses(s, steps[0]);
      ShutdownIsBounded(Do(s, steps[0]), steps[1..], s');
    }
  }
}
