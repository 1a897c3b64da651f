/**
 Starting and stopping the timer: the API handlers, each taken as one atomic step, interleaved with
 the steps of the timer tasks they create.
 */
module TimerControl {
  import opened Bytes

  type TaskId = nat

  /** Where a timer task is. */
  datatype Phase =
    | Waiting    // the pin is low: before the first exposure, or between two
    | Exposing   // the pin is high
    | Finished   // the last exposure is over, before s_TimerTaskHandle is cleared
    | Cleared    // ... and after, before the task deletes itself

  datatype State = State(handle: Option<TaskId>, tasks: map<TaskId, Phase>, pin: bool, startSemaphore: bool, stopSemaphore: bool)

  datatype Step =
    | Start(task: TaskId, parsed: bool, created: bool)
    | Stop
    | RaisePin(task: TaskId)
    | LowerPin(task: TaskId, last: bool)
    | ClearHandle(task: TaskId)
    | Exit(task: TaskId)

  predicate At(s: State, task: TaskId, phase: Phase) {
    task in s.tasks && s.tasks[task] == phase
  }

  predicate Enabled(s: State, step: Step) {
    match step
    case Start(task, _, _) => task !in s.tasks
    case Stop => true
    case RaisePin(task) => At(s, task, Waiting)
    case LowerPin(task, _) => At(s, task, Exposing)
    case ClearHandle(task) => At(s, task, Finished)
    case Exit(task) => At(s, task, Cleared)
  }

  /**
   The start branch: it takes the semaphore and tests the handle; all of its outcomes give the
   semaphore back, also when it was not taken.
   */
  function Started(s: State, task: TaskId, parsed: bool, created: bool): State {
    var t := s.(startSemaphore := true);
    if s.startSemaphore && s.handle.None? && parsed && created then
      t.(handle := Some(task), tasks := s.tasks[task := Waiting])
    else t
  }

  function Stopped(s: State): State {
    var t := s.(stopSemaphore := true);
    if s.stopSemaphore && s.handle.Some? then
      t.(tasks := s.tasks - {s.handle.value}, handle := None, pin := false)
    else t
  }

  function Apply(s: State, step: Step): State
    requires Enabled(s, step)
  {
    match step
    case Start(task, parsed, created) => Started(s, task, parsed, created)
    case Stop => Stopped(s)
    case RaisePin(task) => s.(tasks := s.tasks[task := Exposing], pin := true)
    case LowerPin(task, last) => s.(tasks := s.tasks[task := if last then Finished else Waiting], pin := false)
    case ClearHandle(task) => s.(tasks := s.tasks[task := Cleared], handle := None)
    case Exit(task) => s.(tasks := s.tasks - {task})
  }

  /** main_task has given both semaphores. */
  const INITIAL := State(None, map[], false, true, true)

  function Run(steps: seq<Step>): Option<State> {
    if steps == [] then Some(INITIAL)
    else
      match Run(steps[..|steps| - 1])
      case None => None
      case Some(t) =>
        var step := steps[|steps| - 1];
        if Enabled(t, step) then Some(Apply(t, step)) else None
  }

  /** A task that may still write to the pin. */
  predicate Live(s: State, task: TaskId) {
    task in s.tasks && s.tasks[task] != Cleared
  }

  ghost predicate Inv(s: State) {
    && (forall task: TaskId :: Live(s, task) <==> s.handle == Some(task))
    && (s.pin <==> exists task :: At(s, task, Exposing))
    && s.startSemaphore && s.stopSemaphore
  }

  lemma StepKeepsInv(s: State, step: Step)
    requires Inv(s) && Enabled(s, step)
    ensures Inv(Apply(s, step))
  {
    var t := Apply(s, step);
    if step.RaisePin? {
      assert Live(s, step.task) && At(t, step.task, Exposing);
    } else if step.LowerPin? {
      assert Live(s, step.task);
      assert forall task :: At(t, task, Exposing) ==> Live(s, task);
    } else if step.Stop? && s.handle.Some? {
      assert Live(s, s.handle.value);
      assert forall task :: At(t, task, Exposing) ==> Live(s, task);
    } else if step.ClearHandle? {
      assert Live(s, step.task);
    }
    assert forall task :: At(t, task, Exposing) ==> Live(t, task);
    assert !step.RaisePin? ==> forall task :: At(t, task, Exposing) ==> At(s, task, Exposing);
    assert !step.LowerPin? && !step.Stop? ==> forall task :: At(s, task, Exposing) ==> At(t, task, Exposing);
  }

  lemma {:induction false} RunKeepsInv(steps: seq<Step>)
    requires Run(steps).Some?
    ensures Inv(Run(steps).value)
  {
    if steps != [] {
      RunKeepsInv(steps[..|steps| - 1]);
      StepKeepsInv(Run(steps[..|steps| - 1]).value, steps[|steps| - 1]);
    }
  }

  /**
   In every state that requests and tasks can lead to, at most one task can still drive the pin, it
   is the one that the next stop request would delete, and the pin is low unless it is exposing.
   */
  lemma OneTaskDrivesThePin(steps: seq<Step>)
    requires Run(steps).Some?
    ensures var s := Run(steps).value;
            && (forall a: TaskId, b: TaskId :: Live(s, a) && Live(s, b) ==> a == b)
            && (forall a: TaskId :: Live(s, a) ==> s.handle == Some(a))
            && (s.pin ==> s.handle.Some? && At(s, s.handle.value, Exposing))
  {
    RunKeepsInv(steps);
    var s := Run(steps).value;
    if s.pin {
      var task :| At(s, task, Exposing);
      assert Live(s, task);
    }
  }

  /** Stopping is final until the next start: no task is left that could raise the pin. */
  lemma StopReleasesTheShutter(steps: seq<Step>, task: TaskId)
    requires Run(steps).Some?
    ensures var s := Apply(Run(steps).value, Stop);
            !s.pin && s.handle.None? && !Enabled(s, RaisePin(task)) && !Enabled(s, LowerPin(task, true))
  {
    RunKeepsInv(steps);
    StepKeepsInv(Run(steps).value, Stop);
    var s := Apply(Run(steps).value, Stop);
    assert !Live(s, task);
    assert forall other :: At(s, other, Exposing) ==> Live(s, other);
  }

  /**
   A start request has an effect exactly if its settings can be parsed, the task can be created and no
   task is live: the new task is then waiting to expose, and is the one to be stopped.  Otherwise
   nothing changes.
   */
  lemma StartsIffIdle(steps: seq<Step>, task: TaskId, parsed: bool, created: bool)
    requires Run(steps).Some? && task !in Run(steps).value.tasks
    ensures var s := Run(steps).value;
            var (step, idle) := (Start(task, parsed, created), forall other: TaskId :: !Live(s, other));
            && Enabled(s, step)
            && var t := Apply(s, step);
               && (At(t, task, Waiting) && t.handle == Some(task) <==> parsed && created && idle)
               && (if parsed && created && idle then t.tasks == s.tasks[task := Waiting] && t.pin == s.pin else t == s)
  {
    RunKeepsInv(steps);
    var s := Run(steps).value;
    if s.handle.Some? {
      assert Live(s, s.handle.value);
    }
  }

  /** What the steps of a task do: the pin follows its exposures, and at its end it lets go of everything. */
  lemma TaskSteps(s: State, task: TaskId, last: bool)
    ensures At(s, task, Waiting) ==>
              var t := Apply(s, RaisePin(task)); t.pin && At(t, task, Exposing) && t.handle == s.handle
    ensures At(s, task, Exposing) ==>
              var t := Apply(s, LowerPin(task, last));
              !t.pin && At(t, task, if last then Finished else Waiting) && t.handle == s.handle
    ensures At(s, task, Finished) ==> var t := Apply(s, ClearHandle(task)); t.handle.None? && At(t, task, Cleared) && t.pin == s.pin
    ensures At(s, task, Cleared) ==> var t := Apply(s, Exit(task)); task !in t.tasks && t.handle == s.handle && t.pin == s.pin
  {
  }

  /** Every state the timer can get to, in one run and then another step. */
  lemma OneStepMore(steps: seq<Step>, step: Step)
    requires Run(steps).Some? && Enabled(Run(steps).value, step)
    ensures Run(steps + [step]) == Some(Apply(Run(steps).value, step))
  {
    assert (steps + [step])[..|steps|] == steps;
  }

  /**
   From an idle timer, a start request and one exposure of the task that it creates lead back to the
   very state before, with the pin high in between: nothing is left behind.
   */
  lemma OneExposureAndBack(steps: seq<Step>, task: TaskId)
    requires Run(steps).Some? && Run(steps).value.handle.None? && task !in Run(steps).value.tasks
    ensures var exposing := steps + [Start(task, true, true)] + [RaisePin(task)];
            Run(exposing).Some? && Run(exposing).value.pin && At(Run(exposing).value, task, Exposing)
    ensures Run(steps + [Start(task, true, true)] + [RaisePin(task)] + [LowerPin(task, true)] + [ClearHandle(task)] + [Exit(task)])
         == Run(steps)
  {
    var s := Run(steps).value;
    RunKeepsInv(steps);
    var a := steps + [Start(task, true, true)];
    var b, c := a + [RaisePin(task)], a + [RaisePin(task)] + [LowerPin(task, true)];
    OneStepMore(steps, Start(task, true, true));
    OneStepMore(a, RaisePin(task));
    OneStepMore(b, LowerPin(task, true));
    OneStepMore(c, ClearHandle(task));
    OneStepMore(c + [ClearHandle(task)], Exit(task));
    assert forall other :: At(s, other, Exposing) ==> Live(s, other);
    assert s.tasks[task := Waiting][task := Exposing][task := Finished][task := Cleared] - {task} == s.tasks;
  }

  /** Whatever goes on, a stop request and then a start request start a new task. */
  lemma RestartAlwaysWorks(steps: seq<Step>, task: TaskId)
    requires Run(steps).Some? && task !in Run(steps).value.tasks
    ensures var run := Run(steps + [Stop] + [Start(task, true, true)]);
            run.Some? && At(run.value, task, Waiting) && run.value.handle == Some(task) && !run.value.pin
  {
    OneStepMore(steps, Stop);
    StopReleasesTheShutter(steps, task);
    StartsIffIdle(steps + [Stop], task, true, true);
    OneStepMore(steps + [Stop], Start(task, true, true));
  }
}
