/**
 The launch task: steps are started one after the other, and at the end the started ones are finalized in reverse.

 Steps report back through callbacks; an execution is a sequence of such events. What a step does is not modelled,
 only when it is started, whether it succeeds, and when it is finalized.
 */
module LaunchTasks {
  import opened Text

  datatype State = NotStarted | Running | Waiting | Failed | Aborted | Finished

  /** What the launch does to its steps and to the outside. */
  datatype Action = Start(step: nat) | Finalize(step: nat) | Succeeded | FailedWith | AbortedByUser

  /**
   Callbacks and calls: the launch is started, where the current step, if there is one, was successful or not; step
   `step` has finished; the current step is ready or reports progress; the user proceeds; the user aborts, where the
   step can abort or not and does abort or not.
   */
  datatype Event =
    | Launch(wasSuccessful: bool)
    | StepFinished(step: nat, successful: bool)
    | Ready
    | Proceed
    | Abort(canAbort: bool, aborted: bool)

  // ---------- The actions of finalization ----------

  /** Finalizing steps k, k - 1, ..., 0. */
  function FinalizeDown(k: int): seq<Action>
    decreases k + 1
  {
    if k < 0 then [] else [Finalize(k)] + FinalizeDown(k - 1)
  }

  function EndSignal(successful: bool): Action {
    if successful then Succeeded else FailedWith
  }

  // ---------- The object ----------

  class LaunchTask {
    const stepCount: nat
    var currentStep: int
    var state: State
    var active: bool    // whether the base class regards the launch as running
    var running: bool   // the instance's running flag
    var crashed: bool   // the instance's crashed flag
    var actions: seq<Action>

    constructor (stepCount: nat, crashedBefore: bool)
      ensures this.stepCount == stepCount && Value() == Created(crashedBefore)
    {
      this.stepCount := stepCount;
      currentStep, state, active, running, crashed, actions := -1, NotStarted, false, true, crashedBefore, [];
    }

    ghost function Value(): Task
      reads this
    {
      Task(currentStep, state, active, running, crashed, actions)
    }

    /** Starting does nothing while the launch runs. `wasSuccessful` is the outcome of the current step, if any. */
    method Launch(wasSuccessful: bool)
      requires -1 <= currentStep < stepCount
      modifies this
      ensures Value() == Launched(stepCount, old(Value()), wasSuccessful)
    {
      if active {
        return;
      }
      active := true;
      ExecuteTask(wasSuccessful);
    }

    method ExecuteTask(wasSuccessful: bool)
      requires -1 <= currentStep < stepCount
      modifies this
      ensures Value() == Executed(stepCount, old(Value()), wasSuccessful)
    {
      crashed := false;
      if stepCount == 0 {
        state := Finished;
        EmitSucceeded();
        return;
      }
      state := Running;
      OnStepFinished(wasSuccessful);
    }

    /** The base class signals an end only while it regards the launch as running. */
    method Signal(action: Action)
      modifies this`active, this`actions
      ensures Value() == Signalled(old(Value()), action)
    {
      if !active {
        return;
      }
      active := false;
      actions := actions + [action];
    }

    method EmitSucceeded()
      modifies this
      ensures Value() == Signalled(old(Value()).(running := false), Succeeded)
    {
      running := false;
      Signal(Succeeded);
    }

    method EmitFailed()
      modifies this
      ensures Value() == Signalled(old(Value()).(running := false, crashed := true), FailedWith)
    {
      running := false;
      crashed := true;
      Signal(FailedWith);
    }

    /** `successful` is the outcome of the current step, if there is one. */
    method OnStepFinished(successful: bool)
      requires -1 <= currentStep < stepCount
      modifies this
      ensures Value() == Stepped(stepCount, old(Value()), successful)
    {
      if currentStep == -1 {
        currentStep := currentStep + 1;
        actions := actions + [Start(currentStep)];
        return;
      }
      if successful {
        if currentStep == stepCount - 1 {
          FinalizeSteps(true);
        } else {
          currentStep := currentStep + 1;
          actions := actions + [Start(currentStep)];
        }
      } else {
        FinalizeSteps(false);
      }
    }

    method FinalizeSteps(successful: bool)
      requires 0 <= currentStep < stepCount
      modifies this
      ensures Value() == Ended(old(Value()), successful)
    {
      var step := currentStep;
      while step >= 0
        invariant -1 <= step <= currentStep
        invariant Value() == old(Value()).(actions := actions)
        invariant actions + FinalizeDown(step) == old(actions) + FinalizeDown(currentStep)
      {
        assert FinalizeDown(step) == [Finalize(step)] + FinalizeDown(step - 1);
        AppendAssociative(actions, [Finalize(step)], FinalizeDown(step - 1));
        actions := actions + [Finalize(step)];
        step := step - 1;
      }
      assert actions + [] == actions;
      if successful {
        EmitSucceeded();
      } else {
        EmitFailed();
      }
    }

    /** The current step is ready, or asks for its progress to be shown. */
    method OnReady()
      modifies this`state
      ensures Value() == React(stepCount, old(Value()), Ready)
    {
      state := Waiting;
    }

    /** Passes the user's word on to the step that is current, while the launch waits. */
    method DoProceed() returns (told: Option<int>)
      ensures told == Told(Value())
      ensures Value() == React(stepCount, Value(), Proceed)
    {
      if state != Waiting {
        return None;
      }
      told := Some(currentStep);
    }

    /** Aborting; `canAbort` and `aborts` are the current step's answers. */
    method DoAbort(canAbort: bool, aborts: bool) returns (ok: bool)
      modifies this
      ensures Value() == AbortAnswered(old(Value()), canAbort, aborts)
      ensures ok <==> old(state) !in {Running, Waiting} || (canAbort && aborts)
    {
      match state {
        case Aborted | Failed | Finished =>
          return true;
        case NotStarted =>
          state := Aborted;
          Signal(AbortedByUser);
          return true;
        case Running | Waiting =>
          if !canAbort {
            return false;
          }
          if aborts {
            state := Aborted;
            return true;
          }
          return false;
      }
    }
  }

  // ---------- The object's states as values ----------

  datatype Task = Task(currentStep: int, state: State, active: bool, running: bool, crashed: bool, actions: seq<Action>)

  function Created(crashedBefore: bool): Task {
    Task(-1, NotStarted, false, true, crashedBefore, [])
  }

  function Launched(n: nat, t: Task, wasSuccessful: bool): Task {
    if t.active then t else Executed(n, t.(active := true), wasSuccessful)
  }

  function Executed(n: nat, t: Task, wasSuccessful: bool): Task {
    if n == 0 then Signalled(t.(state := Finished, running := false, crashed := false), Succeeded)
    else Stepped(n, t.(state := Running, crashed := false), wasSuccessful)
  }

  function Signalled(t: Task, action: Action): Task {
    if t.active then t.(active := false, actions := t.actions + [action]) else t
  }

  function Ended(t: Task, successful: bool): Task {
    var finalized := t.(actions := t.actions + FinalizeDown(t.currentStep));
    Signalled(finalized.(running := false, crashed := !successful || t.crashed), EndSignal(successful))
  }

  function Stepped(n: nat, t: Task, successful: bool): Task {
    if t.currentStep == -1 || (successful && t.currentStep != n - 1)
    then
      var next := if t.currentStep >= -1 then t.currentStep + 1 else 0;
      t.(currentStep := t.currentStep + 1, actions := t.actions + [Start(next)])
    else Ended(t, successful)
  }

  function AbortAnswered(t: Task, canAbort: bool, aborts: bool): Task {
    if t.state == NotStarted then Signalled(t.(state := Aborted), AbortedByUser)
    else if (t.state == Running || t.state == Waiting) && canAbort && aborts then t.(state := Aborted)
    else t
  }

  /** The step that the user's word to proceed reaches. */
  function Told(t: Task): Option<int> {
    if t.state == Waiting then Some(t.currentStep) else None
  }

  function React(n: nat, t: Task, e: Event): Task {
    match e
    case Launch(wasSuccessful) => Launched(n, t, wasSuccessful)
    case StepFinished(_, successful) => Stepped(n, t, successful)
    case Ready => t.(state := Waiting)
    case Proceed => t
    case Abort(canAbort, aborted) => AbortAnswered(t, canAbort, aborted)
  }

  // ---------- Runs ----------

  /** How far a run has come: the launch, the steps that have finished, and with success, and the number of starts. */
  datatype Progress = Progress(task: Task, finished: set<nat>, successful: set<nat>, starts: nat)

  /** A call that starts a running launch does not count as a start. */
  function Advance(n: nat, r: Progress, e: Event): Progress {
    Progress(React(n, r.task, e),
             r.finished + (if e.StepFinished? then {e.step} else {}),
             r.successful + (if e.StepFinished? && e.successful then {e.step} else {}),
             r.starts + if e.Launch? && !r.task.active then 1 else 0)
  }

  /** The run after the launch was created and the first k events happened. */
  function After(n: nat, crashedBefore: bool, events: seq<Event>, k: nat): Progress
    requires k <= |events|
  {
    if k == 0 then Progress(Created(crashedBefore), {}, {}, 0)
    else Advance(n, After(n, crashedBefore, events, k - 1), events[k - 1])
  }

  function AtEnd(n: nat, crashedBefore: bool, events: seq<Event>): Progress {
    After(n, crashedBefore, events, |events|)
  }

  /**
   What steps do: each finishes at most once, and only after it was started; none speaks up before the first one was
   started; and the current one says truly whether it was successful.
   */
  ghost predicate ValidEvent(r: Progress, e: Event) {
    var current := r.task.currentStep;
    match e
    case Launch(wasSuccessful) => current >= 0 ==> (wasSuccessful <==> current in r.successful)
    case StepFinished(step, _) => step !in r.finished && Start(step) in r.task.actions
    case Ready => Start(0) in r.task.actions
    case Proceed => true
    case Abort(_, _) => true
  }

  ghost predicate ValidRun(n: nat, crashedBefore: bool, events: seq<Event>) {
    forall k :: 0 <= k < |events| ==> ValidAt(n, crashedBefore, events, k)
  }

  ghost predicate ValidAt(n: nat, crashedBefore: bool, events: seq<Event>, k: nat)
    requires k < |events|
  {
    ValidEvent(After(n, crashedBefore, events, k), events[k])
  }

  /** Starting steps 0, ..., k. */
  function StartUp(k: int): seq<Action>
    decreases k + 1
  {
    if k < 0 then [] else StartUp(k - 1) + [Start(k)]
  }

  /** A step has finished when it comes before the current one, and the current one has when the launch is over. */
  predicate IsDone(s: nat, current: int, over: bool) {
    s < current || (over && s == current)
  }

  ghost predicate AllDone(finished: set<nat>, current: int, over: bool) {
    forall s: nat :: s in finished <==> IsDone(s, current, over)
  }

  /** A run with the given outcome, up to its end. */
  function WholeRun(current: int, successful: bool): seq<Action> {
    StartUp(current) + FinalizeDown(current) + [EndSignal(successful)]
  }

  /** What starting the launch again does when it has ended: the end once more, r times. */
  function Repeats(current: int, successful: bool, r: nat): seq<Action> {
    if r == 0 then [] else Repeats(current, successful, r - 1) + (FinalizeDown(current) + [EndSignal(successful)])
  }

  /** Nothing has happened yet, whether or not the launch was aborted. */
  ghost predicate NotLaunched(t: Task, finished: set<nat>) {
    && t.currentStep == -1 && !t.active && t.running && t.actions == []
    && t.state in {NotStarted, Aborted} && finished == {}
  }

  /** Steps 0..currentStep were started and only the last is still running. */
  ghost predicate IsRunning(n: nat, t: Task, finished: set<nat>) {
    && 0 <= t.currentStep < n && t.running && !t.crashed
    && t.actions == StartUp(t.currentStep) && AllDone(finished, t.currentStep, false)
  }

  /** Everything was finalized and signalled, `starts` times. */
  ghost predicate HasEnded(n: nat, r: Progress) {
    var t := r.task;
    && -1 <= t.currentStep < n && (t.currentStep == -1 <==> n == 0) && !t.running && r.starts > 0
    && t.actions == WholeRun(t.currentStep, !t.crashed) + Repeats(t.currentStep, !t.crashed, r.starts - 1)
    && AllDone(r.finished, t.currentStep, true) && (!t.crashed ==> t.currentStep == n - 1)
    && (n > 0 ==> (t.currentStep in r.successful <==> !t.crashed)) && (n == 0 ==> !t.crashed && t.state != Waiting)
  }

  ghost predicate Invariant(n: nat, r: Progress) {
    && r.successful <= r.finished
    && (r.starts > 0 ==> r.task.state != NotStarted)
    && if r.starts == 0 then NotLaunched(r.task, r.finished)
       else if r.task.active then r.starts == 1 && IsRunning(n, r.task, r.finished)
       else HasEnded(n, r)
  }

  lemma {:induction false} StartedSteps(k: int, s: nat)
    requires k >= -1
    ensures Start(s) in StartUp(k) <==> s <= k
    decreases k + 1
  {
    if k >= 0 {
      StartedSteps(k - 1, s);
    }
  }

  lemma {:induction false} FinalizedSteps(k: int, s: nat)
    requires k >= -1
    ensures Start(s) !in FinalizeDown(k)
    decreases k + 1
  {
    if k >= 0 {
      FinalizedSteps(k - 1, s);
    }
  }

  lemma {:induction false} RunKeepsInvariant(n: nat, crashedBefore: bool, events: seq<Event>, k: nat)
    requires ValidRun(n, crashedBefore, events) && k <= |events|
    ensures Invariant(n, After(n, crashedBefore, events, k))
  {
    if k == 0 {
    } else {
      RunKeepsInvariant(n, crashedBefore, events, k - 1);
      assert ValidAt(n, crashedBefore, events, k - 1);
      StepKeepsInvariant(n, After(n, crashedBefore, events, k - 1), events[k - 1]);
    }
  }

  lemma StepKeepsInvariant(n: nat, r: Progress, e: Event)
    requires Invariant(n, r) && ValidEvent(r, e)
    ensures Invariant(n, Advance(n, r, e))
  {
    assert r.finished + {} == r.finished && r.successful + {} == r.successful;
    match e {
      case Launch(_) => LaunchKeepsInvariant(n, r, e);
      case StepFinished(_, _) => FinishKeepsInvariant(n, r, e);
      case Ready => StartOnlyAfterLaunch(n, r, 0);
      case Proceed =>
      case Abort(_, _) =>
    }
  }

  lemma StartOnlyAfterLaunch(n: nat, r: Progress, s: nat)
    requires Invariant(n, r) && Start(s) in r.task.actions
    ensures r.starts > 0 && n > 0 && s <= r.task.currentStep
  {
    var t := r.task;
    if r.starts > 0 {
      StartedSteps(t.currentStep, s);
      FinalizedSteps(t.currentStep, s);
      if !t.active {
        RepeatedSteps(t.currentStep, !t.crashed, r.starts - 1, s);
      }
    }
  }

  lemma {:induction false} RepeatedSteps(k: int, successful: bool, r: nat, s: nat)
    requires k >= -1
    ensures Start(s) !in Repeats(k, successful, r)
  {
    FinalizedSteps(k, s);
    if r > 0 {
      RepeatedSteps(k, successful, r - 1, s);
    }
  }

  /** A first start begins the run; one after the end repeats the end; one in between does nothing. */
  lemma LaunchKeepsInvariant(n: nat, r: Progress, e: Event)
    requires Invariant(n, r) && e.Launch? && ValidEvent(r, e)
    ensures Invariant(n, Advance(n, r, e))
  {
    var t := r.task;
    assert r.finished + {} == r.finished && r.successful + {} == r.successful;
    if r.starts == 0 {
      assert StartUp(-1) == [] && FinalizeDown(-1) == [] && Repeats(-1, true, 0) == [];
      assert [] + [Start(0)] == StartUp(0);
      assert [] + [Succeeded] == WholeRun(-1, true) + [];
    } else if !t.active {
      var again := FinalizeDown(t.currentStep) + [EndSignal(!t.crashed)];
      assert FinalizeDown(-1) == [];
      AppendAssociative(t.actions, FinalizeDown(t.currentStep), [EndSignal(!t.crashed)]);
      AppendAssociative(WholeRun(t.currentStep, !t.crashed), Repeats(t.currentStep, !t.crashed, r.starts - 1), again);
      assert [] + [Succeeded] == [Succeeded];
    }
  }

  /** A finishing step is always the current one, and nothing finishes after the end. */
  lemma FinishKeepsInvariant(n: nat, r: Progress, e: Event)
    requires Invariant(n, r) && e.StepFinished? && ValidEvent(r, e)
    ensures Invariant(n, Advance(n, r, e))
  {
    var t := r.task;
    StartOnlyAfterLaunch(n, r, e.step);
    assert t.active && e.step == t.currentStep;
    assert AllDone(r.finished + {e.step}, t.currentStep, true);
    assert AllDone(r.finished + {e.step}, t.currentStep + 1, false);
    assert WholeRun(t.currentStep, e.successful) + [] == WholeRun(t.currentStep, e.successful);
  }

  // ---------- What every run guarantees ----------

  ghost predicate Guaranteed(n: nat, t: Task, starts: nat) {
    && (starts == 0 ==> t.running && t.actions == [])
    && (starts > 0 && t.running ==> starts == 1 && t.actions == StartUp(t.currentStep) && !t.crashed)
    && (!t.running ==>
          && starts > 0 && (!t.crashed ==> t.currentStep == n - 1)
          && t.actions == WholeRun(t.currentStep, !t.crashed) + Repeats(t.currentStep, !t.crashed, starts - 1))
  }

  /**
   Before the first start nothing is done, though the launch may be aborted. While the launch runs, the steps up to the
   current one were started. After its end those were finalized in reverse before one end signal; each further start
   only finalizes them again, in the same order, and repeats the signal.
   */
  lemma RunGuarantees(n: nat, crashedBefore: bool, events: seq<Event>)
    requires ValidRun(n, crashedBefore, events)
    ensures var r := AtEnd(n, crashedBefore, events); Guaranteed(n, r.task, r.starts)
  {
    RunKeepsInvariant(n, crashedBefore, events, |events|);
  }

  /** In particular, when the launch was started once: all starts, all finalizations, one signal. */
  lemma StartedOnce(n: nat, crashedBefore: bool, events: seq<Event>)
    requires ValidRun(n, crashedBefore, events) && AtEnd(n, crashedBefore, events).starts == 1
    ensures var t := AtEnd(n, crashedBefore, events).task;
            t.actions == if t.running then StartUp(t.currentStep) else WholeRun(t.currentStep, !t.crashed)
  {
    RunGuarantees(n, crashedBefore, events);
    var t := AtEnd(n, crashedBefore, events).task;
    assert WholeRun(t.currentStep, !t.crashed) + [] == WholeRun(t.currentStep, !t.crashed);
  }

  /**
   Aborting a launch that runs, when its step lets itself be aborted: the launch is aborted at once and does not wait
   any more, but goes on running until the step has finished; when it finishes as failed, so does the launch, after
   finalizing its steps, and marks the instance as crashed.
   */
  lemma AbortWhileRunning(n: nat, crashedBefore: bool, events: seq<Event>)
    requires ValidRun(n, crashedBefore, events) && AtEnd(n, crashedBefore, events).task.active
    requires AtEnd(n, crashedBefore, events).task.state in {Running, Waiting}
    ensures var t := AtEnd(n, crashedBefore, events).task;
            var aborted := React(n, t, Abort(true, true));
            && aborted == t.(state := Aborted) && Told(aborted) == None
            && React(n, t, Abort(false, true)) == t && React(n, t, Abort(true, false)) == t
            && (forall canAbort, aborts :: React(n, aborted, Abort(canAbort, aborts)) == aborted)
            && 0 <= t.currentStep
            && var end := React(n, aborted, StepFinished(t.currentStep, false));
               end.actions == WholeRun(t.currentStep, false) && end.crashed && !end.running && end.state == Aborted
  {
    RunKeepsInvariant(n, crashedBefore, events, |events|);
  }

  /**
   While the launch runs, the user's word reaches a started step that has not finished. After the end a launch that was
   waiting still waits, and the word reaches a step that has finished and was finalized.
   */
  lemma ToldStep(n: nat, crashedBefore: bool, events: seq<Event>)
    requires ValidRun(n, crashedBefore, events)
    ensures var r := AtEnd(n, crashedBefore, events);
            var told := Told(r.task);
            told.Some? ==>
              && told.value >= 0 && Start(told.value) in r.task.actions
              && (told.value in r.finished <==> !r.task.running)
  {
    RunKeepsInvariant(n, crashedBefore, events, |events|);
    var t := AtEnd(n, crashedBefore, events).task;
    if t.currentStep >= 0 {
      StartedSteps(t.currentStep, t.currentStep);
      assert IsDone(t.currentStep, t.currentStep, true) && !IsDone(t.currentStep, t.currentStep, false);
    }
  }

  /** A run of one step that gets ready and finishes: proceeding afterwards still reaches the step. */
  lemma ToldAfterEnd(crashedBefore: bool)
    ensures var events := [Launch(false), Ready, StepFinished(0, true)];
            var t := AtEnd(1, crashedBefore, events).task;
            ValidRun(1, crashedBefore, events) && !t.running && Told(t) == Some(0)
  {
    var events := [Launch(false), Ready, StepFinished(0, true)];
    var r := After(1, crashedBefore, events, 1);
    assert After(1, crashedBefore, events, 0) == Progress(Created(crashedBefore), {}, {}, 0);
    assert r == Progress(Task(0, Running, true, true, false, [] + [Start(0)]), {}, {}, 1);
    assert After(1, crashedBefore, events, 2) == r.(task := r.task.(state := Waiting));
    assert Start(0) in r.task.actions;
  }

  /** A run of one step that finishes, after which the launch is started again: the step is only finalized again. */
  lemma StartedAgain(crashedBefore: bool)
    ensures var events := [Launch(false), StepFinished(0, true), Launch(true)];
            && ValidRun(1, crashedBefore, events)
            && AtEnd(1, crashedBefore, events).task.actions ==
               [Start(0), Finalize(0), Succeeded, Finalize(0), Succeeded]
  {
    var events := [Launch(false), StepFinished(0, true), Launch(true)];
    var r := After(1, crashedBefore, events, 1);
    assert After(1, crashedBefore, events, 0) == Progress(Created(crashedBefore), {}, {}, 0);
    assert r == Progress(Task(0, Running, true, true, false, [] + [Start(0)]), {}, {}, 1);
    assert Start(0) in r.task.actions;
    var end := After(1, crashedBefore, events, 2);
    assert FinalizeDown(0) == [Finalize(0)] + FinalizeDown(-1) && FinalizeDown(-1) == [];
    assert end.task == Task(0, Running, false, false, false, [Start(0), Finalize(0), Succeeded]);
    assert 0 in end.successful;
  }

  /** The run with an abort put in front of it. */
  function AbortedFirst(canAbort: bool, aborts: bool, events: seq<Event>): seq<Event> {
    [Abort(canAbort, aborts)] + events
  }

  /** Only a launch that was not started shows that it was aborted before. */
  function Shown(r: Progress): Progress {
    if r.starts == 0 then r.(task := r.task.(state := Aborted)) else r
  }

  /** An abort before the start leaves nothing behind but the state that is shown until the launch is started. */
  lemma {:induction false} AbortLeavesNothing(n: nat, crashedBefore: bool, canAbort: bool, aborts: bool,
                                              events: seq<Event>, k: nat)
    requires ValidRun(n, crashedBefore, events) && k <= |events|
    ensures After(n, crashedBefore, AbortedFirst(canAbort, aborts, events), k + 1) ==
            Shown(After(n, crashedBefore, events, k))
  {
    var run := AbortedFirst(canAbort, aborts, events);
    if k == 0 {
      assert After(n, crashedBefore, run, 0) == Progress(Created(crashedBefore), {}, {}, 0);
    } else {
      AbortLeavesNothing(n, crashedBefore, canAbort, aborts, events, k - 1);
      RunKeepsInvariant(n, crashedBefore, events, k - 1);
      assert run[k] == events[k - 1] && ValidAt(n, crashedBefore, events, k - 1);
      AbortedAdvances(n, After(n, crashedBefore, events, k - 1), events[k - 1]);
    }
  }

  lemma AbortedAdvances(n: nat, r: Progress, e: Event)
    requires Invariant(n, r) && ValidEvent(r, e)
    ensures Advance(n, Shown(r), e) == Shown(Advance(n, r, e))
  {}

  /**
   An abort before the start answers yes, but signals nothing, and any run can go on after it, in which the launch does
   and ends up with exactly what it would without the abort, once it was started.
   */
  lemma AbortBeforeStart(n: nat, crashedBefore: bool, canAbort: bool, aborts: bool, events: seq<Event>)
    requires ValidRun(n, crashedBefore, events)
    ensures var run := AbortedFirst(canAbort, aborts, events);
            var aborted, plain := AtEnd(n, crashedBefore, run), AtEnd(n, crashedBefore, events);
            && ValidRun(n, crashedBefore, run)
            && aborted.task.actions == plain.task.actions && (plain.starts > 0 ==> aborted == plain)
            && Guaranteed(n, aborted.task, aborted.starts)
  {
    var run := AbortedFirst(canAbort, aborts, events);
    AbortLeavesNothing(n, crashedBefore, canAbort, aborts, events, |events|);
    forall k | 0 <= k < |run| ensures ValidAt(n, crashedBefore, run, k) {
      if k > 0 {
        AbortLeavesNothing(n, crashedBefore, canAbort, aborts, events, k - 1);
        assert run[k] == events[k - 1] && ValidAt(n, crashedBefore, events, k - 1);
      }
    }
    RunGuarantees(n, crashedBefore, run);
  }

  function ReverseStarts(started: seq<Action>): seq<Action> {
    if started == [] then []
    else (if started[|started| - 1].Start? then [Finalize(started[|started| - 1].step)] else [])
         + ReverseStarts(started[..|started| - 1])
  }

  /** Finalization visits exactly the started steps, in the opposite order. */
  lemma {:induction false} FinalizedInReverse(k: int)
    requires k >= -1
    ensures FinalizeDown(k) == ReverseStarts(StartUp(k))
    decreases k + 1
  {
    if k >= 0 {
      FinalizedInReverse(k - 1);
      assert StartUp(k)[..|StartUp(k)| - 1] == StartUp(k - 1);
    }
  }
}
