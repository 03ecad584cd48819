/**
  * The worker scheduler (scripts/worker-scheduler.ts): one cooperative loop per job and a shutdown signal. A step is
  * what runs between two awaits; steps of different loops and the signal handler interleave freely.
  */
module WorkerScheduler {

  type Job = nat

  /** Where a job's loop waits, or that it has returned. */
  datatype Loop =
    | Running(run: nat)    // awaiting the run
    | Finished(run: nat)   // the run has settled, the loop has not resumed yet
    | Sleeping             // awaiting the poll interval
    | Awake                // the sleep has elapsed or was aborted, the loop has not resumed yet
    | Stopped

  datatype Event = RunStarted(job: Job) | RunEnded(job: Job) | ShutdownRequested | WorkerStopped

  datatype State = State(
    loops: seq<Loop>,
    shuttingDown: bool,
    activeRuns: set<(Job, nat)>,
    started: seq<nat>,       // runs started so far, by job
    exited: bool,
    log: seq<Event>)

  datatype Action =
    | RunSettles(job: Job)
    | ResumeAfterRun(job: Job)
    | TimerFires(job: Job)
    | ResumeAfterSleep(job: Job)
    | Signal
    | Exit

  /** `main` has started every loop; each has run up to its first await. */
  function Initial(jobs: nat): State {
    State(seq(jobs, _ => Running(0)), false, set j: nat | 0 <= j < jobs :: (j, 0), seq(jobs, _ => 1), false,
          FirstStarts(jobs))
  }

  function FirstStarts(jobs: nat): seq<Event> {
    seq(jobs, j requires 0 <= j < jobs => RunStarted(j))
  }

  predicate AllStopped(loops: seq<Loop>) {
    forall j :: 0 <= j < |loops| ==> loops[j].Stopped?
  }

  predicate Enabled(s: State, a: Action) {
    !s.exited &&
    match a
    case RunSettles(j) => j < |s.loops| && s.loops[j].Running?
    case ResumeAfterRun(j) => j < |s.loops| && s.loops[j].Finished?
    case TimerFires(j) => j < |s.loops| && s.loops[j].Sleeping?
    case ResumeAfterSleep(j) => j < |s.loops| && s.loops[j].Awake?
    case Signal => true
    case Exit => AllStopped(s.loops)
  }

  /** `shutdownSignal.abort()`: every pending sleep settles. */
  function WakeAll(loops: seq<Loop>): (r: seq<Loop>)
    ensures |r| == |loops|
    ensures forall j :: 0 <= j < |loops| ==> r[j] == if loops[j].Sleeping? then Awake else loops[j]
  {
    seq(|loops|, j requires 0 <= j < |loops| => if loops[j].Sleeping? then Awake else loops[j])
  }

  /** The loop head: `while (!shuttingDown)` either starts the next run or returns. */
  function LoopHead(s: State, j: Job): State
    requires j < |s.loops| && j < |s.started|
  {
    if s.shuttingDown then s.(loops := s.loops[j := Stopped])
    else s.(loops := s.loops[j := Running(s.started[j])], activeRuns := s.activeRuns + {(j, s.started[j])},
            started := s.started[j := s.started[j] + 1], log := s.log + [RunStarted(j)])
  }

  function Apply(s: State, a: Action): State
    requires Enabled(s, a) && |s.started| == |s.loops|
  {
    match a
    case RunSettles(j) => s.(loops := s.loops[j := Finished(s.loops[j].run)], log := s.log + [RunEnded(j)])
    case ResumeAfterRun(j) =>
      s.(loops := s.loops[j := if s.shuttingDown then Stopped else Sleeping],
         activeRuns := s.activeRuns - {(j, s.loops[j].run)})
    case TimerFires(j) => s.(loops := s.loops[j := Awake])
    case ResumeAfterSleep(j) => LoopHead(s, j)
    case Signal =>
      if s.shuttingDown then s
      else s.(shuttingDown := true, loops := WakeAll(s.loops), log := s.log + [ShutdownRequested])
    case Exit => s.(exited := true, log := s.log + [WorkerStopped])
  }

  /** The states a schedule passes through. */
  ghost predicate IsExecution(states: seq<State>, actions: seq<Action>) {
    && |states| == |actions| + 1
    && (forall i :: 0 <= i < |states| ==> |states[i].started| == |states[i].loops|)
    && (forall i :: 0 <= i < |actions| ==> Enabled(states[i], actions[i]) && states[i + 1] == Apply(states[i], actions[i]))
  }

  // ----- the invariant -----

  ghost predicate IsActive(l: Loop) {
    l.Running? || l.Finished?
  }

  /** `activeRuns` holds the one current run of every loop that awaits one, and nothing else. */
  ghost predicate ActiveRunsMatch(s: State) {
    && |s.started| == |s.loops|
    && (forall j :: 0 <= j < |s.loops| && IsActive(s.loops[j]) ==>
          s.started[j] == s.loops[j].run + 1 && (j, s.loops[j].run) in s.activeRuns)
    && (forall p :: p in s.activeRuns ==> p.0 < |s.loops| && IsActive(s.loops[p.0]) && s.loops[p.0].run == p.1)
  }

  function Starts(log: seq<Event>, j: Job): nat {
    if log == [] then 0 else Starts(log[..|log| - 1], j) + if log[|log| - 1] == RunStarted(j) then 1 else 0
  }

  function Ends(log: seq<Event>, j: Job): nat {
    if log == [] then 0 else Ends(log[..|log| - 1], j) + if log[|log| - 1] == RunEnded(j) then 1 else 0
  }

  /** At every moment of the log the job has at most one run that started and did not end. */
  ghost predicate NeverOverlaps(log: seq<Event>, j: Job) {
    forall i :: 0 <= i <= |log| ==> 0 <= Starts(log[..i], j) - Ends(log[..i], j) <= 1
  }

  ghost predicate NoStartAfterShutdown(log: seq<Event>) {
    forall i, k :: 0 <= i < k < |log| && log[i].ShutdownRequested? ==> !log[k].RunStarted?
  }

  ghost predicate LogMatches(s: State) {
    && (forall j: nat :: NeverOverlaps(s.log, j)
          && Starts(s.log, j) - Ends(s.log, j) == if j < |s.loops| && s.loops[j].Running? then 1 else 0)
    && NoStartAfterShutdown(s.log)
    && (s.shuttingDown <==> ShutdownRequested in s.log)
    && (s.exited <==> WorkerStopped in s.log)
    && (forall i :: 0 <= i < |s.log| && s.log[i].WorkerStopped? ==> i == |s.log| - 1)
  }

  ghost predicate ShutdownMatches(s: State) {
    && (s.shuttingDown ==> forall j :: 0 <= j < |s.loops| ==> !s.loops[j].Sleeping?)
    && (forall j :: 0 <= j < |s.loops| && s.loops[j].Stopped? ==> s.shuttingDown)
    && (s.exited ==> AllStopped(s.loops))
  }

  ghost predicate Inv(s: State) {
    ActiveRunsMatch(s) && LogMatches(s) && ShutdownMatches(s)
  }

  // ----- every step keeps the invariant -----

  lemma {:induction false} LogGrows(log: seq<Event>, e: Event, j: Job)
    ensures Starts(log + [e], j) == Starts(log, j) + if e == RunStarted(j) then 1 else 0
    ensures Ends(log + [e], j) == Ends(log, j) + if e == RunEnded(j) then 1 else 0
  {
    assert (log + [e])[..|log|] == log;
  }

  lemma {:induction false} OverlapFreeLogGrows(log: seq<Event>, e: Event, j: Job)
    requires NeverOverlaps(log, j)
    requires e == RunStarted(j) ==> Starts(log, j) == Ends(log, j)
    requires e == RunEnded(j) ==> Starts(log, j) > Ends(log, j)
    ensures NeverOverlaps(log + [e], j)
  {
    LogGrows(log, e, j);
    assert log[..|log|] == log;
    forall i | 0 <= i <= |log| + 1
      ensures 0 <= Starts((log + [e])[..i], j) - Ends((log + [e])[..i], j) <= 1
    {
      if i <= |log| {
        assert (log + [e])[..i] == log[..i];
      } else {
        assert (log + [e])[..i] == log + [e];
      }
    }
  }

  lemma {:induction false} FirstStartsLog(jobs: nat, j: Job)
    ensures NeverOverlaps(FirstStarts(jobs), j)
    ensures Starts(FirstStarts(jobs), j) == (if j < jobs then 1 else 0) && Ends(FirstStarts(jobs), j) == 0
  {
    hide NeverOverlaps, Starts, Ends, FirstStarts;
    if jobs == 0 {
      EmptyLog(j);
    } else {
      FirstStartsLog(jobs - 1, j);
      OneMoreStarts(jobs - 1);
      LogGrows(FirstStarts(jobs - 1), RunStarted(jobs - 1), j);
      OverlapFreeLogGrows(FirstStarts(jobs - 1), RunStarted(jobs - 1), j);
    }
  }

  lemma {:induction false} OneMoreStarts(jobs: nat)
    ensures FirstStarts(jobs + 1) == FirstStarts(jobs) + [RunStarted(jobs)]
  {
  }

  lemma {:induction false} EmptyLog(j: Job)
    ensures NeverOverlaps(FirstStarts(0), j) && Starts(FirstStarts(0), j) == 0 == Ends(FirstStarts(0), j)
  {
  }

  lemma {:induction false} InitialKeepsInv(jobs: nat)
    ensures Inv(Initial(jobs))
  {
    forall j: nat
      ensures NeverOverlaps(FirstStarts(jobs), j)
      ensures Starts(FirstStarts(jobs), j) - Ends(FirstStarts(jobs), j) == if j < jobs then 1 else 0
    {
      FirstStartsLog(jobs, j);
    }
  }

  lemma {:induction false} StepKeepsActiveRuns(s: State, a: Action)
    requires Inv(s) && Enabled(s, a)
    ensures ActiveRunsMatch(Apply(s, a))
  {
    hide LogMatches, ShutdownMatches;
  }

  lemma {:induction false} StepKeepsShutdown(s: State, a: Action)
    requires Inv(s) && Enabled(s, a)
    ensures ShutdownMatches(Apply(s, a))
  {
    hide LogMatches, ActiveRunsMatch;
  }

  /** The event a step logs, if any. */
  function LoggedBy(s: State, a: Action): seq<Event>
    requires Enabled(s, a)
  {
    match a
    case RunSettles(j) => [RunEnded(j)]
    case ResumeAfterSleep(j) => if s.shuttingDown then [] else [RunStarted(j)]
    case Signal => if s.shuttingDown then [] else [ShutdownRequested]
    case Exit => [WorkerStopped]
    case _ => []
  }

  lemma {:induction false} AtMostOneEvent(s: State, a: Action)
    requires Enabled(s, a) && LoggedBy(s, a) != []
    ensures LoggedBy(s, a) == [LoggedBy(s, a)[0]]
  {
  }

  lemma {:induction false} LogOfStep(s: State, a: Action)
    requires Inv(s) && Enabled(s, a)
    ensures Apply(s, a).log == s.log + LoggedBy(s, a)
  {
  }

  function RunningCount(loops: seq<Loop>, j: Job): int {
    if j < |loops| && loops[j].Running? then 1 else 0
  }

  lemma {:induction false} RunningAfterStep(s: State, a: Action, j: Job)
    requires Enabled(s, a) && |s.started| == |s.loops|
    ensures var change := RunningCount(Apply(s, a).loops, j) - RunningCount(s.loops, j);
            if LoggedBy(s, a) == [RunStarted(j)] then change == 1
            else if LoggedBy(s, a) == [RunEnded(j)] then change == -1
            else change == 0
  {
  }

  lemma {:induction false} BalanceAfterStep(s: State, a: Action, j: Job)
    requires Inv(s) && Enabled(s, a)
    ensures NeverOverlaps(Apply(s, a).log, j)
    ensures Starts(Apply(s, a).log, j) - Ends(Apply(s, a).log, j) == RunningCount(Apply(s, a).loops, j)
  {
    hide ShutdownMatches, NoStartAfterShutdown, NeverOverlaps, Apply, LoggedBy, Enabled, Starts, Ends;
    LogOfStep(s, a);
    RunningAfterStep(s, a, j);
    assert NeverOverlaps(s.log, j);
    if LoggedBy(s, a) != [] {
      AtMostOneEvent(s, a);
      var e := LoggedBy(s, a)[0];
      assert s.log + LoggedBy(s, a) == s.log + [e];
      OverlapFreeLogGrows(s.log, e, j);
      LogGrows(s.log, e, j);
    } else {
      assert s.log + [] == s.log;
    }
  }

  lemma {:induction false} StepKeepsLog(s: State, a: Action)
    requires Inv(s) && Enabled(s, a)
    ensures LogMatches(Apply(s, a))
  {
    hide NeverOverlaps;
    var t := Apply(s, a);
    forall j: nat
      ensures NeverOverlaps(t.log, j)
      ensures Starts(t.log, j) - Ends(t.log, j) == if j < |t.loops| && t.loops[j].Running? then 1 else 0
    {
      BalanceAfterStep(s, a, j);
    }
    LogOfStep(s, a);
    OrderAfterStep(s, a);
  }

  lemma {:induction false} OrderAfterStep(s: State, a: Action)
    requires Inv(s) && Enabled(s, a)
    ensures var t := Apply(s, a);
            && NoStartAfterShutdown(t.log)
            && (t.shuttingDown <==> ShutdownRequested in t.log) && (t.exited <==> WorkerStopped in t.log)
            && (forall i :: 0 <= i < |t.log| && t.log[i].WorkerStopped? ==> i == |t.log| - 1)
  {
    hide NeverOverlaps, ActiveRunsMatch, ShutdownMatches, Starts, Ends;
    var more := LoggedBy(s, a);
    LogOfStep(s, a);
    assert forall i :: 0 <= i < |s.log| && s.log[i].ShutdownRequested? ==> s.shuttingDown;
    assert forall i :: 0 <= i < |s.log| && s.log[i].WorkerStopped? ==> s.exited;
  }

  lemma {:induction false} StepKeepsInv(s: State, a: Action)
    requires Inv(s) && Enabled(s, a)
    ensures Inv(Apply(s, a))
  {
    hide ActiveRunsMatch, ShutdownMatches, LogMatches;
    StepKeepsActiveRuns(s, a);
    StepKeepsShutdown(s, a);
    StepKeepsLog(s, a);
  }

  lemma {:induction false} ExecutionKeepsInv(states: seq<State>, actions: seq<Action>, i: nat)
    requires IsExecution(states, actions) && Inv(states[0]) && i < |states|
    ensures Inv(states[i])
  {
    hide Inv, Apply, Enabled;
    if i > 0 {
      ExecutionKeepsInv(states, actions, i - 1);
      StepKeepsInv(states[i - 1], actions[i - 1]);
    }
  }

  // ----- safety -----

  /**
    * In every interleaving: `activeRuns` holds at most one run per job; in the log no job's runs overlap and no run
    * starts after the shutdown was requested; no loop sleeps once it was; and the worker exits only when no run is
    * active and every started run has ended.
    */
  lemma {:induction false} EveryExecutionIsSafe(states: seq<State>, actions: seq<Action>, jobs: nat, i: nat)
    requires IsExecution(states, actions) && states[0] == Initial(jobs) && i < |states|
    ensures var s := states[i];
            && (forall p, q :: p in s.activeRuns && q in s.activeRuns && p.0 == q.0 ==> p == q)
            && (forall j: nat :: NeverOverlaps(s.log, j)) && NoStartAfterShutdown(s.log)
            && (s.shuttingDown ==> forall j :: 0 <= j < |s.loops| ==> !s.loops[j].Sleeping?)
            && (s.exited ==> s.activeRuns == {} && forall j: nat :: Starts(s.log, j) == Ends(s.log, j))
  {
    hide Initial, Apply, Enabled, NeverOverlaps, NoStartAfterShutdown;
    InitialKeepsInv(jobs);
    ExecutionKeepsInv(states, actions, i);
    var s := states[i];
    if s.exited {
      assert forall p :: p in s.activeRuns ==> s.loops[p.0].Stopped?;
    }
  }

  // ----- jobs run again and again -----

  /** How often the loop of `j` comes back from a sleep before the first signal. */
  function Resumes(actions: seq<Action>, j: Job): nat {
    if actions == [] then 0
    else
      var front := actions[..|actions| - 1];
      Resumes(front, j) + if actions[|actions| - 1] == ResumeAfterSleep(j) && Signal !in front then 1 else 0
  }

  /** How often its poll interval elapses before the first signal. */
  function Elapsed(actions: seq<Action>, j: Job): nat {
    if actions == [] then 0
    else
      var front := actions[..|actions| - 1];
      Elapsed(front, j) + if actions[|actions| - 1] == TimerFires(j) && Signal !in front then 1 else 0
  }

  lemma {:induction false} ResumesOneMore(actions: seq<Action>, a: Action, j: Job)
    ensures Resumes(actions + [a], j)
            == Resumes(actions, j) + if a == ResumeAfterSleep(j) && Signal !in actions then 1 else 0
  {
    assert (actions + [a])[..|actions|] == actions;
  }

  lemma {:induction false} ElapsedOneMore(actions: seq<Action>, a: Action, j: Job)
    ensures Elapsed(actions + [a], j)
            == Elapsed(actions, j) + if a == TimerFires(j) && Signal !in actions then 1 else 0
  {
    assert (actions + [a])[..|actions|] == actions;
  }

  lemma {:induction false} StartsAfterStep(s: State, a: Action, j: Job)
    requires Inv(s) && Enabled(s, a)
    ensures Starts(Apply(s, a).log, j) == Starts(s.log, j) + if a == ResumeAfterSleep(j) && !s.shuttingDown then 1 else 0
  {
    hide Inv, Apply, Starts, Ends, Enabled;
    LogOfStep(s, a);
    if LoggedBy(s, a) != [] {
      AtMostOneEvent(s, a);
      LogGrows(s.log, LoggedBy(s, a)[0], j);
    } else {
      assert s.log + [] == s.log;
    }
  }

  function AwakeCount(loops: seq<Loop>, j: Job): int {
    if j < |loops| && loops[j].Awake? then 1 else 0
  }

  lemma {:induction false} FlagsAfterStep(s: State, a: Action, j: Job)
    requires Inv(s) && Enabled(s, a)
    ensures |Apply(s, a).loops| == |s.loops| && (Apply(s, a).shuttingDown <==> s.shuttingDown || a == Signal)
    ensures !Apply(s, a).shuttingDown ==>
              AwakeCount(Apply(s, a).loops, j)
              == AwakeCount(s.loops, j) + (if a == TimerFires(j) then 1 else 0) - (if a == ResumeAfterSleep(j) then 1 else 0)
    ensures s.shuttingDown ==> a != TimerFires(j)
  {
    hide LogMatches;
  }

  /**
    * The schedule decides how often a job runs: once at the start, and once more for every time its loop comes back from
    * a sleep before the first signal; and each of these times is preceded by a poll interval of its own.
    */
  lemma {:induction false} RunsFollowTheSchedule(states: seq<State>, actions: seq<Action>, jobs: nat, j: Job)
    requires IsExecution(states, actions) && states[0] == Initial(jobs) && j < jobs
    ensures var s := states[|actions|];
            && |s.loops| == jobs && (s.shuttingDown <==> Signal in actions)
            && Starts(s.log, j) == 1 + Resumes(actions, j)
            && Resumes(actions, j) <= Elapsed(actions, j) <= Resumes(actions, j) + 1
            && (!s.shuttingDown ==> Elapsed(actions, j) == Resumes(actions, j) + AwakeCount(s.loops, j))
  {
    hide Inv, Apply, Enabled, Starts, Resumes, Elapsed;
    var n := |actions|;
    NothingDone(j);
    if n == 0 {
      FirstStartsLog(jobs, j);
    } else {
      var a := actions[n - 1];
      RunsFollowTheSchedule(states[..n], actions[..n - 1], jobs, j);
      InitialKeepsInv(jobs);
      ExecutionKeepsInv(states, actions, n - 1);
      StartsAfterStep(states[n - 1], a, j);
      FlagsAfterStep(states[n - 1], a, j);
      assert actions == actions[..n - 1] + [a];
      ResumesOneMore(actions[..n - 1], a, j);
      ElapsedOneMore(actions[..n - 1], a, j);
    }
  }

  lemma {:induction false} NothingDone(j: Job)
    ensures Resumes([], j) == 0 == Elapsed([], j)
  {
  }

  /** The loop of `j` awaits a run, and nobody asked for a shutdown. */
  ghost predicate IsAtWork(s: State, j: Job) {
    |s.started| == |s.loops| && j < |s.loops| && s.loops[j].Running? && !s.shuttingDown && !s.exited
  }

  function OneRound(j: Job): seq<Action> {
    [RunSettles(j), ResumeAfterRun(j), TimerFires(j), ResumeAfterSleep(j)]
  }

  function StatesOfRound(s: State, j: Job): seq<State>
    requires IsAtWork(s, j)
  {
    var s1 := Apply(s, RunSettles(j));
    var s2 := Apply(s1, ResumeAfterRun(j));
    var s3 := Apply(s2, TimerFires(j));
    [s1, s2, s3, Apply(s3, ResumeAfterSleep(j))]
  }

  lemma {:induction false} RoundResumesOnce(actions: seq<Action>, j: Job)
    requires Signal !in actions
    ensures Signal !in actions + OneRound(j)
    ensures Resumes(actions + OneRound(j), j) == Resumes(actions, j) + 1
  {
    hide Resumes;
    ResumesOneMore(actions, RunSettles(j), j);
    ResumesOneMore(actions + [RunSettles(j)], ResumeAfterRun(j), j);
    ResumesOneMore(actions + [RunSettles(j)] + [ResumeAfterRun(j)], TimerFires(j), j);
    ResumesOneMore(actions + [RunSettles(j)] + [ResumeAfterRun(j)] + [TimerFires(j)], ResumeAfterSleep(j), j);
    assert actions + OneRound(j)
        == actions + [RunSettles(j)] + [ResumeAfterRun(j)] + [TimerFires(j)] + [ResumeAfterSleep(j)];
  }

  lemma {:induction false} RoundIsPossible(s: State, j: Job)
    requires IsAtWork(s, j)
    ensures var round := StatesOfRound(s, j);
            && |round| == 4 && (forall k :: 0 <= k < 4 ==> |round[k].started| == |round[k].loops|)
            && Enabled(s, RunSettles(j)) && round[0] == Apply(s, RunSettles(j))
            && Enabled(round[0], ResumeAfterRun(j)) && round[1] == Apply(round[0], ResumeAfterRun(j))
            && Enabled(round[1], TimerFires(j)) && round[2] == Apply(round[1], TimerFires(j))
            && Enabled(round[2], ResumeAfterSleep(j)) && round[3] == Apply(round[2], ResumeAfterSleep(j))
            && IsAtWork(round[3], j)
  {
  }

  lemma {:induction false} OneMoreRound(states: seq<State>, actions: seq<Action>, j: Job)
    requires IsExecution(states, actions) && IsAtWork(states[|actions|], j) && Signal !in actions
    ensures var more := states + StatesOfRound(states[|actions|], j);
            IsExecution(more, actions + OneRound(j)) && IsAtWork(more[|actions| + 4], j)
  {
    hide Enabled, Apply, StatesOfRound, IsAtWork;
    var last := states[|actions|];
    var round := StatesOfRound(last, j);
    RoundIsPossible(last, j);
    var more, all := states + round, actions + OneRound(j);
    var n := |actions|;
    assert more[n..] == [last] + round && all[n..] == OneRound(j);
    forall i | 0 <= i < |more|
      ensures |more[i].started| == |more[i].loops|
    {
      assert more[i] == if i < n then states[i] else ([last] + round)[i - n];
    }
    forall i | 0 <= i < |all|
      ensures Enabled(more[i], all[i]) && more[i + 1] == Apply(more[i], all[i])
    {
      if i < n {
        assert all[i] == actions[i] && more[i] == states[i] && more[i + 1] == states[i + 1];
      } else {
        assert all[i] == OneRound(j)[i - n] && more[i] == ([last] + round)[i - n] && more[i + 1] == round[i - n];
      }
    }
  }

  /** Without a signal a job is run as often as one likes: for every positive `n` some execution starts it `n` times. */
  lemma {:induction false} JobsRunAnyNumberOfTimes(jobs: nat, j: Job, n: nat)
    returns (states: seq<State>, actions: seq<Action>)
    requires j < jobs && n > 0
    ensures IsExecution(states, actions) && states[0] == Initial(jobs) && Signal !in actions
    ensures IsAtWork(states[|actions|], j) && Resumes(actions, j) == n - 1
    ensures Starts(states[|actions|].log, j) == n
  {
    hide Apply, Enabled, Starts, StatesOfRound;
    if n == 1 {
      states, actions := [Initial(jobs)], [];
    } else {
      states, actions := JobsRunAnyNumberOfTimes(jobs, j, n - 1);
      OneMoreRound(states, actions, j);
      RoundResumesOnce(actions, j);
      states, actions := states + StatesOfRound(states[|actions|], j), actions + OneRound(j);
    }
    RunsFollowTheSchedule(states, actions, jobs, j);
  }

  // ----- shutdown completes -----

  function Weight(l: Loop): nat {
    match l
    case Sleeping => 4
    case Running(_) => 3
    case Finished(_) => 2
    case Awake => 1
    case Stopped => 0
  }

  function TotalWeight(loops: seq<Loop>): nat {
    if loops == [] then 0 else TotalWeight(loops[..|loops| - 1]) + Weight(loops[|loops| - 1])
  }

  /** How many steps at most are left once the shutdown was requested. */
  function Remaining(s: State): nat {
    TotalWeight(s.loops) + if s.exited then 0 else 1
  }

  lemma {:induction false} WeightAfterUpdate(loops: seq<Loop>, j: nat, l: Loop)
    requires j < |loops|
    ensures TotalWeight(loops[j := l]) == TotalWeight(loops) - Weight(loops[j]) + Weight(l)
  {
    var n := |loops| - 1;
    if j < n {
      WeightAfterUpdate(loops[..n], j, l);
      assert loops[j := l][..n] == loops[..n][j := l];
    } else {
      assert loops[j := l][..n] == loops[..n];
    }
  }

  /** After the request every step but a repeated signal brings the stop closer. */
  lemma {:induction false} StepAfterShutdownMakesProgress(s: State, a: Action)
    requires Inv(s) && s.shuttingDown && Enabled(s, a) && a != Signal
    ensures Remaining(Apply(s, a)) < Remaining(s) && Apply(s, a).shuttingDown
  {
    hide LogMatches;
    match a
    case RunSettles(j) => WeightAfterUpdate(s.loops, j, Finished(s.loops[j].run));
    case ResumeAfterRun(j) => WeightAfterUpdate(s.loops, j, Stopped);
    case TimerFires(j) => WeightAfterUpdate(s.loops, j, Awake);
    case ResumeAfterSleep(j) => WeightAfterUpdate(s.loops, j, Stopped);
    case Exit =>
  }

  /** Some step is always possible until the worker has exited, as long as running jobs can settle. */
  lemma {:induction false} NeverStuck(s: State)
    requires Inv(s) && !s.exited
    ensures exists a :: a != Signal && Enabled(s, a)
  {
    hide LogMatches, ActiveRunsMatch;
    if AllStopped(s.loops) {
      assert Enabled(s, Exit);
    } else {
      var j :| 0 <= j < |s.loops| && !s.loops[j].Stopped?;
      match s.loops[j]
      case Running(_) => assert Enabled(s, RunSettles(j));
      case Finished(_) => assert Enabled(s, ResumeAfterRun(j));
      case Sleeping => assert Enabled(s, TimerFires(j));
      case Awake => assert Enabled(s, ResumeAfterSleep(j));
    }
  }

  lemma {:induction false} RepeatedSignalChangesNothing(s: State)
    requires Inv(s) && s.shuttingDown && Enabled(s, Signal)
    ensures Apply(s, Signal) == s
  {
  }

  /** The number of steps of a schedule that are no signals. */
  function Work(actions: seq<Action>): nat {
    if actions == [] then 0 else Work(actions[..|actions| - 1]) + if actions[|actions| - 1] == Signal then 0 else 1
  }

  lemma {:induction false} WorkAfterShutdownIsBounded(states: seq<State>, actions: seq<Action>)
    requires IsExecution(states, actions) && Inv(states[0]) && states[0].shuttingDown
    ensures states[|actions|].shuttingDown
    ensures Work(actions) + Remaining(states[|actions|]) <= Remaining(states[0])
  {
    hide Inv, Apply, Enabled, Remaining;
    var n := |actions|;
    if n > 0 {
      WorkAfterShutdownIsBounded(states[..n], actions[..n - 1]);
      ExecutionKeepsInv(states, actions, n - 1);
      if actions[n - 1] == Signal {
        RepeatedSignalChangesNothing(states[n - 1]);
      } else {
        StepAfterShutdownMakesProgress(states[n - 1], actions[n - 1]);
      }
    }
  }

  lemma {:induction false} WeightBound(loops: seq<Loop>)
    requires forall j :: 0 <= j < |loops| ==> !loops[j].Sleeping?
    ensures TotalWeight(loops) <= 3 * |loops|
  {
    if loops != [] {
      WeightBound(loops[..|loops| - 1]);
    }
  }

  /**
    * Shutdown is graceful and finite: from a state where it was requested, no schedule does more than three steps per
    * job and one more, and a schedule that can do nothing further has exited with no run active.
    */
  lemma {:induction false} ShutdownCompletes(states: seq<State>, actions: seq<Action>)
    requires IsExecution(states, actions) && Inv(states[0]) && states[0].shuttingDown
    ensures Work(actions) <= 3 * |states[0].loops| + 1
    ensures var last := states[|actions|];
            (forall a :: Enabled(last, a) ==> a == Signal) ==> last.exited && last.activeRuns == {}
  {
    hide Apply, Enabled, LogMatches;
    WorkAfterShutdownIsBounded(states, actions);
    WeightBound(states[0].loops);
    ExecutionKeepsInv(states, actions, |actions|);
    var last := states[|actions|];
    if !last.exited {
      NeverStuck(last);
    } else {
      assert forall p :: p in last.activeRuns ==> last.loops[p.0].Stopped?;
    }
  }
}
