/**
 The life of a daemon between any number of controlling threads and its worker
 thread (vtelem/daemon/__init__.py). Each action is one critical section, or
 one access to shared state outside of them; any interleaving is possible.
 */
module Lifecycle {
  datatype State = Idle | Starting | Running | Paused | Stopping

  /** The worker thread: started but not yet running its body, or running it. */
  datatype Worker = Absent | Spawned | Working

  /**
   Where a controller is in `start` or `stop`; a missing thread handle fails it,
   and so does joining a thread too early.
   */
  datatype Stage =
    | Ready
    | Launching | LaunchFailed
    | CheckingThread | Joining | Concluding | StopFailed

  datatype Daemon = Daemon(
    state: State,
    worker: Worker,
    hasThread: bool,
    controllers: map<nat, Stage>,
    starts: nat,
    stops: nat,
    errors: nat,
    pauses: nat,
    unpauses: nat,
    begunStops: nat,
    assertionFailed: bool)

  datatype Action =
    | Start(c: nat) | Launch(c: nat)
    | Pause(c: nat) | Unpause(c: nat)
    | BeginStop(c: nat) | CheckThread(c: nat) | Join(c: nat) | Conclude(c: nat)
    | Enter | Finish

  function AllReady(n: nat): (m: map<nat, Stage>)
    ensures forall c: nat :: c in m <==> c < n
    ensures forall c | c in m :: m[c] == Ready
  {
    if n == 0 then map[] else AllReady(n - 1)[n - 1 := Ready]
  }

  function Created(n: nat): Daemon {
    Daemon(Idle, Absent, false, AllReady(n), 0, 0, 0, 0, 0, 0, false)
  }

  predicate At(d: Daemon, c: nat, stage: Stage) {
    c in d.controllers && d.controllers[c] == stage
  }

  function Move(d: Daemon, c: nat, stage: Stage): Daemon {
    d.(controllers := d.controllers[c := stage])
  }

  /** An assignment of the state that is asserted to change it. */
  function Assigned(d: Daemon, state: State): Daemon {
    d.(state := state, assertionFailed := d.assertionFailed || d.state == state)
  }

  /** The thread that the handle is for was created and not started yet; it cannot be joined. */
  predicate Unstarted(d: Daemon) {
    exists c | c in d.controllers :: d.controllers[c] == Launching
  }

  /** An action whose guard does not hold changes nothing. */
  function Act(d: Daemon, a: Action): Daemon {
    match a
    case Start(c) =>
      if At(d, c, Ready) && d.state == Idle
      then Move(Assigned(d, Starting).(hasThread := true, starts := d.starts + 1), c, Launching) else d
    case Launch(c) =>
      if !At(d, c, Launching) then d
      else if d.hasThread then Move(d.(worker := Spawned), c, Ready)
      else Move(d, c, LaunchFailed)
    case Pause(c) =>
      if At(d, c, Ready) && d.state == Running then d.(state := Paused, pauses := d.pauses + 1) else d
    case Unpause(c) =>
      if At(d, c, Ready) && d.state == Paused then d.(state := Running, unpauses := d.unpauses + 1) else d
    case BeginStop(c) =>
      if At(d, c, Ready) && d.state == Running
      then Move(d.(state := Stopping, begunStops := d.begunStops + 1), c, CheckingThread) else d
    case CheckThread(c) =>
      if !At(d, c, CheckingThread) then d else Move(d, c, if d.hasThread then Joining else StopFailed)
    case Join(c) =>
      if !At(d, c, Joining) then d else Move(d, c, if d.hasThread && !Unstarted(d) then Concluding else StopFailed)
    case Conclude(c) =>
      if !At(d, c, Concluding) then d
      else if d.state == Idle then Move(d.(hasThread := false, stops := d.stops + 1), c, Ready)
      else Move(d.(hasThread := false, errors := d.errors + 1), c, Ready)
    case Enter =>
      if d.worker == Spawned then d.(state := Running, worker := Working) else d
    case Finish =>
      if d.worker == Working then Assigned(d, Idle).(worker := Absent) else d
  }

  function Run(n: nat, actions: seq<Action>): Daemon {
    if actions == [] then Created(n) else Act(Run(n, actions[..|actions| - 1]), actions[|actions| - 1])
  }

  // ---------------------------------------------------------------------
  // What every action keeps
  // ---------------------------------------------------------------------

  /** Controllers that changed the state to starting and have not started the thread: they still will, or failed to. */
  function Launchers(d: Daemon): set<nat> {
    set c | c in d.controllers && (d.controllers[c] == Launching || d.controllers[c] == LaunchFailed)
  }

  /** Controllers in the middle of a stop. */
  function Stoppers(d: Daemon): set<nat> {
    set c | c in d.controllers && d.controllers[c] != Ready && c !in Launchers(d)
  }

  /** The state tells whether there is a worker, and how far it is. */
  ghost predicate StateMatchesWorker(d: Daemon) {
    match d.state
    case Idle => d.worker == Absent && Launchers(d) == {}
    case Starting =>
      if d.worker == Absent then exists c :: Launchers(d) == {c} else d.worker == Spawned && Launchers(d) == {}
    case Running | Paused | Stopping => d.worker == Working && Launchers(d) == {}
  }

  predicate Counted(d: Daemon) {
    && d.stops + d.errors + |Stoppers(d)| == d.begunStops
    && d.begunStops + (if d.state == Idle || d.state == Stopping then 0 else 1) <= d.starts
    && d.unpauses + (if d.state == Paused then 1 else 0) <= d.pauses
  }

  ghost predicate Invariant(d: Daemon) {
    StateMatchesWorker(d) && Counted(d) && !d.assertionFailed
  }

  /** Moving one controller changes the two groups by that controller only. */
  lemma {:induction false} Moved(d: Daemon, e: Daemon, c: nat, stage: Stage)
    requires c in d.controllers && e.controllers == d.controllers[c := stage]
    ensures Launchers(e) ==
            if stage == Launching || stage == LaunchFailed then Launchers(d) + {c} else Launchers(d) - {c}
    ensures Stoppers(e) ==
            if stage == Ready || stage == Launching || stage == LaunchFailed then Stoppers(d) - {c}
            else Stoppers(d) + {c}
    ensures c in Launchers(d) <==> d.controllers[c] == Launching || d.controllers[c] == LaunchFailed
    ensures c in Stoppers(d) <==> d.controllers[c] != Ready && c !in Launchers(d)
  {
  }

  lemma {:induction false} SameGroups(d: Daemon, e: Daemon)
    requires e.controllers == d.controllers
    ensures Launchers(e) == Launchers(d) && Stoppers(e) == Stoppers(d)
  {
  }

  lemma {:induction false} StartKeeps(d: Daemon, c: nat)
    requires Invariant(d)
    ensures Invariant(Act(d, Start(c)))
  {
    hide Launchers, Stoppers;
    if At(d, c, Ready) && d.state == Idle {
      var e := Act(d, Start(c));
      Moved(d, e, c, Launching);
      assert Launchers(e) == {c} && Stoppers(e) == Stoppers(d);
    }
  }

  lemma {:induction false} LaunchKeeps(d: Daemon, c: nat)
    requires Invariant(d)
    ensures Invariant(Act(d, Launch(c)))
  {
    hide Launchers, Stoppers;
    if At(d, c, Launching) {
      var e := Act(d, Launch(c));
      Moved(d, e, c, e.controllers[c]);
      assert Launchers(d) == {c} && Stoppers(e) == Stoppers(d);
      assert d.hasThread ==> Launchers(e) == {};
      assert !d.hasThread ==> Launchers(e) == {c};
    }
  }

  lemma {:induction false} BeginStopKeeps(d: Daemon, c: nat)
    requires Invariant(d)
    ensures Invariant(Act(d, BeginStop(c)))
  {
    hide Launchers, Stoppers;
    var e := Act(d, BeginStop(c));
    if At(d, c, Ready) && d.state == Running {
      Moved(d, e, c, CheckingThread);
      assert |Stoppers(e)| == |Stoppers(d)| + 1 && Launchers(e) == Launchers(d);
    }
  }

  lemma {:induction false} CheckKeeps(d: Daemon, a: Action)
    requires Invariant(d) && (a.CheckThread? || a.Join?)
    ensures Invariant(Act(d, a))
  {
    hide Launchers, Stoppers;
    var e := Act(d, a);
    if At(d, a.c, if a.Join? then Joining else CheckingThread) {
      Moved(d, e, a.c, e.controllers[a.c]);
      assert Stoppers(e) == Stoppers(d) && Launchers(e) == Launchers(d);
    }
  }

  lemma {:induction false} ConcludeKeeps(d: Daemon, c: nat)
    requires Invariant(d)
    ensures Invariant(Act(d, Conclude(c)))
  {
    hide Launchers, Stoppers;
    var e := Act(d, Conclude(c));
    if At(d, c, Concluding) {
      Moved(d, e, c, Ready);
      assert |Stoppers(e)| == |Stoppers(d)| - 1 && Launchers(e) == Launchers(d);
    }
  }

  lemma {:induction false} ActKeeps(d: Daemon, a: Action)
    requires Invariant(d)
    ensures Invariant(Act(d, a))
  {
    match a
    case Start(c) => StartKeeps(d, c);
    case Launch(c) => LaunchKeeps(d, c);
    case BeginStop(c) => BeginStopKeeps(d, c);
    case CheckThread(_) => CheckKeeps(d, a);
    case Join(_) => CheckKeeps(d, a);
    case Conclude(c) => ConcludeKeeps(d, c);
    case _ =>
      hide Launchers, Stoppers;
      SameGroups(d, Act(d, a));
  }

  /** In every reachable situation the invariant holds, whatever the number of controllers. */
  lemma {:induction false} RunInvariant(n: nat, actions: seq<Action>)
    ensures Invariant(Run(n, actions))
  {
    if actions == [] {
      assert Launchers(Created(n)) == {} && Stoppers(Created(n)) == {};
    } else {
      RunInvariant(n, actions[..|actions| - 1]);
      ActKeeps(Run(n, actions[..|actions| - 1]), actions[|actions| - 1]);
    }
  }

  // ---------------------------------------------------------------------
  // What that means
  // ---------------------------------------------------------------------

  /** The only changes of state there are. */
  predicate Allowed(from: State, to: State) {
    || from == to
    || (from == Idle && to == Starting)
    || (from == Starting && to == Running)
    || (from == Running && (to == Paused || to == Stopping || to == Idle))
    || (from == Paused && (to == Running || to == Idle))
    || (from == Stopping && to == Idle)
  }

  /** A worker was started and has not entered its body, or a controller is about to start one. */
  predicate OnItsWay(d: Daemon) {
    d.worker == Spawned || Unstarted(d)
  }

  /** A controller changed the state to starting and found no thread to start. */
  predicate FailedLaunch(d: Daemon) {
    exists c | c in d.controllers :: d.controllers[c] == LaunchFailed
  }

  lemma {:induction false} LaunchersAre(d: Daemon)
    requires Invariant(d)
    ensures Launchers(d) != {} <==> Unstarted(d) || FailedLaunch(d)
    ensures !(Unstarted(d) && FailedLaunch(d))
    ensures forall c, e | c in Launchers(d) && e in Launchers(d) :: c == e
  {
    if Launchers(d) != {} {
      var c :| c in Launchers(d);
      assert c in d.controllers;
    }
    assert forall c | c in d.controllers && d.controllers[c] == Launching :: c in Launchers(d);
    assert forall c | c in d.controllers && d.controllers[c] == LaunchFailed :: c in Launchers(d);
  }

  /**
   Over every interleaving: a daemon is starting exactly while a worker is on its
   way or after a launch failed, and never both; it is idle exactly if there is
   no worker, none on its way and no failed launch; there is at most one worker,
   counting those on their way; no assertion about a change of state ever fails;
   completed stops never outnumber starts, nor unpauses pauses; and the state only
   changes along its diagram, so that stopping is followed by nothing but idle.
   */
  lemma {:induction false} LifecycleSafety(n: nat, actions: seq<Action>, next: Action)
    ensures var d := Run(n, actions);
            && (d.state == Starting <==> OnItsWay(d) || FailedLaunch(d))
            && !(OnItsWay(d) && FailedLaunch(d))
            && (d.state == Idle <==> d.worker == Absent && !OnItsWay(d) && !FailedLaunch(d))
            && (d.worker != Absent ==> !Unstarted(d) && !FailedLaunch(d))
            && (forall c, e | At(d, c, Launching) && At(d, e, Launching) :: c == e)
            && !d.assertionFailed
            && d.stops + d.errors <= d.starts && d.unpauses <= d.pauses
            && Allowed(d.state, Run(n, actions + [next]).state)
  {
    RunInvariant(n, actions);
    LaunchersAre(Run(n, actions));
    var d := Run(n, actions);
    assert forall c | At(d, c, Launching) :: c in Launchers(d);
    hide Launchers, Stoppers, Unstarted, FailedLaunch;
    assert (actions + [next])[..|actions|] == actions;
  }

  // ---------------------------------------------------------------------
  // What the metrics count
  // ---------------------------------------------------------------------

  /** How often, in the course of a run, the state went from one to another. */
  function Changes(n: nat, actions: seq<Action>, from: State, to: State): nat {
    if actions == [] then 0
    else
      var before := actions[..|actions| - 1];
      Changes(n, before, from, to) + if Run(n, before).state == from && Run(n, actions).state == to then 1 else 0
  }

  /** An action that ends a stop. */
  predicate Ends(d: Daemon, a: Action) {
    a.Conclude? && At(d, a.c, Concluding)
  }

  /** How many stops ended in the course of a run and found the daemon idle, or not idle. */
  function Ended(n: nat, actions: seq<Action>, idle: bool): nat {
    if actions == [] then 0
    else
      var before := actions[..|actions| - 1];
      var d := Run(n, before);
      Ended(n, before, idle) + if Ends(d, actions[|actions| - 1]) && (d.state == Idle) == idle then 1 else 0
  }

  function One(b: bool): nat {
    if b then 1 else 0
  }

  lemma {:induction false} StepCounts(d: Daemon, a: Action)
    requires Invariant(d)
    ensures var e := Act(d, a);
            && e.starts == d.starts + One(d.state == Idle && e.state == Starting)
            && e.pauses == d.pauses + One(d.state == Running && e.state == Paused)
            && e.unpauses == d.unpauses + One(d.state == Paused && e.state == Running)
            && e.begunStops == d.begunStops + One(d.state == Running && e.state == Stopping)
            && e.stops == d.stops + One(Ends(d, a) && d.state == Idle)
            && e.errors == d.errors + One(Ends(d, a) && d.state != Idle)
  {
    hide Launchers, Stoppers;
  }

  /** Over every interleaving, each metric is the number of changes of state that it is named for. */
  lemma {:induction false} MetricsExactly(n: nat, actions: seq<Action>)
    ensures var d := Run(n, actions);
            && d.starts == Changes(n, actions, Idle, Starting)
            && d.pauses == Changes(n, actions, Running, Paused)
            && d.unpauses == Changes(n, actions, Paused, Running)
            && d.begunStops == Changes(n, actions, Running, Stopping)
            && d.stops == Ended(n, actions, true) && d.errors == Ended(n, actions, false)
  {
    if actions != [] {
      var before, a := actions[..|actions| - 1], actions[|actions| - 1];
      MetricsExactly(n, before);
      RunInvariant(n, before);
      assert Run(n, actions) == Act(Run(n, before), a);
      hide Run, Act, Invariant;
      StepCounts(Run(n, before), a);
    }
  }

  // ---------------------------------------------------------------------
  // What can be done
  // ---------------------------------------------------------------------

  /** In every reachable situation, what a controller that is ready can do with the daemon, and what not. */
  lemma {:induction false} ControlsExactly(n: nat, actions: seq<Action>, c: nat)
    requires At(Run(n, actions), c, Ready)
    ensures var d := Run(n, actions);
            var started, paused := Run(n, actions + [Start(c)]), Run(n, actions + [Pause(c)]);
            var unpaused, stopping := Run(n, actions + [Unpause(c)]), Run(n, actions + [BeginStop(c)]);
            && (if d.state == Idle then started.state == Starting && started.hasThread && At(started, c, Launching)
                else started == d)
            && (if d.state == Running then paused == d.(state := Paused, pauses := paused.pauses) else paused == d)
            && (if d.state == Paused then unpaused == d.(state := Running, unpauses := unpaused.unpauses)
                else unpaused == d)
            && (if d.state == Running then stopping.state == Stopping && At(stopping, c, CheckingThread)
                else stopping == d)
  {
    hide Run;
    RunSnoc(n, actions, Start(c));
    RunSnoc(n, actions, Pause(c));
    RunSnoc(n, actions, Unpause(c));
    RunSnoc(n, actions, BeginStop(c));
  }

  /** In every reachable situation, a started worker can enter its body and a working one can finish. */
  lemma {:induction false} WorkerGoesOn(n: nat, actions: seq<Action>)
    ensures var d, entered, finished := Run(n, actions), Run(n, actions + [Enter]), Run(n, actions + [Finish]);
            && (d.worker == Spawned ==> entered == d.(state := Running, worker := Working))
            && (d.worker == Working ==>
                  finished == d.(state := Idle, worker := Absent, assertionFailed := finished.assertionFailed))
            && (d.worker != Spawned ==> entered == d) && (d.worker != Working ==> finished == d)
  {
    hide Run;
    RunSnoc(n, actions, Enter);
    RunSnoc(n, actions, Finish);
  }

  /** How a start goes on: with the thread, if its handle is there. */
  lemma {:induction false} StartGoesOn(n: nat, actions: seq<Action>, c: nat)
    requires At(Run(n, actions), c, Launching)
    ensures var d, e := Run(n, actions), Run(n, actions + [Launch(c)]);
            if d.hasThread then e.worker == Spawned && At(e, c, Ready)
            else e.worker == d.worker && At(e, c, LaunchFailed)
  {
    hide Run;
    RunSnoc(n, actions, Launch(c));
  }

  /** How a stop goes on: by way of the thread's handle, which it drops in the end. */
  lemma {:induction false} StopGoesOn(n: nat, actions: seq<Action>, c: nat)
    ensures var d := Run(n, actions);
            && (At(d, c, CheckingThread) ==>
                  At(Run(n, actions + [CheckThread(c)]), c, if d.hasThread then Joining else StopFailed))
            && (At(d, c, Joining) ==>
                  At(Run(n, actions + [Join(c)]), c, if d.hasThread && !Unstarted(d) then Concluding else StopFailed))
            && (At(d, c, Concluding) ==>
                  !Run(n, actions + [Conclude(c)]).hasThread && At(Run(n, actions + [Conclude(c)]), c, Ready))
  {
    hide Run, Unstarted;
    RunSnoc(n, actions, CheckThread(c));
    RunSnoc(n, actions, Join(c));
    RunSnoc(n, actions, Conclude(c));
  }

  // ---------------------------------------------------------------------
  // The thread handle
  // ---------------------------------------------------------------------

  /** A controller found the thread handle gone, or replaced by one it cannot join yet. */
  predicate HandleLost(d: Daemon) {
    exists c | c in d.controllers :: d.controllers[c] == LaunchFailed || d.controllers[c] == StopFailed
  }

  predicate StopStage(s: Stage) {
    s == CheckingThread || s == Joining || s == Concluding
  }

  /** With one controller the handle is there whenever it is needed. */
  predicate SoleControllerInvariant(d: Daemon) {
    && d.controllers.Keys <= {0}
    && (d.state == Starting || d.state == Running || d.state == Paused ==> d.hasThread)
    && (0 in d.controllers ==>
          && d.controllers[0] != LaunchFailed && d.controllers[0] != StopFailed
          && (d.controllers[0] != Ready ==> d.hasThread)
          && (StopStage(d.controllers[0]) ==> d.state == Stopping || d.state == Idle)
          && (d.worker == Spawned ==> !StopStage(d.controllers[0])))
  }

  lemma {:induction false} SoleActKeeps(d: Daemon, a: Action)
    requires Invariant(d) && SoleControllerInvariant(d)
    ensures SoleControllerInvariant(Act(d, a))
  {
    hide Launchers, Stoppers, Counted;
  }

  lemma {:induction false} SoleControllerRun(n: nat, actions: seq<Action>)
    requires n <= 1
    ensures SoleControllerInvariant(Run(n, actions))
  {
    if actions == [] {
    } else {
      SoleControllerRun(n, actions[..|actions| - 1]);
      RunInvariant(n, actions[..|actions| - 1]);
      SoleActKeeps(Run(n, actions[..|actions| - 1]), actions[|actions| - 1]);
    }
  }

  /** One controller starts the daemon and gets as far as joining its thread to stop it. */
  const BOOT: seq<Action> := [Start(0)] + [Launch(0)] + [Enter]
  const OPENING: seq<Action> := BOOT + [BeginStop(0)] + [CheckThread(0)] + [Join(0)] + [Finish]

  /** A second one starts the daemon again before the first concludes its stop, which drops the new handle. */
  const RACE: seq<Action> := OPENING + [Start(1)] + [Conclude(0)] + [Launch(1)]

  lemma {:induction false} RunSnoc(n: nat, actions: seq<Action>, a: Action)
    ensures Run(n, actions + [a]) == Act(Run(n, actions), a)
  {
    assert (actions + [a])[..|actions|] == actions;
  }

  lemma {:induction false} OpeningStops(n: nat)
    requires n >= 2
    ensures var d := Run(n, OPENING);
            d.state == Idle && d.worker == Absent && d.hasThread && At(d, 0, Concluding) && At(d, 1, Ready)
  {
    hide Run;
    BootRuns(n);
    RunSnoc(n, BOOT, BeginStop(0));
    RunSnoc(n, BOOT + [BeginStop(0)], CheckThread(0));
    RunSnoc(n, BOOT + [BeginStop(0)] + [CheckThread(0)], Join(0));
    RunSnoc(n, BOOT + [BeginStop(0)] + [CheckThread(0)] + [Join(0)], Finish);
  }

  lemma {:induction false} BootRuns(n: nat)
    requires n >= 2
    ensures var d := Run(n, BOOT);
            && d.state == Running && d.worker == Working && d.hasThread && d.stops == 0 && d.errors == 0
            && (forall c | c in d.controllers :: d.controllers[c] == Ready) && At(d, 0, Ready) && At(d, 1, Ready)
  {
    hide Run;
    NothingDone(n);
    assert [] + [Start(0)] == [Start(0)];
    RunSnoc(n, [], Start(0));
    RunSnoc(n, [Start(0)], Launch(0));
    RunSnoc(n, [Start(0)] + [Launch(0)], Enter);
  }

  lemma {:induction false} RaceLosesHandle(n: nat)
    requires n >= 2
    ensures HandleLost(Run(n, RACE)) && Run(n, RACE).state == Starting && Run(n, RACE).worker == Absent
    ensures At(Run(n, RACE), 1, LaunchFailed)
  {
    hide Run;
    OpeningStops(n);
    RunSnoc(n, OPENING, Start(1));
    RunSnoc(n, OPENING + [Start(1)], Conclude(0));
    RunSnoc(n, OPENING + [Start(1)] + [Conclude(0)], Launch(1));
    assert At(Run(n, RACE), 1, LaunchFailed);
  }

  /** A second controller starts the daemon again while the first is about to join the old thread. */
  const OVERTAKEN: seq<Action> := BOOT + [BeginStop(0)] + [CheckThread(0)] + [Finish] + [Start(1)] + [Join(0)]

  lemma {:induction false} JoinMeetsNewThread(n: nat)
    requires n >= 2
    ensures At(Run(n, OVERTAKEN), 0, StopFailed) && HandleLost(Run(n, OVERTAKEN))
    ensures Run(n, OVERTAKEN).stops + Run(n, OVERTAKEN).errors == 0
  {
    hide Run;
    BootRuns(n);
    RunSnoc(n, BOOT, BeginStop(0));
    RunSnoc(n, BOOT + [BeginStop(0)], CheckThread(0));
    RunSnoc(n, BOOT + [BeginStop(0)] + [CheckThread(0)], Finish);
    RunSnoc(n, BOOT + [BeginStop(0)] + [CheckThread(0)] + [Finish], Start(1));
    var d := Run(n, BOOT + [BeginStop(0)] + [CheckThread(0)] + [Finish] + [Start(1)]);
    assert d.controllers[1] == Launching;
    RunSnoc(n, BOOT + [BeginStop(0)] + [CheckThread(0)] + [Finish] + [Start(1)], Join(0));
  }

  /** The state says that a worker is on its way, and nobody will start one. */
  predicate Stranded(d: Daemon) {
    && d.state == Starting && d.worker == Absent && HandleLost(d)
    && forall c | c in d.controllers :: d.controllers[c] != Launching
  }

  lemma {:induction false} StrandedStays(d: Daemon, a: Action)
    requires Stranded(d)
    ensures Stranded(Act(d, a))
  {
    var c :| c in d.controllers && (d.controllers[c] == LaunchFailed || d.controllers[c] == StopFailed);
    var e := Act(d, a);
    assert e.controllers[c] == d.controllers[c];
  }

  /** After the race the daemon stays stranded, whatever is done with it. */
  lemma {:induction false} RaceIsFinal(n: nat, actions: seq<Action>)
    requires n >= 2
    ensures Stranded(Run(n, RACE + actions))
  {
    hide Run;
    if actions == [] {
      RaceLosesHandle(n);
      RunInvariant(n, RACE);
      assert RACE + actions == RACE;
      var d := Run(n, RACE);
      assert 1 in Launchers(d);
      assert forall c | c in d.controllers && d.controllers[c] == Launching :: c in Launchers(d);
    } else {
      var k := |actions| - 1;
      RaceIsFinal(n, actions[..k]);
      RunSnoc(n, RACE + actions[..k], actions[k]);
      StrandedStays(Run(n, RACE + actions[..k]), actions[k]);
      assert RACE + actions == RACE + actions[..k] + [actions[k]];
    }
  }

  lemma {:induction false} NothingDone(n: nat)
    ensures Run(n, []) == Created(n)
  {
  }

  /** The state tells the truth: starting says that a worker is on its way, idle that there is none. */
  predicate Truthful(d: Daemon) {
    && (d.state == Starting <==> OnItsWay(d))
    && (d.state == Idle <==> d.worker == Absent && !OnItsWay(d))
  }

  /** At any moment of any run, the state tells the truth if and only if no launch failed. */
  lemma {:induction false} TruthfulUnlessFailed(n: nat, actions: seq<Action>)
    ensures Truthful(Run(n, actions)) <==> !FailedLaunch(Run(n, actions))
  {
    hide Run, Unstarted, FailedLaunch;
    LifecycleSafety(n, actions, Enter);
  }

  /** The state tells the truth over all interleavings, if and only if there is at most one controller. */
  lemma {:induction false} TruthfulExactly(n: nat)
    ensures (forall actions :: Truthful(Run(n, actions))) <==> n <= 1
  {
    hide Run, Truthful;
    if n <= 1 {
      forall actions
        ensures Truthful(Run(n, actions))
      {
        SoleControllerRun(n, actions);
        TruthfulUnlessFailed(n, actions);
      }
    } else {
      RaceLosesHandle(n);
      TruthfulUnlessFailed(n, RACE);
    }
  }

  /** The thread handle is never missed, over all interleavings, if and only if there is at most one controller. */
  lemma {:induction false} HandleSafeExactly(n: nat)
    ensures (forall actions :: !HandleLost(Run(n, actions))) <==> n <= 1
  {
    hide Run;
    if n <= 1 {
      forall actions
        ensures !HandleLost(Run(n, actions))
      {
        SoleControllerRun(n, actions);
      }
    } else {
      RaceLosesHandle(n);
    }
  }
}
