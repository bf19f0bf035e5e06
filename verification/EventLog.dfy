/**
 The change events of many channels that share one queue
 (vtelem/channel/__init__.py, vtelem/classes/event_queue.py).
 */
module EventLog {
  import opened Wrappers
  import opened Primitives
  import opened Registries
  import opened Channels

  datatype Op = SetOp(channel: string, value: Value, time: real) | ConsumeOp

  /** The channels by name, the queued events, and all events consumed so far. */
  datatype Log = Log(channels: map<string, Snapshot>, queue: seq<Event>, consumed: seq<Event>)

  /** Channels are stored under their own names and hold values of their types. */
  predicate WellFormed(s: Log) {
    forall n | n in s.channels :: s.channels[n].info.name == n && Holds(s.channels[n].info.prim, s.channels[n].data)
  }

  /** A new system: defaults everywhere, nothing reported. */
  predicate Fresh(s: Log) {
    && WellFormed(s) && s.queue == [] && s.consumed == []
    && forall n | n in s.channels :: s.channels[n].data == DefaultValue(s.channels[n].info.prim)
  }

  function Step(s: Log, op: Op): Log {
    match op
    case ConsumeOp => s.(queue := [], consumed := s.consumed + s.queue)
    case SetOp(n, v, time) =>
      if n !in s.channels then s
      else
        var (c, e) := Assign(s.channels[n], v, time);
        Log(s.channels[n := c],
            if e.Some? && |s.queue| < MAX_SIZE then s.queue + [e.value] else s.queue,
            s.consumed)
  }

  function Run(s: Log, ops: seq<Op>): Log {
    if ops == [] then s else Step(Run(s, ops[..|ops| - 1]), ops[|ops| - 1])
  }

  /** The change that an operation makes, if it makes one. */
  function Change(s: Log, op: Op): Option<Event> {
    if op.SetOp? && op.channel in s.channels then Assign(s.channels[op.channel], op.value, op.time).1 else None
  }

  /** The event of this operation would find the queue full. */
  predicate Overflows(s: Log, op: Op) {
    Change(s, op).Some? && |s.queue| >= MAX_SIZE
  }

  predicate NoOverflow(s: Log, ops: seq<Op>) {
    forall i :: 0 <= i < |ops| ==> !Overflows(Run(s, ops[..i]), ops[i])
  }

  // ---------------------------------------------------------------------
  // Replaying the log
  // ---------------------------------------------------------------------

  /** All events ever reported and not lost, in order. */
  function Reported(s: Log): seq<Event> {
    s.consumed + s.queue
  }

  function EventsOf(es: seq<Event>, n: string): seq<Event> {
    if es == [] then []
    else
      var before, last := EventsOf(es[..|es| - 1], n), es[|es| - 1];
      if last.channel == n then before + [last] else before
  }

  /** The value that a channel's events lead to from its default; none, if they do not chain. */
  function Replay(p: Primitive, es: seq<Event>): Option<Value> {
    if es == [] then Some(DefaultValue(p))
    else
      var before, last := Replay(p, es[..|es| - 1]), es[|es| - 1];
      if before == Some(last.prev.value) then Accept(p, last.curr.value) else None
  }

  /** A channel's events chain from its default to its current value. */
  predicate Consistent(s: Log, n: string) {
    n in s.channels ==> Replay(s.channels[n].info.prim, EventsOf(Reported(s), n)) == Some(s.channels[n].data)
  }

  lemma {:induction false} EventsOfSnoc(es: seq<Event>, e: Event, n: string)
    ensures EventsOf(es + [e], n) == if e.channel == n then EventsOf(es, n) + [e] else EventsOf(es, n)
  {
    assert (es + [e])[..|es|] == es;
  }

  lemma {:induction false} ReplaySnoc(p: Primitive, es: seq<Event>, e: Event)
    ensures Replay(p, es + [e]) == if Replay(p, es) == Some(e.prev.value) then Accept(p, e.curr.value) else None
  {
    assert (es + [e])[..|es|] == es;
  }

  lemma {:induction false} ReportedStep(s: Log, op: Op)
    ensures Reported(Step(s, op)) ==
            if Change(s, op).Some? && !Overflows(s, op) then Reported(s) + [Change(s, op).value] else Reported(s)
  {
    hide Accept;
  }

  /** One operation keeps every channel's log consistent, unless its event is lost; then its channel's log breaks. */
  lemma {:induction false} StepConsistent(s: Log, op: Op, n: string)
    requires WellFormed(s) && n in s.channels && Consistent(s, n)
    ensures WellFormed(Step(s, op)) && n in Step(s, op).channels
    ensures Consistent(Step(s, op), n) <==> !(Overflows(s, op) && op.channel == n)
  {
    hide EventsOf, Replay, Reported, IntegerBounds;
    ReportedStep(s, op);
    var e := Change(s, op);
    if e.Some? {
      EventsOfSnoc(Reported(s), e.value, n);
      ReplaySnoc(s.channels[n].info.prim, EventsOf(Reported(s), n), e.value);
    }
  }

  /** Over any run without overflow, every channel's events chain and replay to its current value. */
  lemma {:induction false} LogReplays(s: Log, ops: seq<Op>, n: string)
    requires Fresh(s) && n in s.channels && NoOverflow(s, ops)
    ensures WellFormed(Run(s, ops)) && n in Run(s, ops).channels && Consistent(Run(s, ops), n)
  {
    if ops == [] {
      assert Reported(s) == [];
    } else {
      var before := ops[..|ops| - 1];
      assert forall i :: 0 <= i < |before| ==> ops[..i] == before[..i] && ops[i] == before[i];
      LogReplays(s, before, n);
      StepConsistent(Run(s, before), ops[|ops| - 1], n);
    }
  }

  lemma {:induction false} RunWellFormed(s: Log, ops: seq<Op>)
    requires WellFormed(s)
    ensures WellFormed(Run(s, ops)) && Run(s, ops).channels.Keys == s.channels.Keys
  {
    hide IntegerBounds;
    if ops != [] {
      RunWellFormed(s, ops[..|ops| - 1]);
    }
  }

  /** An event that is lost breaks the log of its channel. */
  lemma {:induction false} LossShows(s: Log, ops: seq<Op>, i: nat)
    requires Fresh(s) && i < |ops| && Overflows(Run(s, ops[..i]), ops[i])
    ensures var n := ops[i].channel;
            n in s.channels && !(Consistent(Run(s, ops[..i]), n) && Consistent(Run(s, ops[..i + 1]), n))
  {
    hide Consistent, WellFormed, Assign;
    RunWellFormed(s, ops[..i]);
    assert ops[..i + 1][..i] == ops[..i];
    var t, n := Run(s, ops[..i]), ops[i].channel;
    if Consistent(t, n) {
      StepConsistent(t, ops[i], n);
    }
  }

  /** No event of a run is lost if and only if every channel's log replays at every moment of it. */
  lemma {:induction false} LogReplaysExactly(s: Log, ops: seq<Op>)
    requires Fresh(s)
    ensures NoOverflow(s, ops) <==>
            forall i, n :: 0 <= i <= |ops| && n in s.channels ==> Consistent(Run(s, ops[..i]), n)
  {
    hide Consistent, Overflows, Run;
    if NoOverflow(s, ops) {
      forall i, n | 0 <= i <= |ops| && n in s.channels
        ensures Consistent(Run(s, ops[..i]), n)
      {
        assert forall j :: 0 <= j < i ==> ops[..i][..j] == ops[..j] && ops[..i][j] == ops[j];
        LogReplays(s, ops[..i], n);
      }
    } else {
      var i :| 0 <= i < |ops| && Overflows(Run(s, ops[..i]), ops[i]);
      LossShows(s, ops, i);
    }
  }

  /** The changes of a run that found room in the queue, in order. */
  function Enqueued(s: Log, ops: seq<Op>): seq<Event> {
    if ops == [] then []
    else
      var before, op := ops[..|ops| - 1], ops[|ops| - 1];
      var t := Run(s, before);
      Enqueued(s, before) + if Change(t, op).Some? && !Overflows(t, op) then [Change(t, op).value] else []
  }

  /** Consuming neither loses, repeats nor reorders: what is reported grows by exactly the changes that found room. */
  lemma {:induction false} ReportsExactly(s: Log, ops: seq<Op>)
    ensures Reported(Run(s, ops)) == Reported(s) + Enqueued(s, ops)
  {
    hide Change, Overflows, Reported;
    if ops != [] {
      ReportsExactly(s, ops[..|ops| - 1]);
      ReportedStep(Run(s, ops[..|ops| - 1]), ops[|ops| - 1]);
    }
  }

  // ---------------------------------------------------------------------
  // What a channel holds, and what it reported, by the assignments made
  // ---------------------------------------------------------------------

  /** An assignment that was accepted: what was given, what was stored, and when. */
  datatype Accepted = Accepted(given: Value, stored: Value, time: real)

  /** The assignments to a channel that its type accepts, in order. */
  function AcceptedSets(p: Primitive, ops: seq<Op>, n: string): seq<Accepted> {
    if ops == [] then []
    else
      var before, op := AcceptedSets(p, ops[..|ops| - 1], n), ops[|ops| - 1];
      if op.SetOp? && op.channel == n && Accept(p, op.value).Some?
      then before + [Accepted(op.value, Accept(p, op.value).value, op.time)] else before
  }

  /** The value and the time after the first `k` of some assignments. */
  function HeldAfter(p: Primitive, sets: seq<Accepted>, k: nat): Stamped
    requires k <= |sets|
  {
    if k == 0 then Stamped(DefaultValue(p), 0.0) else Stamped(sets[k - 1].stored, sets[k - 1].time)
  }

  /** The changes among the first `k` of some assignments, each with what the one before it left. */
  function ChangesAmong(p: Primitive, n: string, sets: seq<Accepted>, k: nat): seq<Event>
    requires k <= |sets|
  {
    if k == 0 then []
    else
      var prev, mine := HeldAfter(p, sets, k - 1), sets[k - 1];
      ChangesAmong(p, n, sets, k - 1) +
      if mine.stored != prev.value then [Event(n, prev, Stamped(mine.given, mine.time))] else []
  }

  /** Channels that were not assigned anything yet. */
  predicate NeverSet(s: Log) {
    Fresh(s) && forall n | n in s.channels :: s.channels[n].lastSet == 0.0
  }

  /** A channel holds the value and the time of the last assignment it accepted, also if that changed nothing. */
  lemma {:induction false} HoldsLastSet(s: Log, ops: seq<Op>, n: string)
    requires NeverSet(s) && n in s.channels
    ensures n in Run(s, ops).channels
    ensures var c, sets := Run(s, ops).channels[n], AcceptedSets(s.channels[n].info.prim, ops, n);
            && Stamped(c.data, c.lastSet) == HeldAfter(c.info.prim, sets, |sets|)
            && c == s.channels[n].(data := c.data, lastSet := c.lastSet)
  {
    hide Accept;
    if ops != [] {
      HoldsLastSet(s, ops[..|ops| - 1], n);
    }
  }

  lemma {:induction false} ChangesAmongPrefix(p: Primitive, n: string, sets: seq<Accepted>, more: seq<Accepted>, k: nat)
    requires k <= |sets|
    ensures HeldAfter(p, sets + more, k) == HeldAfter(p, sets, k)
    ensures ChangesAmong(p, n, sets + more, k) == ChangesAmong(p, n, sets, k)
  {
    if k > 0 {
      ChangesAmongPrefix(p, n, sets, more, k - 1);
    }
  }

  /** One more operation adds the change it makes, if it makes one. */
  lemma {:induction false} ChangeIsNext(s: Log, ops: seq<Op>, op: Op, n: string)
    requires NeverSet(s) && n in s.channels
    ensures var p, t := s.channels[n].info.prim, Run(s, ops);
            var sets, all := AcceptedSets(p, ops, n), AcceptedSets(p, ops + [op], n);
            var e := Change(t, op);
            ChangesAmong(p, n, all, |all|) ==
            ChangesAmong(p, n, sets, |sets|) + if e.Some? && op.channel == n then [e.value] else []
  {
    hide Accept, ChangesAmong, Run, HeldAfter, WellFormed;
    var p := s.channels[n].info.prim;
    var sets := AcceptedSets(p, ops, n);
    assert (ops + [op])[..|ops|] == ops;
    HoldsLastSet(s, ops, n);
    RunWellFormed(s, ops);
    NamesAre(Run(s, ops), n);
    if op.SetOp? && op.channel == n && Accept(p, op.value).Some? {
      OneMoreChange(p, n, sets, Accepted(op.value, Accept(p, op.value).value, op.time));
    }
  }

  lemma {:induction false} NamesAre(s: Log, n: string)
    requires WellFormed(s) && n in s.channels
    ensures s.channels[n].info.name == n
  {
  }

  lemma {:induction false} OneMoreChange(p: Primitive, n: string, sets: seq<Accepted>, last: Accepted)
    ensures var held := HeldAfter(p, sets, |sets|);
            ChangesAmong(p, n, sets + [last], |sets| + 1) ==
            ChangesAmong(p, n, sets, |sets|) +
            if last.stored != held.value then [Event(n, held, Stamped(last.given, last.time))] else []
  {
    ChangesAmongPrefix(p, n, sets, [last], |sets|);
  }

  /**
   Over any run without overflow, the events of a channel are exactly its
   changes. Each carries the value and the time of the assignment before it, be
   that a change or not, and its own.
   */
  lemma {:induction false} EventsAreChanges(s: Log, ops: seq<Op>, n: string)
    requires NeverSet(s) && n in s.channels && NoOverflow(s, ops)
    ensures var p := s.channels[n].info.prim;
            var sets := AcceptedSets(p, ops, n);
            EventsOf(Reported(Run(s, ops)), n) == ChangesAmong(p, n, sets, |sets|)
  {
    hide Change, ChangesAmong, EventsOf, Step, Overflows, WellFormed;
    if ops == [] {
      NothingReported(s, n);
    } else {
      var before, op := ops[..|ops| - 1], ops[|ops| - 1];
      assert ops == before + [op];
      NoOverflowBefore(s, ops);
      EventsAreChanges(s, before, n);
      RunWellFormed(s, before);
      EventsStep(Run(s, before), op, n);
      ChangeIsNext(s, before, op, n);
      assert Run(s, ops) == Step(Run(s, before), op);
    }
  }

  lemma {:induction false} NothingReported(s: Log, n: string)
    requires Fresh(s) && n in s.channels
    ensures EventsOf(Reported(s), n) == [] && ChangesAmong(s.channels[n].info.prim, n, [], 0) == []
  {
  }

  lemma {:induction false} NoOverflowBefore(s: Log, ops: seq<Op>)
    requires ops != [] && NoOverflow(s, ops)
    ensures NoOverflow(s, ops[..|ops| - 1]) && !Overflows(Run(s, ops[..|ops| - 1]), ops[|ops| - 1])
  {
    hide Overflows, Run;
    var before := ops[..|ops| - 1];
    assert forall i :: 0 <= i < |before| ==> ops[..i] == before[..i] && ops[i] == before[i];
  }

  lemma {:induction false} EventsStep(t: Log, op: Op, n: string)
    requires WellFormed(t) && !Overflows(t, op)
    ensures EventsOf(Reported(Step(t, op)), n) ==
            EventsOf(Reported(t), n) + if Change(t, op).Some? && op.channel == n then [Change(t, op).value] else []
  {
    hide Accept, EventsOf, Reported, Step;
    ReportedStep(t, op);
    if Change(t, op).Some? {
      EventsOfSnoc(Reported(t), Change(t, op).value, n);
    }
  }

  // ---------------------------------------------------------------------
  // A full queue
  // ---------------------------------------------------------------------

  const SWITCH := Snapshot(ChannelInfo("switch", Boolean, false), Flag(false), 0.0, 1.0, 0.0)

  function Switched(on: bool): map<string, Snapshot> {
    map["switch" := SWITCH.(data := Flag(on))]
  }

  const START := Log(Switched(false), [], [])

  /** A boolean channel switched on and off, `n` times. */
  function Toggles(n: nat): (ops: seq<Op>)
    ensures |ops| == n
  {
    if n == 0 then [] else Toggles(n - 1) + [SetOp("switch", Flag(n % 2 == 1), 0.0)]
  }

  lemma {:induction false} ToggleStep(s: Log, on: bool)
    requires s.channels == Switched(!on) && |s.queue| < MAX_SIZE
    ensures var t := Step(s, SetOp("switch", Flag(on), 0.0));
            t.channels == Switched(on) && |t.queue| == |s.queue| + 1 && t.consumed == s.consumed
  {
    assert Accept(Boolean, Flag(on)) == Some(Flag(on));
  }

  lemma {:induction false} TogglesFill(n: nat)
    requires n <= MAX_SIZE
    ensures var s := Run(START, Toggles(n));
            s.channels == Switched(n % 2 == 1) && |s.queue| == n && s.consumed == []
  {
    hide Run, Step, Toggles, Switched;
    if n == 0 {
      NothingToggled();
    } else {
      TogglesFill(n - 1);
      RunToggles(n);
      assert (n - 1) % 2 == 1 <==> n % 2 != 1;
      ToggleStep(Run(START, Toggles(n - 1)), n % 2 == 1);
    }
  }

  lemma {:induction false} NothingToggled()
    ensures Run(START, Toggles(0)) == START
  {
  }

  lemma {:induction false} RunToggles(n: nat)
    requires n > 0
    ensures Run(START, Toggles(n)) == Step(Run(START, Toggles(n - 1)), SetOp("switch", Flag(n % 2 == 1), 0.0))
  {
    hide Step;
    assert Toggles(n)[..n - 1] == Toggles(n - 1);
  }

  lemma {:induction false} LastToggle(n: nat)
    requires n > 0
    ensures Toggles(n)[n - 1] == SetOp("switch", Flag(n % 2 == 1), 0.0)
  {
  }

  /** Nobody consumes, and the channel is switched once too often: its log no longer tells its value. */
  lemma {:induction false} FullQueueLosesEvent()
    ensures Fresh(START) && Overflows(Run(START, Toggles(256)), Toggles(257)[256])
    ensures NoOverflow(START, Toggles(256)) && !Consistent(Run(START, Toggles(257)), "switch")
  {
    hide Run, Consistent, Toggles;
    var ops := Toggles(257);
    TogglesPrefix(256, 257);
    TogglesPrefix(257, 257);
    LastToggle(257);
    TogglesFill(256);
    forall i | 0 <= i < 256
      ensures !Overflows(Run(START, Toggles(256)[..i]), Toggles(256)[i])
    {
      TogglesPrefix(i, 256);
      TogglesFill(i);
    }
    LogReplays(START, Toggles(256), "switch");
    LossShows(START, ops, 256);
  }

  lemma {:induction false} TogglesPrefix(i: nat, n: nat)
    requires i <= n
    ensures Toggles(n)[..i] == Toggles(i)
  {
    if i < n {
      TogglesPrefix(i, n - 1);
      assert Toggles(n)[..i] == Toggles(n - 1)[..i];
    } else {
      assert Toggles(n)[..n] == Toggles(n);
    }
  }
}
