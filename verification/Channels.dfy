/**
 Channels: values that report their changes to a queue and are emitted at a
 rate (vtelem/classes/type_primitive.py, vtelem/channel/__init__.py,
 vtelem/classes/event_queue.py).
 */
module Channels {
  import opened Wrappers
  import opened Primitives
  import opened Registries

  /** A value and when it was assigned. */
  datatype Stamped = Stamped(value: Value, time: real)

  datatype Event = Event(channel: string, prev: Stamped, curr: Stamped)

  const MAX_SIZE: nat := 256

  class EventQueue {
    var queue: seq<Event>

    constructor ()
      ensures queue == []
    {
      queue := [];
    }

    /** A full queue turns the event away. */
    method Enqueue(e: Event) returns (ok: bool)
      modifies this
      ensures ok <==> |old(queue)| < MAX_SIZE
      ensures queue == if ok then old(queue) + [e] else old(queue)
    {
      if |queue| < MAX_SIZE {
        queue := queue + [e];
        return true;
      }
      return false;
    }

    /** Everything queued, oldest first. */
    method Consume() returns (result: seq<Event>)
      modifies this
      ensures result == old(queue) && queue == []
    {
      result := [];
      while queue != []
        invariant result + queue == old(queue)
        decreases |queue|
      {
        result := result + [queue[0]];
        queue := queue[1..];
      }
    }
  }

  // ---------------------------------------------------------------------
  // Assignments and emissions, as functions
  // ---------------------------------------------------------------------

  /** What a channel is at some moment. */
  datatype Snapshot = Snapshot(info: ChannelInfo, data: Value, lastSet: real, rate: real, lastEmitted: real)

  /** Assigning a value: what the channel becomes, and the event it reports if its value changed. */
  function Assign(c: Snapshot, v: Value, time: real): (Snapshot, Option<Event>) {
    var stored := Accept(c.info.prim, v);
    if stored.None? then (c, None)
    else (c.(data := stored.value, lastSet := time),
          if stored.value == c.data then None
          else Some(Event(c.info.name, Stamped(c.data, c.lastSet), Stamped(v, time))))
  }

  predicate Emits(c: Snapshot, time: real) {
    time >= c.lastEmitted + c.rate
  }

  class Channel {
    const info: ChannelInfo
    const events: EventQueue?
    var data: Value
    var lastSet: real
    var rate: real
    var lastEmitted: real

    ghost predicate Valid()
      reads this
    {
      Holds(info.prim, data)
    }

    function Snap(): Snapshot
      reads this
    {
      Snapshot(info, data, lastSet, rate, lastEmitted)
    }

    constructor (info: ChannelInfo, rate: real, events: EventQueue?)
      ensures Valid() && this.info == info && this.events == events
      ensures Snap() == Snapshot(info, DefaultValue(info.prim), 0.0, rate, 0.0)
    {
      this.info := info;
      this.events := events;
      this.rate := rate;
      this.data := DefaultValue(info.prim);
      this.lastSet := 0.0;
      this.lastEmitted := 0.0;
    }

    /** A rejected value changes nothing; an accepted one that differs from the last is reported, room permitting. */
    method Set(v: Value, time: Option<real>) returns (ok: bool)
      requires Valid()
      modifies this, events
      ensures Valid() && (ok <==> Accept(info.prim, v).Some?)
      ensures var (after, event) := Assign(old(Snap()), v, if time.Some? then time.value else 0.0);
              && Snap() == after
              && (events != null ==>
                    events.queue == if event.Some? && |old(events.queue)| < MAX_SIZE
                                    then old(events.queue) + [event.value] else old(events.queue))
    {
      var when := if time.Some? then time.value else 0.0;
      var stored := Accept(info.prim, v);
      if stored.None? {
        return false;
      }
      var prev := Stamped(data, lastSet);
      data := stored.value;
      lastSet := when;
      if events != null && prev.value != stored.value {
        var _ := events.Enqueue(Event(info.name, prev, Stamped(v, when)));
      }
      return true;
    }

    method Emit(time: real) returns (result: Option<Value>)
      modifies this`lastEmitted
      ensures result == if Emits(old(Snap()), time) then Some(data) else None
      ensures lastEmitted == if Emits(old(Snap()), time) then time else old(lastEmitted)
    {
      result := None;
      if time >= lastEmitted + rate {
        result := Some(data);
        lastEmitted := time;
      }
    }
  }
}
