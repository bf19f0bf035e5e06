/** Gathering emissions and events into frames (vtelem/channel/framer.py). */
module ChannelFramers {
  import opened Wrappers
  import opened Primitives
  import opened Frames
  import opened Framers
  import opened Registries
  import opened Channels
  import opened Emission
  import opened Packing

  /** Where finished frames go. */
  class FrameQueue {
    var frames: seq<seq<byte>>

    constructor ()
      ensures frames == []
    {
      frames := [];
    }

    method Put(frame: seq<byte>)
      modifies this
      ensures frames == old(frames) + [frame]
    {
      frames := frames + [frame];
    }
  }

  // ---------------------------------------------------------------------
  // What goes into frames
  // ---------------------------------------------------------------------

  function FrameOfGroup(o: Origin, useCrc: bool, g: seq<Item>): seq<byte>
    requires IntegerCanHold(UInt32, |g|)
  {
    UnitHeld(UInt32);
    Sealed(ChannelPayload(o, g), useCrc, true, 0)
  }

  predicate Countable(groups: seq<seq<Item>>) {
    forall i :: 0 <= i < |groups| ==> IntegerCanHold(UInt32, |groups[i]|)
  }

  function FramesOfGroups(o: Origin, useCrc: bool, groups: seq<seq<Item>>): (r: seq<seq<byte>>)
    requires Countable(groups)
    ensures |r| == |groups|
  {
    seq(|groups|, i requires 0 <= i < |groups| => FrameOfGroup(o, useCrc, groups[i]))
  }

  /** A name with an identifier that fits the identifier field. */
  predicate Registered(ids: map<string, int>, infos: map<int, ChannelInfo>, name: string) {
    name in ids && ids[name] in infos && IntegerCanHold(UInt16, ids[name])
  }

  function MomentOf(s: Stamped): Moment {
    Moment(s.value, TimeToInt(s.time))
  }

  function ItemOfEvent(ids: map<string, int>, infos: map<int, ChannelInfo>, e: Event): Item
    requires Registered(ids, infos, e.channel)
  {
    EventItem(ids[e.channel], infos[ids[e.channel]].prim, MomentOf(e.prev), MomentOf(e.curr))
  }

  function ItemsOfEvents(ids: map<string, int>, infos: map<int, ChannelInfo>, es: seq<Event>): (r: seq<Item>)
    requires forall e | e in es :: Registered(ids, infos, e.channel)
    ensures |r| == |es|
    ensures forall i :: 0 <= i < |es| ==> r[i] == ItemOfEvent(ids, infos, es[i])
  {
    if es == [] then []
    else ItemsOfEvents(ids, infos, es[..|es| - 1]) + [ItemOfEvent(ids, infos, es[|es| - 1])]
  }

  predicate Emittable(ids: map<string, int>, infos: map<int, ChannelInfo>, c: Snapshot) {
    Registered(ids, infos, c.info.name) && Holds(c.info.prim, c.data)
  }

  function ItemOfChannel(ids: map<string, int>, infos: map<int, ChannelInfo>, c: Snapshot): Item
    requires Emittable(ids, infos, c)
  {
    DataItem(ids[c.info.name], c.info.prim, c.data)
  }

  predicate AllEmittable(ids: map<string, int>, infos: map<int, ChannelInfo>, cs: seq<Snapshot>) {
    forall i :: 0 <= i < |cs| ==> Emittable(ids, infos, cs[i])
  }

  /** The items of those of the first `n` channels that emit at a time, in the order of the channels. */
  function EmittedItems(ids: map<string, int>, infos: map<int, ChannelInfo>, cs: seq<Snapshot>, time: real,
                        n: nat): seq<Item>
    requires n <= |cs| && AllEmittable(ids, infos, cs)
  {
    if n == 0 then []
    else
      var before, c := EmittedItems(ids, infos, cs, time, n - 1), cs[n - 1];
      if Emits(c, time) then before + [ItemOfChannel(ids, infos, c)] else before
  }

  ghost function SnapsOf(cs: seq<Channel>): (r: seq<Snapshot>)
    reads cs
    ensures |r| == |cs|
    ensures forall i :: 0 <= i < |cs| ==> r[i] == cs[i].Snap()
  {
    if cs == [] then [] else SnapsOf(cs[..|cs| - 1]) + [cs[|cs| - 1].Snap()]
  }

  function Capacity(mtu: nat, useCrc: bool): nat
    requires Overhead(useCrc) < mtu
  {
    mtu - Overhead(useCrc)
  }

  /** Frames within the capacity of a frame can be counted. */
  lemma {:induction false} WithinCapacity(groups: seq<seq<Item>>, mtu: nat, useCrc: bool)
    requires Overhead(useCrc) < mtu && IntegerCanHold(UInt32, mtu)
    requires forall g | g in groups :: ItemsSize(g) <= Capacity(mtu, useCrc)
    ensures Countable(groups)
  {
    hide Pow2;
    forall i | 0 <= i < |groups|
      ensures IntegerCanHold(UInt32, |groups[i]|)
    {
      assert ItemsSize(groups[i]) <= Capacity(mtu, useCrc);
      CountBelowSize(groups[i]);
    }
  }

  // ---------------------------------------------------------------------
  // The framer
  // ---------------------------------------------------------------------

  class ChannelFramer {
    const framer: Framer
    const registry: Registry<ChannelInfo>
    var channels: seq<Channel>

    ghost predicate Valid()
      reads this, framer, registry
    {
      framer.Valid() && registry.Valid()
    }

    constructor (mtu: nat, registry: Registry<ChannelInfo>, channels: seq<Channel>, appId: int, useCrc: bool)
      requires registry.Valid() && IntegerCanHold(UInt16, appId)
      ensures Valid() <==> Overhead(useCrc) < mtu && IntegerCanHold(UInt32, mtu)
      ensures fresh(framer) && this.registry == registry && this.channels == channels
      ensures framer.mtu == mtu && framer.appId == appId && framer.useCrc == useCrc
    {
      framer := new Framer(mtu, appId, useCrc);
      this.registry := registry;
      this.channels := channels;
    }

    ghost function Room(): nat
      requires Valid()
      reads this, framer, registry
    {
      Capacity(framer.mtu, framer.useCrc)
    }

    method AddChannel(c: Channel)
      modifies this`channels
      ensures channels == old(channels) + [c]
    {
      channels := channels + [c];
    }

    /** An empty frame of this framer. */
    ghost predicate IsNew(frame: ChannelFrame, o: Origin)
      reads frame.Footprint()
    {
      && frame.Valid() && !frame.base.finalized
      && frame.base.mtu == framer.mtu && frame.base.useCrc == framer.useCrc && frame.base.origin == o
    }

    method NewFrame(t: FrameType, time: Option<real>) returns (frame: ChannelFrame)
      requires Valid()
      requires time.Some? ==> IntegerCanHold(UInt64, TimeToInt(time.value))
      modifies framer
      ensures Valid() && t in framer.timestamps && t in old(framer.timestamps)
      ensures framer.timestamps == if time.Some? then old(framer.timestamps)[t := TimeToInt(time.value)]
                                   else old(framer.timestamps)
      ensures IsNew(frame, Origin(framer.appId, t, framer.timestamps[t])) && frame.items == []
      ensures fresh(frame.Footprint())
    {
      hide IntegerBounds, Head, TimeToInt;
      var o := framer.NewOrigin(t, time);
      frame := new ChannelFrame(framer.mtu, o, framer.useCrc);
    }

    /** Finish a frame and hand it over. */
    method Flush(frame: ChannelFrame, queue: FrameQueue, ghost o: Origin)
      requires Valid() && IsNew(frame, o)
      modifies frame.Footprint(), queue
      ensures IntegerCanHold(UInt32, |old(frame.items)|)
      ensures queue.frames == old(queue.frames) + [FrameOfGroup(o, framer.useCrc, old(frame.items))]
    {
      hide Pow2, Head;
      CountBelowSize(frame.items);
      UnitHeld(UInt32);
      var _ := frame.Finalize(framer.useCrc, 0);
      queue.Put(frame.base.buffer.data);
    }

    /** The items of a packing are in the current frame and in the frames handed over so far. */
    ghost predicate Filling(frame: ChannelFrame, queue: FrameQueue, o: Origin, p: Packed, before: seq<seq<byte>>)
      reads frame.Footprint(), queue
    {
      && IsNew(frame, o) && frame.items == p.open
      && Countable(p.closed) && queue.frames == before + FramesOfGroups(o, framer.useCrc, p.closed)
    }

    /** The identifier and type of a registered channel. */
    method Lookup(name: string) returns (chanId: int, chanType: Primitive)
      requires Valid() && Registered(registry.mappings, registry.items, name)
      ensures chanId == registry.mappings[name] && chanType == registry.items[chanId].prim
      ensures IntegerCanHold(UInt16, chanId)
    {
      hide IntegerBounds;
      chanId := registry.GetId(name).value;
      chanType := registry.GetItem(chanId).value.prim;
    }

    method StartFrames(t: FrameType, time: real, queue: FrameQueue) returns (frame: ChannelFrame, ghost o: Origin)
      requires Valid() && IntegerCanHold(UInt64, TimeToInt(time))
      modifies framer
      ensures Valid() && t in framer.timestamps
      ensures framer.timestamps == old(framer.timestamps)[t := TimeToInt(time)]
      ensures o == Origin(framer.appId, t, TimeToInt(time))
      ensures Filling(frame, queue, o, PutAll([], Room()), queue.frames)
      ensures fresh(frame.Footprint())
    {
      hide IntegerBounds, Head, TimeToInt;
      frame := NewFrame(t, Some(time));
      o := frame.base.origin;
      NoFramesYet(o, framer.useCrc, queue.frames);
    }

    /** A full frame is handed over and a new one started, with the same timestamp. */
    method Rollover(frame: ChannelFrame, queue: FrameQueue, t: FrameType,
                    ghost o: Origin, ghost p: Packed, ghost before: seq<seq<byte>>)
      returns (next: ChannelFrame)
      requires Valid() && Filling(frame, queue, o, p, before)
      requires t in framer.timestamps && o == Origin(framer.appId, t, framer.timestamps[t])
      modifies framer, queue, frame.Footprint()
      ensures Valid() && framer.timestamps == old(framer.timestamps) && fresh(next.Footprint())
      ensures Filling(next, queue, o, Packed(p.closed + [p.open], []), before)
    {
      hide IntegerBounds, Head, FrameOfGroup, FramesOfGroups, ItemsSize;
      Flush(frame, queue, o);
      FramesSnoc(o, framer.useCrc, p.closed, p.open);
      next := NewFrame(t, None);
    }

    /** An event goes into the current frame, or into a new one after that is handed over. */
    method PlaceEvent(frame: ChannelFrame, queue: FrameQueue, t: FrameType, chanId: int, chanType: Primitive,
                      prev: Moment, curr: Moment, ghost o: Origin, ghost p: Packed, ghost before: seq<seq<byte>>)
      returns (next: ChannelFrame, flushed: bool)
      requires Valid() && Filling(frame, queue, o, p, before) && IntegerCanHold(UInt16, chanId)
      requires t in framer.timestamps && o == Origin(framer.appId, t, framer.timestamps[t])
      requires ItemSize(EventItem(chanId, chanType, prev, curr)) <= Room()
      modifies framer, queue, frame.Footprint()
      ensures Valid() && framer.timestamps == old(framer.timestamps)
      ensures next == frame || fresh(next.Footprint())
      ensures var after := Put(p, EventItem(chanId, chanType, prev, curr), Room());
              && Filling(next, queue, o, after, before)
              && |after.closed| == |p.closed| + if flushed then 1 else 0
    {
      hide IntegerBounds, Head, FrameOfGroup, FramesOfGroups, ItemSize, ItemsSize, EventItem;
      next := frame;
      var ok := frame.AddEvent(chanId, chanType, prev, curr);
      flushed := !ok;
      if !ok {
        next := Rollover(frame, queue, t, o, p, before);
        NothingFits(EventItem(chanId, chanType, prev, curr), Room());
        ok := next.AddEvent(chanId, chanType, prev, curr);
        assert ok;
      }
    }

    /** A value goes into the current frame, or into a new one after that is handed over. */
    method PlaceValue(frame: ChannelFrame, queue: FrameQueue, t: FrameType, chanId: int, chanType: Primitive,
                      value: Value, ghost o: Origin, ghost p: Packed, ghost before: seq<seq<byte>>)
      returns (next: ChannelFrame, flushed: bool)
      requires Valid() && Filling(frame, queue, o, p, before) && IntegerCanHold(UInt16, chanId)
               && Holds(chanType, value)
      requires t in framer.timestamps && o == Origin(framer.appId, t, framer.timestamps[t])
      requires ItemSize(DataItem(chanId, chanType, value)) <= Room()
      modifies framer, queue, frame.Footprint()
      ensures Valid() && framer.timestamps == old(framer.timestamps)
      ensures next == frame || fresh(next.Footprint())
      ensures var after := Put(p, DataItem(chanId, chanType, value), Room());
              && Filling(next, queue, o, after, before)
              && |after.closed| == |p.closed| + if flushed then 1 else 0
    {
      hide IntegerBounds, Head, FrameOfGroup, FramesOfGroups, ItemSize, ItemsSize, DataItem;
      next := frame;
      var ok := frame.Add(chanId, chanType, value);
      flushed := !ok;
      if !ok {
        next := Rollover(frame, queue, t, o, p, before);
        NothingFits(DataItem(chanId, chanType, value), Room());
        ok := next.Add(chanId, chanType, value);
        assert ok;
      }
    }

    /** Whatever is left in the current frame is handed over, if anything was put at all. */
    method FinishFrames(frame: ChannelFrame, queue: FrameQueue, count: nat, frames: nat,
                        ghost o: Origin, ghost items: seq<Item>, ghost before: seq<seq<byte>>)
      returns (total: nat)
      requires Valid() && Filling(frame, queue, o, PutAll(items, Room()), before)
      requires count == |items| && frames == |PutAll(items, Room()).closed|
      modifies queue, frame.Footprint()
      ensures var groups := Greedy(items, Room());
              && Countable(groups) && queue.frames == before + FramesOfGroups(o, framer.useCrc, groups)
              && total == |groups|
    {
      hide IntegerBounds, Head, FrameOfGroup, FramesOfGroups, PutAll;
      total := frames;
      NothingPut(Room());
      if count > 0 && !frame.base.finalized {
        ghost var p := PutAll(items, Room());
        Flush(frame, queue, o);
        FramesSnoc(o, framer.useCrc, p.closed, p.open);
        total := frames + 1;
      }
    }

    /** Events go into frames one by one. */
    method FrameEvents(es: seq<Event>, first: ChannelFrame, queue: FrameQueue,
                       ghost o: Origin, ghost items: seq<Item>, ghost before: seq<seq<byte>>)
      returns (frame: ChannelFrame, frameCount: nat)
      requires Valid() && Filling(first, queue, o, PutAll([], Room()), before)
      requires |items| == |es| && AllFit(items, Room())
      requires forall i :: 0 <= i < |es| ==>
                 && Registered(registry.mappings, registry.items, es[i].channel)
                 && items[i] == ItemOfEvent(registry.mappings, registry.items, es[i])
      requires EventFrame in framer.timestamps && o == Origin(framer.appId, EventFrame, framer.timestamps[EventFrame])
      modifies framer, queue, first.Footprint()
      ensures Valid() && framer.timestamps == old(framer.timestamps)
      ensures frame == first || fresh(frame.Footprint())
      ensures Filling(frame, queue, o, PutAll(items, Room()), before) && frameCount == |PutAll(items, Room()).closed|
    {
      hide IntegerBounds, Head, FramesOfGroups, Countable, ItemSize, Put, EventItem, Filling, Valid, PutAll;
      frame, frameCount := first, 0;
      ghost var p := PutAll([], Room());
      assert items[..0] == [];
      NothingPut(Room());
      for i := 0 to |es|
        invariant Valid() && framer.timestamps == old(framer.timestamps)
        invariant Filling(frame, queue, o, p, before) && p == PutAll(items[..i], Room()) && frameCount == |p.closed|
        invariant frame == first || fresh(frame.Footprint())
      {
        assert items[..i + 1] == items[..i] + [items[i]];
        PutOne(items[..i], items[i], Room());
        assert items[i] in items;
        var chanId, chanType := Lookup(es[i].channel);
        var flushed;
        frame, flushed := PlaceEvent(frame, queue, EventFrame, chanId, chanType,
                                     MomentOf(es[i].prev), MomentOf(es[i].curr), o, p, before);
        p := Put(p, items[i], Room());
        frameCount := frameCount + if flushed then 1 else 0;
      }
      assert items[..|es|] == items;
    }

    /** All queued events become event frames, in order and with one timestamp. */
    method BuildEventFrames(time: real, events: EventQueue, queue: FrameQueue)
      returns (frameCount: nat, eventCount: nat)
      requires Valid() && IntegerCanHold(UInt64, TimeToInt(time))
      requires forall e | e in events.queue :: Registered(registry.mappings, registry.items, e.channel)
      requires AllFit(ItemsOfEvents(registry.mappings, registry.items, events.queue), Room())
      modifies framer, events, queue
      ensures Valid() && events.queue == []
      ensures framer.timestamps == old(framer.timestamps)[EventFrame := TimeToInt(time)]
      ensures var items := ItemsOfEvents(registry.mappings, registry.items, old(events.queue));
              var groups := Greedy(items, Room());
              var o := Origin(framer.appId, EventFrame, TimeToInt(time));
              && Countable(groups) && queue.frames == old(queue.frames) + FramesOfGroups(o, framer.useCrc, groups)
              && frameCount == |groups| && eventCount == |items|
    {
      hide IntegerBounds, Head, FramesOfGroups, Countable, Filling, Greedy, TimeToInt, Valid;
      ghost var items, before := ItemsOfEvents(registry.mappings, registry.items, events.queue), queue.frames;
      var es := events.Consume();
      eventCount := |es|;
      var frame, o := StartFrames(EventFrame, time, queue);
      frame, frameCount := FrameEvents(es, frame, queue, o, items, before);
      frameCount := FinishFrames(frame, queue, eventCount, frameCount, o, items, before);
    }

    /** A channel that is due goes into the current frame or a new one. */
    method EmitInto(c: Channel, time: real, frame: ChannelFrame, queue: FrameQueue,
                    ghost o: Origin, ghost p: Packed, ghost before: seq<seq<byte>>, ghost item: Item)
      returns (next: ChannelFrame, emitted: bool, flushed: bool)
      requires Valid() && Filling(frame, queue, o, p, before)
      requires DataFrame in framer.timestamps && o == Origin(framer.appId, DataFrame, framer.timestamps[DataFrame])
      requires Emittable(registry.mappings, registry.items, c.Snap())
      requires item == ItemOfChannel(registry.mappings, registry.items, c.Snap())
      requires Emits(c.Snap(), time) ==> ItemSize(item) <= Room()
      modifies c`lastEmitted, framer, queue, frame.Footprint()
      ensures Valid() && framer.timestamps == old(framer.timestamps)
      ensures next == frame || fresh(next.Footprint())
      ensures c.Snap() == AfterEmit(old(c.Snap()), time) && (emitted <==> Emits(old(c.Snap()), time))
      ensures var after := if emitted then Put(p, item, Room()) else p;
              && Filling(next, queue, o, after, before)
              && |after.closed| == |p.closed| + if flushed then 1 else 0
    {
      hide IntegerBounds, Head, Put, Holds, Filling, Valid, ItemSize;
      next, flushed := frame, false;
      var result := c.Emit(time);
      emitted := result.Some?;
      if emitted {
        var chanId, _ := Lookup(c.info.name);
        next, flushed := PlaceValue(frame, queue, DataFrame, chanId, c.info.prim, result.value, o, p, before);
      }
    }

    /** Channels that are due go into frames one by one. */
    method FrameEmissions(cs: seq<Channel>, time: real, first: ChannelFrame, queue: FrameQueue, ghost o: Origin,
                          ghost before: seq<seq<byte>>,
                          ghost ids: map<string, int>, ghost infos: map<int, ChannelInfo>, ghost snaps: seq<Snapshot>)
      returns (frame: ChannelFrame, frameCount: nat, emitCount: nat)
      requires Valid() && Filling(first, queue, o, PutAll([], Room()), before)
      requires ids == registry.mappings && infos == registry.items && |snaps| == |cs|
      requires forall i, j :: 0 <= i < j < |cs| ==> cs[i] != cs[j]
      requires forall i :: 0 <= i < |cs| ==> cs[i].Snap() == snaps[i] && cs[i] !in first.Footprint()
      requires AllEmittable(ids, infos, snaps) && AllFit(EmittedItems(ids, infos, snaps, time, |snaps|), Room())
      requires DataFrame in framer.timestamps && o == Origin(framer.appId, DataFrame, framer.timestamps[DataFrame])
      modifies framer, queue, cs, first.Footprint()
      ensures Valid() && framer.timestamps == old(framer.timestamps)
      ensures frame == first || fresh(frame.Footprint())
      ensures forall i :: 0 <= i < |cs| ==> cs[i].Snap() == AfterEmit(snaps[i], time)
      ensures var items := EmittedItems(ids, infos, snaps, time, |snaps|);
              && Filling(frame, queue, o, PutAll(items, Room()), before)
              && frameCount == |PutAll(items, Room()).closed| && emitCount == |items|
    {
      hide IntegerBounds, Head, FramesOfGroups, Countable, ItemSize, Put, Emittable, Filling, AllFit, Valid, AfterEmit,
        Emits, ItemOfChannel, PutAll, AllEmittable;
      frame, frameCount, emitCount := first, 0, 0;
      ghost var items, p := [], PutAll([], Room());
      NothingPut(Room());
      for i := 0 to |cs|
        invariant Valid() && framer.timestamps == old(framer.timestamps)
        invariant frame == first || fresh(frame.Footprint())
        invariant Filling(frame, queue, o, p, before) && p == PutAll(items, Room()) && frameCount == |p.closed|
        invariant items == EmittedItems(ids, infos, snaps, time, i) && emitCount == |items|
        invariant forall k :: 0 <= k < |cs| ==>
                    cs[k].Snap() == if k < i then AfterEmit(snaps[k], time) else snaps[k]
      {
        EmittedFit(ids, infos, snaps, time, i, |cs|, Room());
        var emitted, flushed;
        ghost var item := ItemOfChannel(ids, infos, snaps[i]);
        frame, emitted, flushed := EmitInto(cs[i], time, frame, queue, o, p, before, item);
        if emitted {
          PutOne(items, item, Room());
          items, p := items + [item], Put(p, item, Room());
          emitCount := emitCount + 1;
        }
        frameCount := frameCount + if flushed then 1 else 0;
      }
    }

    /** Every channel that is due is emitted into data frames, in order and with one timestamp. */
    method BuildDataFrames(time: real, queue: FrameQueue) returns (frameCount: nat, emitCount: nat)
      requires Valid() && IntegerCanHold(UInt64, TimeToInt(time))
      requires forall i, j :: 0 <= i < j < |channels| ==> channels[i] != channels[j]
      requires AllEmittable(registry.mappings, registry.items, SnapsOf(channels))
      requires AllFit(EmittedItems(registry.mappings, registry.items, SnapsOf(channels), time, |channels|), Room())
      modifies framer, queue, channels
      ensures Valid()
      ensures framer.timestamps == old(framer.timestamps)[DataFrame := TimeToInt(time)]
      ensures forall i :: 0 <= i < |channels| ==> channels[i].Snap() == AfterEmit(old(channels[i].Snap()), time)
      ensures var items := EmittedItems(registry.mappings, registry.items, old(SnapsOf(channels)), time, |channels|);
              var groups := Greedy(items, Room());
              var o := Origin(framer.appId, DataFrame, TimeToInt(time));
              && Countable(groups) && queue.frames == old(queue.frames) + FramesOfGroups(o, framer.useCrc, groups)
              && frameCount == |groups| && emitCount == |items|
    {
      hide IntegerBounds, Head, FramesOfGroups, Countable, AllEmittable, Filling, Greedy, TimeToInt, AllFit, Valid,
        AfterEmit;
      ghost var snaps, before := SnapsOf(channels), queue.frames;
      ghost var items := EmittedItems(registry.mappings, registry.items, snaps, time, |channels|);
      var frame, o := StartFrames(DataFrame, time, queue);
      frame, frameCount, emitCount :=
        FrameEmissions(channels, time, frame, queue, o, before, registry.mappings, registry.items, snaps);
      frameCount := FinishFrames(frame, queue, emitCount, frameCount, o, items, before);
    }
  }

  lemma {:induction false} FramesSnoc(o: Origin, useCrc: bool, groups: seq<seq<Item>>, g: seq<Item>)
    requires Countable(groups) && IntegerCanHold(UInt32, |g|)
    ensures Countable(groups + [g])
    ensures FramesOfGroups(o, useCrc, groups + [g]) == FramesOfGroups(o, useCrc, groups) + [FrameOfGroup(o, useCrc, g)]
  {
    hide FrameOfGroup, IntegerBounds;
  }

  lemma {:induction false} NoFramesYet(o: Origin, useCrc: bool, before: seq<seq<byte>>)
    ensures Countable([]) && before == before + FramesOfGroups(o, useCrc, [])
  {
  }

  lemma {:induction false} NothingPut(capacity: nat)
    ensures PutAll([], capacity) == Packed([], [])
  {
  }

  /** The items of the first channels are the first items, so they fit if all do. */
  lemma {:induction false} EmittedFit(ids: map<string, int>, infos: map<int, ChannelInfo>, cs: seq<Snapshot>,
                                      time: real, i: nat, n: nat, capacity: nat)
    requires i < n <= |cs| && AllEmittable(ids, infos, cs)
    requires AllFit(EmittedItems(ids, infos, cs, time, n), capacity)
    ensures Emittable(ids, infos, cs[i])
    ensures Emits(cs[i], time) ==> ItemSize(ItemOfChannel(ids, infos, cs[i])) <= capacity
    decreases n
  {
    hide ItemOfChannel, Emittable, ItemSize;
    var items, before := EmittedItems(ids, infos, cs, time, n), EmittedItems(ids, infos, cs, time, n - 1);
    assert forall x | x in before :: x in items;
    if i + 1 < n {
      EmittedFit(ids, infos, cs, time, i, n - 1, capacity);
    } else if Emits(cs[i], time) {
      assert ItemOfChannel(ids, infos, cs[i]) in items;
    }
  }
}
