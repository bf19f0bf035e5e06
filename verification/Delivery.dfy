/** What a receiver gets of the frames that a channel framer queued (vtelem/channel/framer.py, vtelem/parsing/). */
module Delivery {
  import opened Wrappers
  import opened Primitives
  import opened Wire
  import opened Frames
  import opened Framers
  import opened Registries
  import opened Channels
  import opened Parsing
  import opened RoundTrips
  import opened Packing
  import opened Sequences
  import opened ChannelFramers
  import Crc

  /** The elements of a frame that parses as a data or event frame. */
  function FrameElements(reg: ChannelTable, frame: seq<byte>, expectedId: Option<int>): seq<Element> {
    var r := DecodeFrame(reg, frame, expectedId);
    if r.Parsed? && (r.frame.body.DataBody? || r.frame.body.EventBody?) then r.frame.body.elements else []
  }

  function ElementsIn(reg: ChannelTable, frames: seq<seq<byte>>, expectedId: Option<int>): seq<Element> {
    if frames == [] then []
    else ElementsIn(reg, frames[..|frames| - 1], expectedId) + FrameElements(reg, frames[|frames| - 1], expectedId)
  }

  /** How one queued frame parses. */
  function ParsedGroup(reg: ChannelTable, o: Origin, useCrc: bool, g: seq<Item>): Outcome
    requires IntegerCanHold(UInt32, |g|) && forall i | i in g :: i.id in reg
  {
    Parsed(ParsedFrame(HeaderOf(o, |FrameOfGroup(o, useCrc, g)|, |g|), ElementsBody(o.frameType, ElementsOf(reg, g)),
                       if useCrc then Some(Crc.Crc32(ChannelPayload(o, g))) else None))
  }

  lemma {:induction false} GroupDecodes(reg: ChannelTable, o: Origin, useCrc: bool, g: seq<Item>,
                                        expectedId: Option<int>)
    requires o.frameType == DataFrame || o.frameType == EventFrame
    requires IntegerCanHold(UInt32, |g|) && AllKnown(reg, o.frameType, g) && Expected(expectedId, o)
    ensures DecodeFrame(reg, FrameOfGroup(o, useCrc, g), expectedId) == ParsedGroup(reg, o, useCrc, g)
    ensures FrameElements(reg, FrameOfGroup(o, useCrc, g), expectedId) == ElementsOf(reg, g)
  {
    hide DecodeFrame, ChannelPayload, Crc.Crc32, Sealed, ElementsOf, Layout, Prims;
    UnitHeld(UInt32);
    hide IntegerBounds;
    ChannelFrameRoundTrip(reg, o, g, useCrc, true, 0, expectedId);
  }

  lemma {:induction false} FieldsLength(items: seq<Item>)
    ensures |Pack(IdFields(items))| + |Pack(BodyFields(items))| == ItemsSize(items)
  {
    hide Bytes, IntegerBounds, Prims;
    if items != [] {
      FieldsLength(items[1..]);
      IdFieldsLength(items);
      IdFieldsLength(items[1..]);
      PackAppend(items[0].fields, BodyFields(items[1..]));
      PackLength(items[0].fields);
    }
  }

  /** A frame is as long as the room its items take plus the overhead. */
  lemma {:induction false} GroupLength(o: Origin, useCrc: bool, g: seq<Item>)
    requires IntegerCanHold(UInt32, |g|)
    ensures |FrameOfGroup(o, useCrc, g)| == Overhead(useCrc) + ItemsSize(g)
  {
    hide Head, IntegerBounds, Pack, IdFields, BodyFields, Crc.Crc32, ItemsSize;
    FieldsLength(g);
  }

  lemma {:induction false} ElementsOfAppend(reg: ChannelTable, a: seq<Item>, b: seq<Item>)
    requires forall i | i in a + b :: i.id in reg
    ensures forall i | i in a :: i.id in reg
    ensures forall i | i in b :: i.id in reg
    ensures ElementsOf(reg, a + b) == ElementsOf(reg, a) + ElementsOf(reg, b)
  {
    assert forall i | i in a :: i in a + b;
    assert forall i | i in b :: i in a + b;
  }

  lemma {:induction false} GroupsDeliver(reg: ChannelTable, o: Origin, useCrc: bool, groups: seq<seq<Item>>,
                                         expectedId: Option<int>)
    requires o.frameType == DataFrame || o.frameType == EventFrame
    requires Countable(groups) && Expected(expectedId, o) && AllKnown(reg, o.frameType, Concat(groups))
    ensures ElementsIn(reg, FramesOfGroups(o, useCrc, groups), expectedId) == ElementsOf(reg, Concat(groups))
  {
    hide FrameElements, FrameOfGroup, IntegerBounds, Layout, Prims, ParsedGroup, DecodeFrame;
    if groups != [] {
      var n := |groups| - 1;
      var front, g := groups[..n], groups[n];
      assert groups == front + [g];
      ConcatSnoc(front, g);
      hide Concat;
      assert forall i | i in Concat(front) :: i in Concat(groups);
      assert forall i | i in g :: i in Concat(groups);
      GroupsDeliver(reg, o, useCrc, front, expectedId);
      GroupDecodes(reg, o, useCrc, g, expectedId);
      ElementsOfAppend(reg, Concat(front), g);
      var frames := FramesOfGroups(o, useCrc, groups);
      assert frames[..n] == FramesOfGroups(o, useCrc, front);
    }
  }

  /**
   The frames of a dispatch deliver exactly its elements, in order: each frame
   is non-empty, within the MTU and parses with the common header, their
   elements together are the items put in, and no other way of cutting the
   items into frames would have needed fewer.
   */
  lemma {:induction false} FramesDeliver(reg: ChannelTable, o: Origin, mtu: nat, useCrc: bool, items: seq<Item>,
                                         expectedId: Option<int>)
    requires o.frameType == DataFrame || o.frameType == EventFrame
    requires Overhead(useCrc) < mtu && IntegerCanHold(UInt32, mtu) && Expected(expectedId, o)
    requires AllFit(items, Capacity(mtu, useCrc)) && AllKnown(reg, o.frameType, items)
    ensures var groups := Greedy(items, Capacity(mtu, useCrc));
            && Countable(groups)
            && var frames := FramesOfGroups(o, useCrc, groups);
               && ElementsIn(reg, frames, expectedId) == ElementsOf(reg, items)
               && forall i :: 0 <= i < |frames| ==>
                    && groups[i] != [] && |frames[i]| <= mtu && (forall x | x in groups[i] :: x.id in reg)
                    && DecodeFrame(reg, frames[i], expectedId) == ParsedGroup(reg, o, useCrc, groups[i])
    ensures forall other | Splits(other, items, Capacity(mtu, useCrc)) ::
              |Greedy(items, Capacity(mtu, useCrc))| <= |other|
  {
    hide DecodeFrame, FrameOfGroup, IntegerBounds, Layout, Prims, ParsedGroup, ItemSize, ItemsSize, Greedy, ElementsIn,
      Concat;
    var groups := Greedy(items, Capacity(mtu, useCrc));
    GreedySplits(items, Capacity(mtu, useCrc));
    WithinCapacity(groups, mtu, useCrc);
    GroupsDeliver(reg, o, useCrc, groups, expectedId);
    forall i | 0 <= i < |groups|
      ensures groups[i] != [] && |FrameOfGroup(o, useCrc, groups[i])| <= mtu
              && (forall x: Item | x in groups[i] :: x.id in reg)
      ensures DecodeFrame(reg, FrameOfGroup(o, useCrc, groups[i]), expectedId) == ParsedGroup(reg, o, useCrc, groups[i])
    {
      assert groups[i] in groups;
      GroupLength(o, useCrc, groups[i]);
      InWhole(groups, i);
      GroupDecodes(reg, o, useCrc, groups[i], expectedId);
    }
    forall other | Splits(other, items, Capacity(mtu, useCrc))
      ensures |groups| <= |other|
    {
      GreedyOptimal(items, Capacity(mtu, useCrc), other);
    }
  }

  lemma {:induction false} InWhole(groups: seq<seq<Item>>, i: nat)
    requires i < |groups|
    ensures forall x | x in groups[i] :: x in Concat(groups)
    decreases |groups|
  {
    if i > 0 {
      InWhole(groups[1..], i - 1);
    }
  }

  // ---------------------------------------------------------------------
  // The items of a framer are known to its registry
  // ---------------------------------------------------------------------

  lemma {:induction false} EventKnown(ids: map<string, int>, infos: map<int, ChannelInfo>, e: Event)
    requires Registered(ids, infos, e.channel) && !infos[ids[e.channel]].isStream
    ensures Known(infos, EventFrame, ItemOfEvent(ids, infos, e))
  {
    hide IntegerBounds, Assigned;
  }

  lemma {:induction false} EventsKnown(ids: map<string, int>, infos: map<int, ChannelInfo>, es: seq<Event>)
    requires forall e | e in es :: Registered(ids, infos, e.channel) && !infos[ids[e.channel]].isStream
    ensures AllKnown(infos, EventFrame, ItemsOfEvents(ids, infos, es))
  {
    hide IntegerBounds, ItemOfEvent, Known;
    var items := ItemsOfEvents(ids, infos, es);
    forall x | x in items
      ensures Known(infos, EventFrame, x)
    {
      var i :| 0 <= i < |items| && items[i] == x;
      EventKnown(ids, infos, es[i]);
    }
  }

  lemma {:induction false} EmissionsKnown(ids: map<string, int>, infos: map<int, ChannelInfo>, cs: seq<Snapshot>,
                                          time: real, n: nat)
    requires n <= |cs| && AllEmittable(ids, infos, cs)
    requires forall i :: 0 <= i < |cs| ==> infos[ids[cs[i].info.name]] == cs[i].info && !cs[i].info.isStream
    ensures AllKnown(infos, DataFrame, EmittedItems(ids, infos, cs, time, n))
  {
    hide IntegerBounds;
    if n > 0 {
      EmissionsKnown(ids, infos, cs, time, n - 1);
      assert Emittable(ids, infos, cs[n - 1]);
    }
  }

  // ---------------------------------------------------------------------
  // The items say what happened
  // ---------------------------------------------------------------------

  /** The channels among the first `n` that are due. */
  function Due(cs: seq<Snapshot>, time: real, n: nat): seq<Snapshot>
    requires n <= |cs|
  {
    if n == 0 then [] else Due(cs, time, n - 1) + if Emits(cs[n - 1], time) then [cs[n - 1]] else []
  }

  /** Each channel that is due is sent once, under its identifier and with its current value. */
  lemma {:induction false} EmissionsFaithful(ids: map<string, int>, infos: map<int, ChannelInfo>, cs: seq<Snapshot>,
                                             time: real, n: nat)
    requires n <= |cs| && AllEmittable(ids, infos, cs)
    ensures var items, due := EmittedItems(ids, infos, cs, time, n), Due(cs, time, n);
            && |items| == |due|
            && forall k :: 0 <= k < |due| ==>
                 && due[k].info.name in ids && items[k].id == ids[due[k].info.name]
                 && |items[k].fields| == 1 && items[k].fields[0].prim == due[k].info.prim
                 && items[k].fields[0].value == due[k].data
  {
    hide IntegerBounds;
    if n > 0 {
      EmissionsFaithful(ids, infos, cs, time, n - 1);
      assert Emittable(ids, infos, cs[n - 1]);
    }
  }

  /** A time in thousandths, if it can be sent. */
  function Millis(time: real, otherwise: Value): Value {
    var t := (time * 1000.0).Floor;
    if IntegerCanHold(UInt64, t) then Number(t) else otherwise
  }

  /**
   An event is sent under its channel's identifier. What the channel's type does
   not accept is replaced by what was sent before it: the previous value by the
   default, the current one by the previous one, and times likewise.
   */
  lemma {:induction false} EventsFaithful(ids: map<string, int>, infos: map<int, ChannelInfo>, e: Event)
    requires Registered(ids, infos, e.channel)
    ensures var item, p := ItemOfEvent(ids, infos, e), infos[ids[e.channel]].prim;
            var fs := item.fields;
            var prev, curr := Accept(p, e.prev.value), Accept(p, e.curr.value);
            && item.id == ids[e.channel] && Prims(fs) == Layout(EventFrame, p)
            && fs[0].value == (if prev.Some? then prev.value else DefaultValue(p))
            && fs[1].value == Millis(e.prev.time, Number(0))
            && fs[2].value == (if curr.Some? then curr.value else fs[0].value)
            && fs[3].value == Millis(e.curr.time, fs[1].value)
  {
    hide IntegerBounds, TimeToInt;
    TimeToIntRoundsDown(e.prev.time);
    TimeToIntRoundsDown(e.curr.time);
  }

  /** The event of an assignment carries what the channel held before and what it holds now, as it stores them. */
  lemma {:induction false} ChangesFaithful(ids: map<string, int>, infos: map<int, ChannelInfo>, c: Snapshot, v: Value,
                                           time: real)
    requires Holds(c.info.prim, c.data) && Assign(c, v, time).1.Some?
    requires Registered(ids, infos, c.info.name) && infos[ids[c.info.name]] == c.info
    ensures var after, e := Assign(c, v, time).0, Assign(c, v, time).1.value;
            e.channel == c.info.name &&
            var fs := ItemOfEvent(ids, infos, e).fields;
            && |fs| == 4 && fs[0].value == c.data && fs[2].value == after.data
            && fs[1].value == Millis(c.lastSet, Number(0)) && fs[3].value == Millis(time, fs[1].value)
  {
    hide IntegerBounds, Millis, Layout;
    EventsFaithful(ids, infos, Assign(c, v, time).1.value);
  }

  /** No way to cut the items into frames within the MTU, whatever it looks at, needs fewer of them. */
  lemma {:induction false} FewestFrames(o: Origin, mtu: nat, useCrc: bool, items: seq<Item>, other: seq<seq<Item>>)
    requires Overhead(useCrc) < mtu && IntegerCanHold(UInt32, mtu)
    requires Countable(other) && Concat(other) == items
    requires forall i :: 0 <= i < |other| ==> |FrameOfGroup(o, useCrc, other[i])| <= mtu
    ensures |Greedy(items, Capacity(mtu, useCrc))| <= |other|
  {
    hide FrameOfGroup, IntegerBounds, ItemsSize, Greedy, Concat;
    forall g | g in other
      ensures ItemsSize(g) <= Capacity(mtu, useCrc)
    {
      var i :| 0 <= i < |other| && other[i] == g;
      GroupLength(o, useCrc, other[i]);
    }
    GreedyOptimal(items, Capacity(mtu, useCrc), other);
  }

  /** The channels that are marked, in order. */
  function Chosen(cs: seq<Snapshot>, marks: seq<bool>): seq<Snapshot>
    requires |marks| == |cs|
  {
    var n := |cs| - 1;
    if cs == [] then [] else Chosen(cs[..n], marks[..n]) + if marks[n] then [cs[n]] else []
  }

  /** The channels that are due are those whose rate has elapsed since they were last emitted, in order. */
  lemma {:induction false} DueExactly(cs: seq<Snapshot>, time: real, n: nat) returns (marks: seq<bool>)
    requires n <= |cs|
    ensures |marks| == n && Due(cs, time, n) == Chosen(cs[..n], marks)
    ensures forall i :: 0 <= i < n ==> (marks[i] <==> time - cs[i].lastEmitted >= cs[i].rate)
    decreases n
  {
    if n == 0 {
      marks := [];
    } else {
      var before := DueExactly(cs, time, n - 1);
      marks := before + [time - cs[n - 1].lastEmitted >= cs[n - 1].rate];
      assert marks[..n - 1] == before && cs[..n][..n - 1] == cs[..n - 1];
    }
  }
}
