/** Who is told about a message that arrived, counted over all callbacks and all messages. */
module Callbacks {
  import opened Wrappers
  import opened Primitives
  import opened Registries
  import opened RoundTrips
  import opened MessageFramers
  import opened MessageCaches
  import opened Sequences
  import opened EndToEnd
  import Crc
  import Processor

  /** Every callback of a list is called as often as it is in it. */
  lemma {:induction false} CallsCount(callbacks: seq<nat>, mtype: MessageType, number: int, content: seq<byte>,
                                      callback: nat)
    ensures multiset(Calls(callbacks, mtype, number, content))[Call(callback, mtype, number, content)]
            == multiset(callbacks)[callback]
  {
    if callbacks != [] {
      var first, rest := callbacks[0], callbacks[1..];
      CallsCount(rest, mtype, number, content, callback);
      assert callbacks == [first] + rest;
      assert Calls(callbacks, mtype, number, content)
          == [Call(first, mtype, number, content)] + Calls(rest, mtype, number, content);
      assert multiset([Call(first, mtype, number, content)] + Calls(rest, mtype, number, content))
          == multiset{Call(first, mtype, number, content)} + multiset(Calls(rest, mtype, number, content));
    }
  }

  function Registered(callbacks: map<MessageType, seq<nat>>, mtype: MessageType): seq<nat> {
    if mtype in callbacks then callbacks[mtype] else []
  }

  /** How often the effect of an arrival makes a particular call. */
  lemma {:induction false} EffectCalls(callbacks: map<MessageType, seq<nat>>, mtype: MessageType, e: Effect, c: Call)
    ensures multiset(CallsOf(callbacks, mtype, e))[c] ==
            if e.Completed? && c.mtype == mtype && c.number == e.number && c.content == e.content
            then multiset(Registered(callbacks, mtype))[c.callback] else 0
  {
    var calls := CallsOf(callbacks, mtype, e);
    if e.Completed? && c.mtype == mtype && c.number == e.number && c.content == e.content {
      CallsCount(Registered(callbacks, mtype), mtype, e.number, e.content, c.callback);
    } else {
      assert c !in calls;
    }
  }

  /** No arrival for another message completes one of the same type with the same bytes. */
  predicate Undisturbed(ms: seq<ParsedMessage>, m: Sent) {
    forall i :: 0 <= i < |ms| && ms[i].key != KeyOf(m) && Arrival(ms, i).Completed? ==>
                  ms[i].key.mtype != m.mtype || Arrival(ms, i).content != m.message
  }

  lemma {:induction false} CountedCalls(callbacks: map<MessageType, seq<nat>>, ms: seq<ParsedMessage>, m: Sent,
                                        total: nat, callback: nat, n: nat)
    requires n <= |ms| && total > 0 && Undisturbed(ms, m)
    requires CompletesAt(ms, KeyOf(m), total, Completed(ArrivingNumber(m), m.message))
    ensures multiset(RunCalls(callbacks, map[], map[], ms, n))[Call(callback, m.mtype, ArrivingNumber(m), m.message)] ==
            if |Only(ms[..n], KeyOf(m))| >= total then multiset(Registered(callbacks, m.mtype))[callback] else 0
  {
    hide Crc.Crc32, ArrivingNumber, CallsOf, EffectOf, TakenAll, SlotIn, Registered;
    if n > 0 {
      var c := Call(callback, m.mtype, ArrivingNumber(m), m.message);
      CountedCalls(callbacks, ms, m, total, callback, n - 1);
      assert ms[..n][..n - 1] == ms[..n - 1];
      var e := Arrival(ms, n - 1);
      EffectCalls(callbacks, ms[n - 1].key.mtype, e, c);
    }
  }

  /** Every arrival belongs to some message of the batch. */
  lemma {:induction false} InBatch(l: Link, batch: seq<Sent>, p: ParsedMessage) returns (j: nat)
    requires l.Valid() && p in AllExpected(l, batch)
    ensures j < |batch| && p.key == KeyOf(batch[j])
  {
    hide FragmentsOf, KeyOf;
    if p in Expectation(l, batch[0]) {
      j := 0;
    } else {
      var i := InBatch(l, batch[1..], p);
      j := i + 1;
    }
  }

  /** What an arrival of a batch with distinct keys can do: nothing, or complete the message it belongs to. */
  lemma {:induction false} ArrivalOfBatch(l: Link, batch: seq<Sent>, arrivals: seq<ParsedMessage>, j: nat, i: nat)
    requires l.Valid() && DistinctKeys(batch) && j < |batch| && i < |arrivals| && Sendable(batch[j])
    requires multiset(arrivals) == multiset(AllExpected(l, batch)) && arrivals[i].key == KeyOf(batch[j])
    ensures var whole := Completed(ArrivingNumber(batch[j]), batch[j].message);
            Arrival(arrivals, i) == Quiet || Arrival(arrivals, i) == whole
  {
    hide Crc.Crc32, FragmentsOf, FragmentAt, EffectsOf, Arrival, ArrivingNumber, IntegerBounds, Sendable, Only,
      AllExpected;
    var m, k := batch[j], KeyOf(batch[j]);
    var own := Only(arrivals, k);
    OnlyReordered(arrivals, AllExpected(l, batch), k);
    OnlyExpected(l, batch, j);
    if Countable(l, m) {
      AllLead(l, m, arrivals);
      LeadersComplete(l, m, arrivals);
    } else {
      forall p | p in own
        ensures p in Expectation(l, m)
      {
        assert p in multiset(own);
      }
      UncountableNeverArrives(l, m, own);
      ArrivalIsEffect(arrivals, i);
    }
  }

  lemma {:induction false} AllLead(l: Link, m: Sent, arrivals: seq<ParsedMessage>)
    requires l.Valid() && multiset(Only(arrivals, KeyOf(m))) == multiset(Expectation(l, m))
    ensures Leads(l, m, arrivals)
  {
    hide Only, KeyOf, FragmentsOf, FragmentAt;
    var own := Only(arrivals, KeyOf(m));
    assert |own| == |multiset(own)| && |Expectation(l, m)| == |multiset(Expectation(l, m))|;
    assert own[..|own|] == own;
  }

  /**
   Over a whole batch of messages with distinct keys, on any stream, in any
   chunks and any order, each callback registered for a message's type is called
   with that message once for each time it is registered, and no more.
   */
  lemma {:induction false} EachCallbackOnce(l: Link, batch: seq<Sent>, chunks: seq<seq<byte>>, receiverMtu: nat,
                                            reg: ChannelTable, expectedId: Option<int>, arrivals: seq<ParsedMessage>,
                                            j: nat, callbacks: map<MessageType, seq<nat>>, callback: nat)
    requires l.Valid() && l.mtu <= receiverMtu && j < |batch|
    requires forall m | m in batch :: Sendable(m) && Expected(expectedId, m.origin)
    requires Countable(l, batch[j]) && DistinctKeys(batch)
    requires Concat(chunks) == Processor.Stream(AllFrames(l, batch))
    requires multiset(arrivals) ==
             multiset(ReceiveAll(reg, expectedId, Processor.ProcessAll(Processor.FRESH, chunks, receiverMtu).frames))
    ensures var m := batch[j];
            var c := Call(callback, m.mtype, ArrivingNumber(m), m.message);
            multiset(RunCalls(callbacks, map[], map[], arrivals, |arrivals|))[c]
            == multiset(Registered(callbacks, m.mtype))[callback]
  {
    hide Crc.Crc32, Sendable, FragmentsOf, ArrivingNumber, AllFrames, AllExpected, ReceiveAll, Processor.ProcessAll,
      Concat, Processor.Stream, Only, Arrival, RunCalls, Registered, Expected, Expectation, CompletesAt, IntegerBounds;
    var m := batch[j];
    BatchReceived(l, batch, reg, expectedId);
    StreamArrives(AllFrames(l, batch), chunks, l.mtu, receiverMtu);
    OnlyReordered(arrivals, AllExpected(l, batch), KeyOf(m));
    OnlyExpected(l, batch, j);
    AllLead(l, m, arrivals);
    LeadersComplete(l, m, arrivals);
    LeadersHeld(l, m, Only(arrivals, KeyOf(m)));
    forall i | 0 <= i < |arrivals| && arrivals[i].key != KeyOf(m) && Arrival(arrivals, i).Completed?
      ensures arrivals[i].key.mtype != m.mtype || Arrival(arrivals, i).content != m.message
    {
      assert arrivals[i] in multiset(arrivals);
      var other := InBatch(l, batch, arrivals[i]);
      ArrivalOfBatch(l, batch, arrivals, other, i);
    }
    assert arrivals[..|arrivals|] == arrivals;
    CountedCalls(callbacks, arrivals, m, |FragmentsOf(l, m)|, callback, |arrivals|);
  }
}
