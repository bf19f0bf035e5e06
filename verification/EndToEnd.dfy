/** From messages on one side to the same messages on the other. */
module EndToEnd {
  import opened Wrappers
  import opened Primitives
  import opened Frames
  import opened Registries
  import opened Parsing
  import opened RoundTrips
  import opened MessageFramers
  import opened MessageCaches
  import opened Reassembly
  import opened Sequences
  import Crc
  import Processor

  // ---------------------------------------------------------------------
  // What is sent and what is received
  // ---------------------------------------------------------------------

  /** A message given to a framer, with the header and the number the framer gave it. */
  datatype Sent = Sent(origin: Origin, mtype: MessageType, number: nat, message: seq<byte>)

  datatype Link = Link(mtu: nat, useCrc: bool) {
    ghost predicate Valid() {
      IntegerCanHold(UInt32, mtu) && MessageOverhead(useCrc) < mtu
    }

    function PerFrame(): nat
      requires Valid()
    {
      mtu - MessageOverhead(useCrc)
    }
  }

  function KeyOf(m: Sent): Key {
    Key(m.mtype, Crc.Crc32(m.message))
  }

  function FragmentsOf(l: Link, m: Sent): seq<seq<byte>>
    requires l.Valid()
  {
    Fragments(m.message, l.PerFrame())
  }

  predicate Sendable(m: Sent) {
    m.origin.frameType == MessageFrameType && m.message != []
  }

  /** A message with no more fragments than the fragment fields can count. */
  predicate Countable(l: Link, m: Sent)
    requires l.Valid()
  {
    IntegerCanHold(UInt16, |FragmentsOf(l, m)|)
  }

  /** The number a message arrives with: zero, if its own does not fit the field. */
  function ArrivingNumber(m: Sent): int {
    Kept(UInt16, 0, m.number)
  }

  function FramesOf(l: Link, m: Sent): seq<seq<byte>>
    requires l.Valid()
  {
    MessageFrames(m.origin, l.mtu, l.useCrc, m.mtype, m.number, m.message)
  }

  function AllFrames(l: Link, batch: seq<Sent>): seq<seq<byte>>
    requires l.Valid()
  {
    if batch == [] then [] else FramesOf(l, batch[0]) + AllFrames(l, batch[1..])
  }

  /** The message fragment in a frame's bytes, if they parse as one. */
  function Receive(reg: ChannelTable, expectedId: Option<int>, frame: seq<byte>): seq<ParsedMessage> {
    var r := DecodeFrame(reg, frame, expectedId);
    if r.Parsed? && r.frame.body.MessageBody? then
      var m := ToParsed(r.frame.body.info, r.frame.body.fragment);
      if m.Some? then [m.value] else []
    else []
  }

  function ReceiveAll(reg: ChannelTable, expectedId: Option<int>, frames: seq<seq<byte>>): seq<ParsedMessage> {
    if frames == [] then [] else Receive(reg, expectedId, frames[0]) + ReceiveAll(reg, expectedId, frames[1..])
  }

  /** The fragments of a message as they should be received. */
  function FragmentAt(l: Link, m: Sent, i: nat): ParsedMessage
    requires l.Valid() && i < |FragmentsOf(l, m)|
  {
    ParsedMessage(KeyOf(m), ArrivingNumber(m), Kept(UInt16, MaxOf(UInt16), i),
                  Kept(UInt16, 0, |FragmentsOf(l, m)|), FragmentsOf(l, m)[i])
  }

  /** What a fragment says of its message: its own number, if that fits the field, and its place among the fragments. */
  lemma {:induction false} FragmentSays(l: Link, m: Sent, i: nat)
    requires l.Valid() && i < |FragmentsOf(l, m)|
    ensures ArrivingNumber(m) == if m.number <= 65535 then m.number else 0
    ensures Countable(l, m) <==> |FragmentsOf(l, m)| <= 65535
    ensures var p := FragmentAt(l, m, i);
            && p.key.mtype == m.mtype && p.key.crc == Crc.Crc32(m.message) && p.data == FragmentsOf(l, m)[i]
            && p.number == ArrivingNumber(m) && p.index == (if i <= 65535 then i else 65535)
            && p.total == if |FragmentsOf(l, m)| <= 65535 then |FragmentsOf(l, m)| else 0
  {
    hide Crc.Crc32, FragmentsOf, IntegerBounds, Pow2;
    PrimitiveTable();
    Widths();
  }

  function Expectation(l: Link, m: Sent): seq<ParsedMessage>
    requires l.Valid()
  {
    seq(|FragmentsOf(l, m)|, i requires 0 <= i < |FragmentsOf(l, m)| => FragmentAt(l, m, i))
  }

  function AllExpected(l: Link, batch: seq<Sent>): seq<ParsedMessage>
    requires l.Valid()
  {
    if batch == [] then [] else Expectation(l, batch[0]) + AllExpected(l, batch[1..])
  }

  // ---------------------------------------------------------------------
  // Frames arrive
  // ---------------------------------------------------------------------

  lemma {:induction false} InfoReadBack(l: Link, m: Sent, i: nat)
    requires l.Valid() && i < |FragmentsOf(l, m)|
    ensures var e := EnvelopeOf(m.mtype, m.number, m.message, l.PerFrame());
            ToParsed(InfoAt(e, i), FragmentsOf(l, m)[i]) == Some(FragmentAt(l, m, i))
  {
    hide Crc.Crc32, Fragments, IntegerBounds;
  }

  /** One frame gives back its fragment. */
  lemma {:induction false} FrameReceived(l: Link, m: Sent, reg: ChannelTable, expectedId: Option<int>, i: nat)
    requires l.Valid() && Sendable(m) && Expected(expectedId, m.origin)
    requires i < |FragmentsOf(l, m)|
    ensures |FramesOf(l, m)| == |FragmentsOf(l, m)|
    ensures Receive(reg, expectedId, FramesOf(l, m)[i]) == [FragmentAt(l, m, i)]
  {
    hide Crc.Crc32, Fragments, FramesFrom, Sealed, MessagePayload, DecodeFrame, Pow2, InfoAt, ToParsed, FragmentAt;
    var perFrame, fs := l.PerFrame(), FragmentsOf(l, m);
    FragmentsCover(m.message, perFrame);
    var e := EnvelopeOf(m.mtype, m.number, m.message, perFrame);
    FramesAt(m.origin, l.useCrc, e, 0, fs);
    MessageFrameRoundTrip(reg, m.origin, InfoAt(e, i), fs[i], l.useCrc, true, 0, expectedId);
    InfoReadBack(l, m, i);
  }

  lemma {:induction false} ReceiveAppend(reg: ChannelTable, expectedId: Option<int>, a: seq<seq<byte>>,
                                         b: seq<seq<byte>>)
    ensures ReceiveAll(reg, expectedId, a + b) == ReceiveAll(reg, expectedId, a) + ReceiveAll(reg, expectedId, b)
  {
    hide Receive;
    if a == [] {
      assert a + b == b;
    } else {
      assert (a + b)[1..] == a[1..] + b;
      ReceiveAppend(reg, expectedId, a[1..], b);
    }
  }

  lemma {:induction false} ReceiveEach(reg: ChannelTable, expectedId: Option<int>, frames: seq<seq<byte>>,
                                       ms: seq<ParsedMessage>)
    requires |frames| == |ms|
    requires forall i :: 0 <= i < |ms| ==> Receive(reg, expectedId, frames[i]) == [ms[i]]
    ensures ReceiveAll(reg, expectedId, frames) == ms
  {
    hide Receive;
    if ms != [] {
      ReceiveEach(reg, expectedId, frames[1..], ms[1..]);
      assert ms == [ms[0]] + ms[1..];
    }
  }

  lemma {:induction false} BatchReceived(l: Link, batch: seq<Sent>, reg: ChannelTable, expectedId: Option<int>)
    requires l.Valid()
    requires forall m | m in batch :: Sendable(m) && Expected(expectedId, m.origin)
    ensures ReceiveAll(reg, expectedId, AllFrames(l, batch)) == AllExpected(l, batch)
    ensures Processor.Deliverable(AllFrames(l, batch), l.mtu)
  {
    hide FramesOf, Receive, Expectation, Sendable, Fragments;
    if batch != [] {
      var m := batch[0];
      MessageReceived(l, m, reg, expectedId);
      BatchReceived(l, batch[1..], reg, expectedId);
      ReceiveAppend(reg, expectedId, FramesOf(l, m), AllFrames(l, batch[1..]));
    }
  }

  lemma {:induction false} FramesDeliverable(l: Link, m: Sent)
    requires l.Valid()
    ensures Processor.Deliverable(FramesOf(l, m), l.mtu)
  {
    hide MessageFrames, FramesRequired, TotalLength, MessageOverhead, Pow2;
    MessageFramesFit(m.origin, l.mtu, l.useCrc, m.mtype, m.number, m.message);
  }

  lemma {:induction false} MessageReceived(l: Link, m: Sent, reg: ChannelTable, expectedId: Option<int>)
    requires l.Valid() && Sendable(m) && Expected(expectedId, m.origin)
    ensures ReceiveAll(reg, expectedId, FramesOf(l, m)) == Expectation(l, m)
    ensures Processor.Deliverable(FramesOf(l, m), l.mtu)
  {
    hide Receive, FramesOf, FragmentsOf, FragmentAt, ReceiveAll, IntegerBounds, Processor.Deliverable;
    FramesDeliverable(l, m);
    var want := Expectation(l, m);
    forall i | 0 <= i < |want|
      ensures |FramesOf(l, m)| == |want| && Receive(reg, expectedId, FramesOf(l, m)[i]) == [want[i]]
    {
      FrameReceived(l, m, reg, expectedId, i);
    }
    SomeFragment(l, m);
    FrameReceived(l, m, reg, expectedId, 0);
    ReceiveEach(reg, expectedId, FramesOf(l, m), want);
  }

  lemma {:induction false} SomeFragment(l: Link, m: Sent)
    requires l.Valid() && m.message != []
    ensures |FragmentsOf(l, m)| > 0
  {
  }

  // ---------------------------------------------------------------------
  // Fragments arrive in any order
  // ---------------------------------------------------------------------

  lemma {:induction false} OnlyAppend(a: seq<ParsedMessage>, b: seq<ParsedMessage>, k: Key)
    ensures Only(a + b, k) == Only(a, k) + Only(b, k)
  {
    if b == [] {
      assert a + b == a;
    } else {
      assert (a + b)[..|a + b| - 1] == a + b[..|b| - 1];
      OnlyAppend(a, b[..|b| - 1], k);
    }
  }

  /** Reordering the arrivals reorders those of each message. */
  lemma {:induction false} OnlyMultiset(ms: seq<ParsedMessage>, k: Key, m: ParsedMessage)
    ensures multiset(Only(ms, k))[m] == if m.key == k then multiset(ms)[m] else 0
  {
    if ms != [] {
      var n := |ms| - 1;
      OnlyMultiset(ms[..n], k, m);
      assert ms == ms[..n] + [ms[n]];
      assert multiset(ms) == multiset(ms[..n]) + multiset{ms[n]};
    }
  }

  lemma {:induction false} OnlyReordered(a: seq<ParsedMessage>, b: seq<ParsedMessage>, k: Key)
    requires multiset(a) == multiset(b)
    ensures multiset(Only(a, k)) == multiset(Only(b, k))
  {
    forall m
      ensures multiset(Only(a, k))[m] == multiset(Only(b, k))[m]
    {
      OnlyMultiset(a, k, m);
      OnlyMultiset(b, k, m);
    }
  }

  lemma {:induction false} OnlySame(ms: seq<ParsedMessage>, k: Key)
    ensures (forall m | m in ms :: m.key == k) ==> Only(ms, k) == ms
    ensures (forall m | m in ms :: m.key != k) ==> Only(ms, k) == []
  {
    if ms != [] {
      OnlySame(ms[..|ms| - 1], k);
      assert ms == ms[..|ms| - 1] + [ms[|ms| - 1]];
    }
  }

  predicate DistinctKeys(batch: seq<Sent>) {
    forall i, j :: 0 <= i < j < |batch| ==> KeyOf(batch[i]) != KeyOf(batch[j])
  }

  /** No other message of the batch has the same key. */
  predicate Unrivalled(batch: seq<Sent>, j: nat)
    requires j < |batch|
  {
    forall i :: 0 <= i < |batch| && i != j ==> KeyOf(batch[i]) != KeyOf(batch[j])
  }

  /** The first arrivals with a message's key are all of its fragments, in some order; anything may follow. */
  predicate Leads(l: Link, m: Sent, ms: seq<ParsedMessage>)
    requires l.Valid()
  {
    var own, n := Only(ms, KeyOf(m)), |FragmentsOf(l, m)|;
    n <= |own| && multiset(own[..n]) == multiset(Expectation(l, m))
  }

  /** Among all expected fragments, those with a message's key are that message's. */
  lemma {:induction false} OnlyExpected(l: Link, batch: seq<Sent>, j: nat)
    requires l.Valid() && j < |batch| && Unrivalled(batch, j)
    ensures Only(AllExpected(l, batch), KeyOf(batch[j])) == Expectation(l, batch[j])
  {
    hide KeyOf, FragmentsOf, Only;
    var k := KeyOf(batch[j]);
    OnlyAppend(Expectation(l, batch[0]), AllExpected(l, batch[1..]), k);
    OnlySame(Expectation(l, batch[0]), k);
    if j == 0 {
      NoneExpected(l, batch[1..], k);
      OnlySame(AllExpected(l, batch[1..]), k);
    } else {
      assert forall i :: 0 <= i < |batch| - 1 ==> batch[1..][i] == batch[i + 1];
      OnlyExpected(l, batch[1..], j - 1);
    }
  }

  lemma {:induction false} NoneExpected(l: Link, batch: seq<Sent>, k: Key)
    requires l.Valid() && forall m | m in batch :: KeyOf(m) != k
    ensures forall p | p in AllExpected(l, batch) :: p.key != k
  {
    hide KeyOf, FragmentsOf;
    if batch != [] {
      NoneExpected(l, batch[1..], k);
    }
  }

  /** A repeated element has multiplicity two or more. */
  lemma {:induction false} Repeated<T>(s: seq<T>, i: nat, j: nat)
    requires i < j < |s| && s[i] == s[j]
    ensures multiset(s)[s[i]] >= 2
  {
    assert s == s[..j] + s[j..];
    assert s[i] == s[..j][i] && s[j] == s[j..][0];
    assert multiset(s) == multiset(s[..j]) + multiset(s[j..]);
  }

  lemma {:induction false} Unrepeated(ms: seq<ParsedMessage>, m: ParsedMessage)
    requires NoRepeats(ms)
    ensures multiset(ms)[m] <= 1
  {
    if ms != [] {
      var n := |ms| - 1;
      Unrepeated(ms[..n], m);
      assert ms == ms[..n] + [ms[n]];
      assert multiset(ms) == multiset(ms[..n]) + multiset{ms[n]};
    }
  }

  /** Any order of a message's expected fragments is fit for reassembly. */
  lemma {:induction false} ReorderedIsFit(l: Link, m: Sent, ms: seq<ParsedMessage>)
    requires l.Valid() && Countable(l, m) && multiset(ms) == multiset(Expectation(l, m))
    ensures var fs := FragmentsOf(l, m);
            |ms| == |fs| && Carries(ms, fs) && Agreeing(ms, |fs|) && NoRepeats(ms)
    ensures forall i :: 0 <= i < |ms| ==> ms[i].number == ArrivingNumber(m)
  {
    hide FragmentsOf, KeyOf, Pow2;
    var want := Expectation(l, m);
    assert forall i :: 0 <= i < |want| ==> want[i].index == i && want[i].total == |want|;
    assert |ms| == |multiset(ms)| && |want| == |multiset(want)|;
    forall i | 0 <= i < |ms|
      ensures 0 <= ms[i].index < |want| && ms[i] == want[ms[i].index]
    {
      assert ms[i] in multiset(ms);
      assert ms[i] in want;
    }
    assert NoRepeats(want);
    forall i, j | 0 <= i < j < |ms|
      ensures ms[i].index != ms[j].index
    {
      if ms[i].index == ms[j].index {
        Repeated(ms, i, j);
        Unrepeated(want, ms[i]);
      }
    }
  }

  // ---------------------------------------------------------------------
  // Messages arrive
  // ---------------------------------------------------------------------

  /** What an arrival brings about in a cache that was empty at first. */
  function Arrival(ms: seq<ParsedMessage>, i: nat): Effect
    requires i < |ms|
  {
    EffectAt(map[], map[], ms, i)
  }

  lemma {:induction false} EffectsOfPrefix(s: Slot, ms: seq<ParsedMessage>, i: nat)
    requires i < |ms|
    ensures EffectsOf(s, ms)[i] == EffectOf(TakenAll(s, ms[..i]), ms[i])
    decreases |ms|
  {
    hide EffectOf, TakenAll;
    if i < |ms| - 1 {
      EffectsOfPrefix(s, ms[..|ms| - 1], i);
      assert ms[..|ms| - 1][..i] == ms[..i];
    }
  }

  /** The fragment at position `i` is the next one of its message. */
  lemma {:induction false} OnlyPrefix(ms: seq<ParsedMessage>, i: nat)
    requires i < |ms|
    ensures var k := ms[i].key;
            var own, p := Only(ms, k), |Only(ms[..i], k)|;
            p < |own| && own[p] == ms[i] && own[..p] == Only(ms[..i], k)
  {
    var k := ms[i].key;
    var before := Only(ms[..i], k);
    assert ms == ms[..i] + ([ms[i]] + ms[i + 1..]);
    OnlyAppend(ms[..i], [ms[i]] + ms[i + 1..], k);
    OnlyAppend([ms[i]], ms[i + 1..], k);
    OnlySame([ms[i]], k);
    assert Only(ms, k) == before + ([ms[i]] + Only(ms[i + 1..], k));
  }

  /** An arrival does what it does among the fragments of its own message. */
  lemma {:induction false} ArrivalIsEffect(ms: seq<ParsedMessage>, i: nat)
    requires i < |ms|
    ensures var own, p := Only(ms, ms[i].key), |Only(ms[..i], ms[i].key)|;
            p < |own| && Arrival(ms, i) == EffectsOf(EMPTY, own)[p]
  {
    hide Only, EffectsOf, EffectOf, TakenAll;
    OnlyPrefix(ms, i);
    EffectsOfPrefix(EMPTY, Only(ms, ms[i].key), |Only(ms[..i], ms[i].key)|);
  }

  /** How many of the first `n` arrivals complete the message with key `k`. */
  function Completions(ms: seq<ParsedMessage>, k: Key, n: nat): nat
    requires n <= |ms|
  {
    if n == 0 then 0
    else Completions(ms, k, n - 1) + if ms[n - 1].key == k && Arrival(ms, n - 1).Completed? then 1 else 0
  }

  /** The callback invocations that the arrivals with key `k` among the first `n` bring about. */
  function CallsFor(callbacks: map<MessageType, seq<nat>>, ms: seq<ParsedMessage>, k: Key, n: nat): seq<Call>
    requires n <= |ms|
  {
    if n == 0 then []
    else CallsFor(callbacks, ms, k, n - 1)
         + if ms[n - 1].key == k then CallsOf(callbacks, k.mtype, Arrival(ms, n - 1)) else []
  }

  /** The arrivals with a key bring about one completion, by the one that makes up the number. */
  predicate CompletesAt(ms: seq<ParsedMessage>, k: Key, total: nat, e: Effect) {
    forall i :: 0 <= i < |ms| && ms[i].key == k ==>
                  Arrival(ms, i) == if |Only(ms[..i], k)| + 1 == total then e else Quiet
  }

  lemma {:induction false} NoCalls(callbacks: map<MessageType, seq<nat>>, mtype: MessageType)
    ensures CallsOf(callbacks, mtype, Quiet) == []
  {
  }

  /** If exactly one of a message's arrivals completes it, it is completed once, and its callbacks run once. */
  lemma {:induction false} CompletedOnce(callbacks: map<MessageType, seq<nat>>, ms: seq<ParsedMessage>, k: Key,
                                         total: nat, e: Effect, n: nat)
    requires n <= |ms| && total > 0 && e.Completed? && CompletesAt(ms, k, total, e)
    ensures var reached := |Only(ms[..n], k)| >= total;
            && Completions(ms, k, n) == (if reached then 1 else 0)
            && CallsFor(callbacks, ms, k, n) == if reached then CallsOf(callbacks, k.mtype, e) else []
  {
    hide Arrival, CallsOf;
    if n > 0 {
      CompletedOnce(callbacks, ms, k, total, e, n - 1);
      assert ms[..n][..n - 1] == ms[..n - 1];
      NoCalls(callbacks, k.mtype);
    }
  }

  /**
   A message comes back byte for byte: one arrival completes it, the one that
   makes up the number of its fragments, and each of its callbacks is called with
   it once. From then on it is complete, with the number of its last delivery.
   */
  predicate ArrivesOnce(l: Link, m: Sent, ms: seq<ParsedMessage>, callbacks: map<MessageType, seq<nat>>)
    requires l.Valid()
  {
    var k, whole := KeyOf(m), Completed(ArrivingNumber(m), m.message);
    var own := Only(ms, k);
    var s := TakenAll(EMPTY, own);
    && CompletesAt(ms, k, |FragmentsOf(l, m)|, whole)
    && Completions(ms, k, |ms|) == 1
    && CallsFor(callbacks, ms, k, |ms|) == CallsOf(callbacks, m.mtype, whole)
    && own != [] && s.complete && s.number == Some(own[|own| - 1].number)
  }

  /**
   Any batch of messages, framed, prefixed with sizes, put on one stream, cut
   into chunks anywhere, recovered, parsed, and ingested in any order: a message
   comes back byte for byte with its number, on the arrival of its last
   fragment, and each of its callbacks is called with it once. Its key must be
   its own, or its fragments must come before all others with that key.
   */
  lemma {:induction false} MessagesArrive(l: Link, batch: seq<Sent>, chunks: seq<seq<byte>>, receiverMtu: nat,
                                          reg: ChannelTable, expectedId: Option<int>, arrivals: seq<ParsedMessage>,
                                          j: nat, callbacks: map<MessageType, seq<nat>>)
    requires l.Valid() && l.mtu <= receiverMtu && j < |batch|
    requires forall m | m in batch :: Sendable(m) && Expected(expectedId, m.origin)
    requires Countable(l, batch[j]) && (Unrivalled(batch, j) || Leads(l, batch[j], arrivals))
    requires Concat(chunks) == Processor.Stream(AllFrames(l, batch))
    requires multiset(arrivals) ==
             multiset(ReceiveAll(reg, expectedId, Processor.ProcessAll(Processor.FRESH, chunks, receiverMtu).frames))
    ensures ArrivesOnce(l, batch[j], arrivals, callbacks)
  {
    hide KeyOf, Sendable, Countable, ArrivesOnce, AllFrames, ReceiveAll, Processor.ProcessAll, Concat, Processor.Stream,
      Only, FragmentsOf, FragmentAt;
    var m, k := batch[j], KeyOf(batch[j]);
    if Unrivalled(batch, j) {
      BatchReceived(l, batch, reg, expectedId);
      StreamArrives(AllFrames(l, batch), chunks, l.mtu, receiverMtu);
      OnlyReordered(arrivals, AllExpected(l, batch), k);
      OnlyExpected(l, batch, j);
      var own := Only(arrivals, k);
      assert |own| == |multiset(own)| && |Expectation(l, m)| == |multiset(Expectation(l, m))|;
      assert own[..|own|] == own;
    }
    MessageArrives(l, m, arrivals, callbacks);
  }

  lemma {:induction false} StreamArrives(frames: seq<seq<byte>>, chunks: seq<seq<byte>>, mtu: nat, receiverMtu: nat)
    requires Processor.Deliverable(frames, mtu) && mtu <= receiverMtu
    requires Concat(chunks) == Processor.Stream(frames)
    ensures Processor.ProcessAll(Processor.FRESH, chunks, receiverMtu).frames == frames
  {
    hide Processor.ProcessAll, Concat, Processor.Stream;
    Processor.StreamRecovered(frames, chunks, receiverMtu);
  }

  /** What the arrivals with a message's key do, if its fragments come first. */
  lemma {:induction false} OwnEffects(l: Link, m: Sent, own: seq<ParsedMessage>)
    requires l.Valid() && Sendable(m) && Countable(l, m) && |FragmentsOf(l, m)| <= |own|
    requires multiset(own[..|FragmentsOf(l, m)|]) == multiset(Expectation(l, m))
    ensures own != []
    ensures forall i :: 0 <= i < |own| ==>
              EffectsOf(EMPTY, own)[i] ==
              if i + 1 == |FragmentsOf(l, m)| then Completed(ArrivingNumber(m), m.message) else Quiet
    ensures TakenAll(EMPTY, own).complete && TakenAll(EMPTY, own).number == Some(own[|own| - 1].number)
  {
    SomeFragment(l, m);
    FragmentsCover(m.message, l.PerFrame());
    hide Fragments, EffectsOf, TakenAll, Expectation, IntegerBounds, ArrivingNumber;
    var fs := FragmentsOf(l, m);
    var first, later := own[..|fs|], own[|fs|..];
    assert own == first + later;
    ReorderedIsFit(l, m, first);
    hide NoRepeats, Carries, Agreeing;
    Reassembles(first, fs);
    ReassemblesOnce(first, later, fs);
  }

  /** What happens to one message is what happens to the arrivals with its key. */
  lemma {:induction false} ArrivalsComplete(arrivals: seq<ParsedMessage>, k: Key, total: nat, e: Effect)
    requires forall i :: 0 <= i < |Only(arrivals, k)| ==>
               EffectsOf(EMPTY, Only(arrivals, k))[i] == if i + 1 == total then e else Quiet
    ensures CompletesAt(arrivals, k, total, e)
  {
    hide Only, EffectsOf, Arrival;
    forall i | 0 <= i < |arrivals| && arrivals[i].key == k
      ensures Arrival(arrivals, i) == if |Only(arrivals[..i], k)| + 1 == total then e else Quiet
    {
      ArrivalIsEffect(arrivals, i);
    }
  }

  lemma {:induction false} LeadersComplete(l: Link, m: Sent, arrivals: seq<ParsedMessage>)
    requires l.Valid() && Sendable(m) && Countable(l, m) && Leads(l, m, arrivals)
    ensures CompletesAt(arrivals, KeyOf(m), |FragmentsOf(l, m)|, Completed(ArrivingNumber(m), m.message))
  {
    SomeFragment(l, m);
    hide Crc.Crc32, FragmentsOf, EffectsOf, TakenAll, Only, IntegerBounds, ArrivingNumber, Expectation, CompletesAt;
    OwnEffects(l, m, Only(arrivals, KeyOf(m)));
    ArrivalsComplete(arrivals, KeyOf(m), |FragmentsOf(l, m)|, Completed(ArrivingNumber(m), m.message));
  }

  lemma {:induction false} LeadersHeld(l: Link, m: Sent, own: seq<ParsedMessage>)
    requires l.Valid() && Sendable(m) && Countable(l, m) && |FragmentsOf(l, m)| <= |own|
    requires multiset(own[..|FragmentsOf(l, m)|]) == multiset(Expectation(l, m))
    ensures |own| >= |FragmentsOf(l, m)| > 0
    ensures TakenAll(EMPTY, own).complete && TakenAll(EMPTY, own).number == Some(own[|own| - 1].number)
  {
    SomeFragment(l, m);
    hide FragmentsOf, EffectsOf, TakenAll, IntegerBounds, ArrivingNumber, Expectation;
    OwnEffects(l, m, own);
  }

  /**
   Among any arrivals, all fragments of a message bring it back exactly once,
   whatever else comes with its key later.
   */
  lemma {:induction false} MessageArrives(l: Link, m: Sent, arrivals: seq<ParsedMessage>,
                                          callbacks: map<MessageType, seq<nat>>)
    requires l.Valid() && Sendable(m) && Countable(l, m) && Leads(l, m, arrivals)
    ensures ArrivesOnce(l, m, arrivals, callbacks)
  {
    hide Crc.Crc32, FragmentsOf, TakenAll, Only, IntegerBounds, ArrivingNumber, CallsFor, Completions, CallsOf,
      CompletesAt, Expectation;
    LeadersComplete(l, m, arrivals);
    LeadersHeld(l, m, Only(arrivals, KeyOf(m)));
    assert arrivals[..|arrivals|] == arrivals;
    CompletedOnce(callbacks, arrivals, KeyOf(m), |FragmentsOf(l, m)|, Completed(ArrivingNumber(m), m.message),
        |arrivals|);
  }

  /** A message with too many fragments to count never arrives, in whatever order and number they are delivered. */
  lemma {:induction false} UncountableNeverArrives(l: Link, m: Sent, ms: seq<ParsedMessage>)
    requires l.Valid() && !Countable(l, m)
    requires forall p | p in ms :: p in Expectation(l, m)
    ensures !TakenAll(EMPTY, ms).complete
    ensures forall i :: 0 <= i < |ms| ==> EffectsOf(EMPTY, ms)[i] == Quiet
  {
    hide FragmentsOf, KeyOf, IntegerBounds, TakenAll, EffectsOf;
    ZeroTotalNeverCompletes(ms);
  }

  /** One byte to a frame and one byte too many: a message that never arrives. */
  lemma {:induction false} UncountableExample(o: Origin)
    ensures var l := Link(MessageOverhead(true) + 1, true);
            l.Valid() && !Countable(l, Sent(o, Agnostic, 0, seq(65536, _ => 0)))
  {
    hide Fragments, Pow2;
    Widths();
    var l, message := Link(MessageOverhead(true) + 1, true), seq(65536, _ => 0);
    FragmentCount(message, 1);
    assert FramesRequired(65536, 1) == 65536;
  }

  /** All fragments of a message together complete it, if and only if they can be counted. */
  lemma {:induction false} ArrivesExactly(l: Link, m: Sent, ms: seq<ParsedMessage>)
    requires l.Valid() && Sendable(m)
    requires multiset(ms) == multiset(Expectation(l, m))
    ensures TakenAll(EMPTY, ms).complete <==> Countable(l, m)
  {
    hide TakenAll, EffectsOf, IntegerBounds, FragmentsOf;
    if Countable(l, m) {
      SomeFragment(l, m);
      ReorderedIsFit(l, m, ms);
      Reassembles(ms, FragmentsOf(l, m));
    } else {
      forall p | p in ms
        ensures p in Expectation(l, m)
      {
        assert p in multiset(ms);
      }
      UncountableNeverArrives(l, m, ms);
    }
  }
}
