/**
 Messages with equal keys: sent again, or told apart by neither type nor
 checksum (vtelem/message/framer.py, vtelem/message/cache.py).
 */
module Resends {
  import opened Wrappers
  import opened Primitives
  import opened Frames
  import opened Registries
  import opened RoundTrips
  import opened MessageFramers
  import opened MessageCaches
  import opened Reassembly
  import opened Sequences
  import opened EndToEnd
  import Crc
  import Processor

  // ---------------------------------------------------------------------
  // The numbers a framer gives
  // ---------------------------------------------------------------------

  datatype Request = Request(mtype: MessageType, message: seq<byte>)

  /** What a framer that is at these numbers sends for some requests, one after another. */
  function SentFor(numbers: map<MessageType, nat>, o: Origin, requests: seq<Request>): (batch: seq<Sent>)
    requires forall r | r in requests :: r.mtype in numbers
    ensures |batch| == |requests|
    decreases |requests|
  {
    if requests == [] then []
    else
      var r, rest := requests[0], requests[1..];
      [Sent(o, r.mtype, numbers[r.mtype], r.message)] + SentFor(numbers[r.mtype := numbers[r.mtype] + 1], o, rest)
  }

  lemma {:induction false} SentAt(numbers: map<MessageType, nat>, o: Origin, requests: seq<Request>, j: nat)
    requires (forall r | r in requests :: r.mtype in numbers) && j < |requests|
    ensures var m := SentFor(numbers, o, requests)[j];
            && m.mtype == requests[j].mtype && m.message == requests[j].message && m.origin == o
            && m.number >= numbers[requests[j].mtype]
    decreases |requests|
  {
    if j > 0 {
      var r := requests[0];
      SentAt(numbers[r.mtype := numbers[r.mtype] + 1], o, requests[1..], j - 1);
    }
  }

  /** Numbers of one type only go up, for equal bytes as for any others. */
  lemma {:induction false} NumbersAdvance(numbers: map<MessageType, nat>, o: Origin, requests: seq<Request>, i: nat,
                                          j: nat)
    requires (forall r | r in requests :: r.mtype in numbers) && i < j < |requests|
    requires requests[i].mtype == requests[j].mtype
    ensures SentFor(numbers, o, requests)[i].number < SentFor(numbers, o, requests)[j].number
    decreases |requests|
  {
    var r, rest := requests[0], requests[1..];
    var next := numbers[r.mtype := numbers[r.mtype] + 1];
    if i == 0 {
      SentAt(next, o, rest, j - 1);
    } else {
      NumbersAdvance(next, o, rest, i - 1, j - 1);
    }
  }

  // ---------------------------------------------------------------------
  // How many messages are announced
  // ---------------------------------------------------------------------

  /** What each arrival does in a cache that was empty at first. */
  function Effects(ms: seq<ParsedMessage>): seq<Effect> {
    seq(|ms|, i requires 0 <= i < |ms| => Arrival(ms, i))
  }

  function Announced(es: seq<Effect>): nat {
    if es == [] then 0 else Announced(es[..|es| - 1]) + if es[|es| - 1].Completed? then 1 else 0
  }

  lemma {:induction false} AnnouncedAppend(a: seq<Effect>, b: seq<Effect>)
    ensures Announced(a + b) == Announced(a) + Announced(b)
  {
    if b == [] {
      assert a + b == a;
    } else {
      assert (a + b)[..|a + b| - 1] == a + b[..|b| - 1];
      AnnouncedAppend(a, b[..|b| - 1]);
    }
  }

  lemma {:induction false} AnnouncedNone(es: seq<Effect>)
    requires forall i :: 0 <= i < |es| ==> es[i] == Quiet
    ensures Announced(es) == 0
  {
    if es != [] {
      AnnouncedNone(es[..|es| - 1]);
    }
  }

  /** The messages of a batch are delivered in turn, the fragments of each in any order. */
  predicate InTurn(l: Link, batch: seq<Sent>, parts: seq<seq<ParsedMessage>>)
    requires l.Valid()
  {
    && |parts| == |batch|
    && forall j :: 0 <= j < |batch| ==> multiset(parts[j]) == multiset(Expectation(l, batch[j]))
  }

  predicate AllArrivable(l: Link, batch: seq<Sent>)
    requires l.Valid()
  {
    forall m | m in batch :: Sendable(m) && Countable(l, m)
  }

  function KeysOf(batch: seq<Sent>): set<Key> {
    set m | m in batch :: KeyOf(m)
  }

  /** What the cache holds for a key after some arrivals. */
  function SlotAfter(ms: seq<ParsedMessage>, k: Key): Slot {
    TakenAll(EMPTY, Only(ms, k))
  }

  lemma {:induction false} PartKeys(l: Link, m: Sent, part: seq<ParsedMessage>)
    requires l.Valid() && multiset(part) == multiset(Expectation(l, m))
    ensures forall p | p in part :: p.key == KeyOf(m)
  {
    hide KeyOf, FragmentsOf;
    forall p | p in part
      ensures p.key == KeyOf(m)
    {
      assert p in multiset(part);
    }
  }

  lemma {:induction false} SlotAfterPart(a: seq<ParsedMessage>, part: seq<ParsedMessage>, own: Key, k: Key)
    requires forall p | p in part :: p.key == own
    ensures SlotAfter(a + part, k) == if own == k then TakenAll(SlotAfter(a, k), part) else SlotAfter(a, k)
  {
    hide Only, TakenAll;
    OnlyAppend(a, part, k);
    OnlySame(part, k);
    if own == k {
      TakenAllAppend(EMPTY, Only(a, k), part);
    } else {
      assert Only(a, k) + [] == Only(a, k);
    }
  }

  lemma {:induction false} EffectsOfPart(a: seq<ParsedMessage>, part: seq<ParsedMessage>, k: Key)
    requires forall p | p in part :: p.key == k
    ensures Effects(a + part) == Effects(a) + EffectsOf(SlotAfter(a, k), part)
  {
    hide Only, TakenAll, EffectOf, EffectsOf;
    var ms, s := a + part, SlotAfter(a, k);
    forall i | 0 <= i < |ms|
      ensures Arrival(ms, i) == if i < |a| then Arrival(a, i) else EffectsOf(s, part)[i - |a|]
    {
      if i < |a| {
        assert ms[..i] == a[..i];
      } else {
        var n := i - |a|;
        assert ms[..i] == a + part[..n];
        SlotAfterPart(a, part[..n], k, k);
        EffectsOfPrefix(s, part, n);
      }
    }
  }

  /** A message that is new completes once; one whose key is complete changes the number, and is not announced. */
  lemma {:induction false} PartCompletes(l: Link, m: Sent, s: Slot, part: seq<ParsedMessage>)
    requires l.Valid() && Sendable(m) && Countable(l, m) && multiset(part) == multiset(Expectation(l, m))
    requires s == EMPTY || s.complete
    ensures TakenAll(s, part).complete && TakenAll(s, part).number == Some(ArrivingNumber(m))
    ensures s.complete ==> forall i :: 0 <= i < |part| ==> EffectsOf(s, part)[i] == Quiet
    ensures !s.complete ==> forall i :: 0 <= i < |part| ==>
              EffectsOf(s, part)[i] == if i + 1 == |part| then Completed(ArrivingNumber(m), m.message) else Quiet
    ensures Announced(EffectsOf(s, part)) == if s.complete then 0 else 1
  {
    SomeFragment(l, m);
    hide FragmentsOf, EffectsOf, TakenAll, IntegerBounds, ArrivingNumber, Expectation;
    var es, n := EffectsOf(s, part), |part| - 1;
    ReorderedIsFit(l, m, part);
    hide Carries, Agreeing, NoRepeats;
    if s.complete {
      RepeatsAreQuiet(s, part);
      AnnouncedNone(es);
    } else {
      assert part[..|part|] == part;
      OwnEffects(l, m, part);
      AnnouncedNone(es[..n]);
    }
  }

  /** The last message of a batch, after those before it. */
  lemma {:induction false} LastPart(l: Link, batch: seq<Sent>, parts: seq<seq<ParsedMessage>>)
    requires l.Valid() && InTurn(l, batch, parts) && AllArrivable(l, batch) && batch != []
    ensures var n := |batch| - 1;
            && InTurn(l, batch[..n], parts[..n]) && AllArrivable(l, batch[..n])
            && Sendable(batch[n]) && Countable(l, batch[n]) && multiset(parts[n]) == multiset(Expectation(l, batch[n]))
            && Concat(parts) == Concat(parts[..n]) + parts[n]
            && KeysOf(batch) == KeysOf(batch[..n]) + {KeyOf(batch[n])}
  {
    hide KeyOf, Expectation, Countable, Sendable, Concat;
    var n := |batch| - 1;
    assert batch == batch[..n] + [batch[n]] && parts == parts[..n] + [parts[n]];
    ConcatSnoc(parts[..n], parts[n]);
  }

  lemma {:induction false} NothingArrived(k: Key)
    ensures SlotAfter(Concat([]), k) == EMPTY && Announced(Effects(Concat([]))) == 0 && KeysOf([]) == {}
  {
  }

  /** After messages in turn, the cache holds exactly their keys, each complete. */
  lemma {:induction false} KeysHeld(l: Link, batch: seq<Sent>, parts: seq<seq<ParsedMessage>>, k: Key)
    requires l.Valid() && InTurn(l, batch, parts) && AllArrivable(l, batch)
    ensures var s := SlotAfter(Concat(parts), k);
            if k in KeysOf(batch) then s.complete else s == EMPTY
  {
    hide FragmentsOf, KeyOf, SlotAfter, Expectation, Concat, Countable, KeysOf, AllArrivable, Sendable;
    if batch == [] {
      assert parts == [];
      NothingArrived(k);
    } else {
      var n := |batch| - 1;
      LastPart(l, batch, parts);
      hide InTurn;
      KeysHeld(l, batch[..n], parts[..n], k);
      var m, part := batch[n], parts[n];
      PartKeys(l, m, part);
      SlotAfterPart(Concat(parts[..n]), part, KeyOf(m), k);
      if KeyOf(m) == k {
        PartCompletes(l, m, SlotAfter(Concat(parts[..n]), k), part);
      }
    }
  }

  /** Of messages delivered in turn, as many are announced as there are keys. */
  lemma {:induction false} OncePerKey(l: Link, batch: seq<Sent>, parts: seq<seq<ParsedMessage>>)
    requires l.Valid() && InTurn(l, batch, parts) && AllArrivable(l, batch)
    ensures Announced(Effects(Concat(parts))) == |KeysOf(batch)|
  {
    hide FragmentsOf, KeyOf, SlotAfter, Expectation, Concat, Countable, KeysOf, AllArrivable, Sendable, Effects,
      Announced;
    if batch == [] {
      assert parts == [];
      NothingArrived(Key(Agnostic, 0));
    } else {
      var n := |batch| - 1;
      LastPart(l, batch, parts);
      hide InTurn;
      OncePerKey(l, batch[..n], parts[..n]);
      var m, part, a := batch[n], parts[n], Concat(parts[..n]);
      var k := KeyOf(m);
      PartKeys(l, m, part);
      KeysHeld(l, batch[..n], parts[..n], k);
      EffectsOfPart(a, part, k);
      AnnouncedAppend(Effects(a), EffectsOf(SlotAfter(a, k), part));
      PartCompletes(l, m, SlotAfter(a, k), part);
      var keys := KeysOf(batch[..n]);
      assert SlotAfter(a, k).complete <==> k in keys;
      assert |keys + {k}| == if k in keys then |keys| else |keys| + 1 by {
        if k in keys {
          assert keys + {k} == keys;
        }
      }
    }
  }

  lemma {:induction false} KeysCount(batch: seq<Sent>)
    ensures |KeysOf(batch)| <= |batch|
    ensures |KeysOf(batch)| == |batch| <==> DistinctKeys(batch)
  {
    hide KeyOf;
    if batch != [] {
      var n := |batch| - 1;
      var front, m := batch[..n], batch[n];
      assert batch == front + [m];
      KeysCount(front);
      assert KeysOf(batch) == KeysOf(front) + {KeyOf(m)};
      assert KeyOf(m) in KeysOf(front) <==> exists i :: 0 <= i < n && KeyOf(batch[i]) == KeyOf(batch[n]);
    }
  }

  /** Every message delivered in turn is announced if and only if no two have the same key. */
  lemma {:induction false} AllAnnouncedExactly(l: Link, batch: seq<Sent>, parts: seq<seq<ParsedMessage>>)
    requires l.Valid() && InTurn(l, batch, parts) && AllArrivable(l, batch)
    ensures Announced(Effects(Concat(parts))) == |batch| <==> DistinctKeys(batch)
  {
    hide Announced, Effects, Concat, KeysOf, DistinctKeys, InTurn, AllArrivable;
    OncePerKey(l, batch, parts);
    KeysCount(batch);
  }

  /** A message whose key was seen before changes the stored number, and nobody is told. */
  lemma {:induction false} SameKeySecondLost(l: Link, batch: seq<Sent>, parts: seq<seq<ParsedMessage>>, j: nat)
    requires l.Valid() && InTurn(l, batch, parts) && AllArrivable(l, batch) && j < |batch|
    ensures var k, m, a := KeyOf(batch[j]), batch[j], Concat(parts[..j]);
            var s, es := SlotAfter(a, k), EffectsOf(SlotAfter(a, k), parts[j]);
            && (s.complete <==> exists i :: 0 <= i < j && KeyOf(batch[i]) == k)
            && (s.complete ==> forall i :: 0 <= i < |es| ==> es[i] == Quiet)
            && (!s.complete ==> es != [] && es[|es| - 1] == Completed(ArrivingNumber(m), m.message))
            && SlotAfter(a + parts[j], k).number == Some(ArrivingNumber(m))
  {
    hide FragmentsOf, Crc.Crc32, SlotAfter, Expectation, Concat, Countable, Announced, EffectsOf, TakenAll;
    var k, m, a := KeyOf(batch[j]), batch[j], Concat(parts[..j]);
    assert m in batch;
    SomeFragment(l, m);
    assert InTurn(l, batch[..j], parts[..j]);
    KeysHeld(l, batch[..j], parts[..j], k);
    assert k in KeysOf(batch[..j]) <==> exists i :: 0 <= i < j && KeyOf(batch[i]) == k;
    PartKeys(l, m, parts[j]);
    PartCompletes(l, m, SlotAfter(a, k), parts[j]);
    SlotAfterPart(a, parts[j], k, k);
    ReorderedIsFit(l, m, parts[j]);
  }

  // ---------------------------------------------------------------------
  // Over the whole path
  // ---------------------------------------------------------------------

  function Expectations(l: Link, batch: seq<Sent>): (parts: seq<seq<ParsedMessage>>)
    requires l.Valid()
    ensures Concat(parts) == AllExpected(l, batch) && InTurn(l, batch, parts)
  {
    if batch == [] then [] else [Expectation(l, batch[0])] + Expectations(l, batch[1..])
  }

  /** On a stream, in whatever chunks, every message sent is announced if and only if no two have the same key. */
  lemma {:induction false} StreamAnnouncesExactly(l: Link, batch: seq<Sent>, chunks: seq<seq<byte>>, receiverMtu: nat,
                                                  reg: ChannelTable, expectedId: Option<int>)
    requires l.Valid() && l.mtu <= receiverMtu && AllArrivable(l, batch)
    requires forall m | m in batch :: Expected(expectedId, m.origin)
    requires Concat(chunks) == Processor.Stream(AllFrames(l, batch))
    ensures var frames := Processor.ProcessAll(Processor.FRESH, chunks, receiverMtu).frames;
            Announced(Effects(ReceiveAll(reg, expectedId, frames))) == |batch| <==> DistinctKeys(batch)
  {
    hide FragmentsOf, Crc.Crc32, Expectation, Concat, Countable, Announced, Effects, Sendable, AllFrames, ReceiveAll,
      Processor.ProcessAll, Processor.Stream, DistinctKeys, InTurn;
    BatchReceived(l, batch, reg, expectedId);
    StreamArrives(AllFrames(l, batch), chunks, l.mtu, receiverMtu);
    AllAnnouncedExactly(l, batch, Expectations(l, batch));
  }

  /** The same bytes sent twice get two numbers and are announced once. */
  lemma {:induction false} ResendAnnouncedOnce(numbers: map<MessageType, nat>, o: Origin, r: Request, l: Link,
                                               parts: seq<seq<ParsedMessage>>)
    requires r.mtype in numbers && l.Valid()
    requires var batch := SentFor(numbers, o, [r, r]); AllArrivable(l, batch) && InTurn(l, batch, parts)
    ensures var batch := SentFor(numbers, o, [r, r]);
            batch[0].number < batch[1].number && Announced(Effects(Concat(parts))) == 1
  {
    hide Announced, Effects, Concat, InTurn, AllArrivable, SentFor, Crc.Crc32;
    NumbersAdvance(numbers, o, [r, r], 0, 1);
    SentAt(numbers, o, [r, r], 0);
    SentAt(numbers, o, [r, r], 1);
    var batch := SentFor(numbers, o, [r, r]);
    OncePerKey(l, batch, parts);
    assert KeysOf(batch) == {KeyOf(batch[0])};
  }
}
