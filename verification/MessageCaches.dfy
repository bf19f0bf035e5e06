/** Reassembling messages from fragments (vtelem/message/cache.py, vtelem/frame/fields.py). */
module MessageCaches {
  import opened Wrappers
  import opened Primitives
  import opened Frames
  import opened Parsing
  import opened MessageFramers

  // ---------------------------------------------------------------------
  // One message
  // ---------------------------------------------------------------------

  /** Messages are told apart by their type and checksum. */
  datatype Key = Key(mtype: MessageType, crc: int)

  datatype ParsedMessage = ParsedMessage(key: Key, number: int, index: int, total: int, data: seq<byte>)

  function MessageTypeOf(code: int): Option<MessageType> {
    match code
    case 0 => Some(Agnostic)
    case 1 => Some(Text)
    case 2 => Some(Json)
    case 3 => Some(Enumeration)
    case 4 => Some(EnumRegistry)
    case 5 => Some(PrimitiveMessage)
    case _ => None
  }

  /** The values of the message types on the wire, and that there are no others. */
  lemma {:induction false} MessageTypeCodes(t: MessageType, code: int)
    ensures MessageCode(Agnostic) == 0 && MessageCode(Text) == 1 && MessageCode(Json) == 2
    ensures MessageCode(Enumeration) == 3 && MessageCode(EnumRegistry) == 4 && MessageCode(PrimitiveMessage) == 5
    ensures MessageTypeOf(code) == Some(t) <==> MessageCode(t) == code
    ensures MessageTypeOf(code) == None <==> code < 0 || code > 5
  {
  }

  /** The message in a frame; an unknown message type raises an exception. */
  function ToParsed(info: MessageInfo, fragment: seq<byte>): Option<ParsedMessage> {
    var t := MessageTypeOf(info.mtype);
    if t.None? then None
    else Some(ParsedMessage(Key(t.value, info.crc), info.number, info.index, info.total, fragment))
  }

  /** What is known of one message: how many fragments came, and which are held. */
  datatype Slot = Slot(fragments: nat, complete: bool, number: Option<int>, held: map<int, seq<byte>>)

  const EMPTY := Slot(0, false, None, map[])

  /** Taking in a fragment completes a message, or finds one of its fragments missing, or does neither. */
  datatype Effect = Quiet | Completed(number: int, content: seq<byte>) | Broken

  predicate HoldsFirst(held: map<int, seq<byte>>, n: nat) {
    forall i: int :: 0 <= i < n ==> i in held
  }

  function Content(held: map<int, seq<byte>>, n: nat): seq<byte>
    requires HoldsFirst(held, n)
  {
    if n == 0 then [] else Content(held, n - 1) + held[n - 1]
  }

  /** The counter counts deliveries; nothing checks whether a fragment is already held. */
  function Taken(s: Slot, m: ParsedMessage): Slot {
    if s.complete then s.(number := Some(m.number))
    else
      var t := s.(fragments := s.fragments + 1, held := s.held[m.index := m.data]);
      if t.fragments == m.total then t.(complete := true, number := Some(m.number)) else t
  }

  function EffectOf(s: Slot, m: ParsedMessage): Effect {
    var t := Taken(s, m);
    if s.complete || !t.complete then Quiet
    else if HoldsFirst(t.held, t.fragments) then Completed(m.number, Content(t.held, t.fragments))
    else Broken
  }

  function TakenAll(s: Slot, ms: seq<ParsedMessage>): Slot {
    if ms == [] then s else Taken(TakenAll(s, ms[..|ms| - 1]), ms[|ms| - 1])
  }

  function EffectsOf(s: Slot, ms: seq<ParsedMessage>): (r: seq<Effect>)
    ensures |r| == |ms|
  {
    if ms == [] then []
    else EffectsOf(s, ms[..|ms| - 1]) + [EffectOf(TakenAll(s, ms[..|ms| - 1]), ms[|ms| - 1])]
  }

  // ---------------------------------------------------------------------
  // The cache
  // ---------------------------------------------------------------------

  datatype CrcData = CrcData(fragments: nat, complete: bool, number: Option<int>)

  /** One invocation of a registered callback. */
  datatype Call = Call(callback: nat, mtype: MessageType, number: int, content: seq<byte>)

  function Calls(callbacks: seq<nat>, mtype: MessageType, number: int, content: seq<byte>): seq<Call> {
    seq(|callbacks|, i requires 0 <= i < |callbacks| => Call(callbacks[i], mtype, number, content))
  }

  /** Each callback is called in its turn, with the message. */
  lemma {:induction false} CallsInOrder(callbacks: seq<nat>, mtype: MessageType, number: int, content: seq<byte>,
                                        i: nat)
    requires i < |callbacks|
    ensures |Calls(callbacks, mtype, number, content)| == |callbacks|
    ensures var c := Calls(callbacks, mtype, number, content)[i];
            c.callback == callbacks[i] && c.mtype == mtype && c.number == number && c.content == content
  {
  }

  function CallsOf(callbacks: map<MessageType, seq<nat>>, mtype: MessageType, e: Effect): seq<Call> {
    if e.Completed? && mtype in callbacks then Calls(callbacks[mtype], mtype, e.number, e.content) else []
  }

  /** What the cache's two dictionaries say of one message. */
  function SlotIn(data: map<Key, CrcData>, fragmentData: map<Key, map<int, seq<byte>>>, k: Key): Slot {
    var held := if k in fragmentData then fragmentData[k] else map[];
    if k in data then Slot(data[k].fragments, data[k].complete, data[k].number, held)
    else EMPTY.(held := held)
  }

  /** The fragments of one message, in order of arrival. */
  function Only(ms: seq<ParsedMessage>, k: Key): seq<ParsedMessage> {
    if ms == [] then []
    else
      var before, last := Only(ms[..|ms| - 1], k), ms[|ms| - 1];
      if last.key == k then before + [last] else before
  }

  /** A fragment that arrives is taken by its own message and by no other. */
  lemma {:induction false} OneMoreTaken(s: Slot, ms: seq<ParsedMessage>, i: nat, k: Key)
    requires i < |ms|
    ensures TakenAll(s, Only(ms[..i + 1], k)) ==
            var before := TakenAll(s, Only(ms[..i], k));
            if ms[i].key == k then Taken(before, ms[i]) else before
  {
    assert ms[..i + 1][..i] == ms[..i];
    var before := Only(ms[..i], k);
    assert (before + [ms[i]])[..|before|] == before;
  }

  /** What the fragment at position `i` of an arrival sequence brings about, given the slots before it. */
  function EffectAt(data: map<Key, CrcData>, fragmentData: map<Key, map<int, seq<byte>>>, ms: seq<ParsedMessage>,
                    i: nat): Effect
    requires i < |ms|
  {
    var k := ms[i].key;
    EffectOf(TakenAll(SlotIn(data, fragmentData, k), Only(ms[..i], k)), ms[i])
  }

  /** The callback invocations of an arrival sequence. */
  function RunCalls(callbacks: map<MessageType, seq<nat>>, data: map<Key, CrcData>,
                    fragmentData: map<Key, map<int, seq<byte>>>, ms: seq<ParsedMessage>, n: nat): seq<Call>
    requires n <= |ms|
  {
    if n == 0 then []
    else RunCalls(callbacks, data, fragmentData, ms, n - 1)
         + CallsOf(callbacks, ms[n - 1].key.mtype, EffectAt(data, fragmentData, ms, n - 1))
  }

  class MessageCache {
    var data: map<Key, CrcData>
    var fragmentData: map<Key, map<int, seq<byte>>>
    var callbacks: map<MessageType, seq<nat>>

    /** Every callback invocation so far. */
    ghost var calls: seq<Call>

    ghost function SlotAt(k: Key): Slot
      reads this
    {
      SlotIn(data, fragmentData, k)
    }

    constructor ()
      ensures data == map[] && fragmentData == map[] && callbacks == map[] && calls == []
    {
      data := map[];
      fragmentData := map[];
      callbacks := map[];
      calls := [];
    }

    method AddCallback(mtype: MessageType, callback: nat)
      modifies this`callbacks
      ensures var registered := if mtype in old(callbacks) then old(callbacks)[mtype] else [];
              callbacks == old(callbacks)[mtype := registered + [callback]]
    {
      callbacks := callbacks[mtype := (if mtype in callbacks then callbacks[mtype] else []) + [callback]];
    }

    method StoreFragment(k: Key, index: int, bytes: seq<byte>)
      modifies this`fragmentData
      ensures fragmentData == old(fragmentData)[k := old(SlotAt(k)).held[index := bytes]]
    {
      if k !in fragmentData {
        fragmentData := fragmentData[k := map[]];
      }
      fragmentData := fragmentData[k := fragmentData[k][index := bytes]];
    }

    /** A complete message's number and bytes; a fragment it counted but does not hold raises an exception. */
    method ReadContent(k: Key) returns (r: Option<(int, seq<byte>)>, raised: bool)
      ensures raised <==> SlotAt(k).complete && !HoldsFirst(SlotAt(k).held, SlotAt(k).fragments)
      ensures r.Some? <==> SlotAt(k).complete && !raised
      ensures r.Some? ==> r.value.1 == Content(SlotAt(k).held, SlotAt(k).fragments)
      ensures r.Some? && SlotAt(k).number.Some? ==> r.value.0 == SlotAt(k).number.value
    {
      if k !in data || !data[k].complete {
        return None, false;
      }
      var message := data[k];
      var fragments := if k in fragmentData then fragmentData[k] else map[];
      var bytes := [];
      for i := 0 to message.fragments
        invariant HoldsFirst(fragments, i) && bytes == Content(fragments, i)
      {
        if i !in fragments {
          return None, true;
        }
        bytes := bytes + fragments[i];
      }
      return Some((if message.number.Some? then message.number.value else 0, bytes)), false;
    }

    method ServiceCallbacks(mtype: MessageType, number: int, content: seq<byte>)
      modifies this`calls
      ensures calls == old(calls) + CallsOf(callbacks, mtype, Completed(number, content))
    {
      var registered := if mtype in callbacks then callbacks[mtype] else [];
      for i := 0 to |registered|
        invariant calls == old(calls) + Calls(registered[..i], mtype, number, content)
      {
        assert Calls(registered[..i + 1], mtype, number, content)
            == Calls(registered[..i], mtype, number, content) + [Call(registered[i], mtype, number, content)];
        calls := calls + [Call(registered[i], mtype, number, content)];
      }
      assert registered[..|registered|] == registered;
    }

    /** A fragment changes the slot of its own message only, and callbacks run exactly when it completes. */
    method Ingest(m: ParsedMessage) returns (raised: bool)
      modifies this`data, this`fragmentData, this`calls
      ensures SlotAt(m.key) == Taken(old(SlotAt(m.key)), m)
      ensures forall k | k != m.key :: SlotAt(k) == old(SlotAt(k))
      ensures calls == old(calls) + CallsOf(callbacks, m.key.mtype, EffectOf(old(SlotAt(m.key)), m))
      ensures raised <==> EffectOf(old(SlotAt(m.key)), m) == Broken
    {
      hide HoldsFirst, Content, Calls;
      var k := m.key;
      if k !in data {
        data := data[k := CrcData(0, false, None)];
      }
      assert SlotAt(k) == old(SlotAt(k));
      if data[k].complete {
        data := data[k := data[k].(number := Some(m.number))];
        return false;
      }
      StoreFragment(k, m.index, m.data);
      data := data[k := data[k].(fragments := data[k].fragments + 1)];
      raised := false;
      if data[k].fragments == m.total {
        data := data[k := data[k].(complete := true, number := Some(m.number))];
        var full, failed := ReadContent(k);
        raised := failed;
        if full.Some? {
          ServiceCallbacks(m.key.mtype, full.value.0, full.value.1);
        }
      }
    }

    /** Only message frames are ingested; an unknown message type raises an exception and changes nothing. */
    method IngestFrame(frame: ParsedFrame) returns (raised: bool)
      requires frame.body.MessageBody?
      modifies this`data, this`fragmentData, this`calls
      ensures var m := ToParsed(frame.body.info, frame.body.fragment);
              if m.None? then raised && unchanged(this)
              else
                var effect := EffectOf(old(SlotAt(m.value.key)), m.value);
                && SlotAt(m.value.key) == Taken(old(SlotAt(m.value.key)), m.value)
                && (forall k | k != m.value.key :: SlotAt(k) == old(SlotAt(k)))
                && calls == old(calls) + CallsOf(callbacks, m.value.key.mtype, effect)
                && (raised <==> effect == Broken)
    {
      var m := ToParsed(frame.body.info, frame.body.fragment);
      if m.None? {
        return true;
      }
      raised := Ingest(m.value);
    }

    /** However fragments of different messages interleave, each message sees its own fragments only. */
    method IngestAll(ms: seq<ParsedMessage>)
      modifies this`data, this`fragmentData, this`calls
      ensures forall k :: SlotAt(k) == TakenAll(old(SlotAt(k)), Only(ms, k))
      ensures calls == old(calls) + RunCalls(callbacks, old(data), old(fragmentData), ms, |ms|)
    {
      hide Taken, EffectOf, CallsOf, SlotIn;
      assert ms[..0] == [];
      for i := 0 to |ms|
        invariant forall k :: SlotAt(k) == TakenAll(old(SlotAt(k)), Only(ms[..i], k))
        invariant calls == old(calls) + RunCalls(callbacks, old(data), old(fragmentData), ms, i)
      {
        forall k
          ensures TakenAll(old(SlotAt(k)), Only(ms[..i + 1], k)) ==
                  var before := TakenAll(old(SlotAt(k)), Only(ms[..i], k));
                  if ms[i].key == k then Taken(before, ms[i]) else before
        {
          OneMoreTaken(old(SlotAt(k)), ms, i, k);
        }
        var _ := Ingest(ms[i]);
      }
      assert ms[..|ms|] == ms;
    }
  }
}
