/** Cutting a message into frames (vtelem/message/framer.py, vtelem/frame/message.py). */
module MessageFramers {
  import opened Wrappers
  import opened Primitives
  import opened Frames
  import opened Framers
  import opened Sequences
  import Crc

  datatype MessageType = Agnostic | Text | Json | Enumeration | EnumRegistry | PrimitiveMessage

  function MessageCode(t: MessageType): (n: nat)
    ensures n <= 5
  {
    match t
    case Agnostic => 0
    case Text => 1
    case Json => 2
    case Enumeration => 3
    case EnumRegistry => 4
    case PrimitiveMessage => 5
  }

  // ---------------------------------------------------------------------
  // Fragments
  // ---------------------------------------------------------------------

  function Min(a: nat, b: nat): nat {
    if a < b then a else b
  }

  function Fragments(message: seq<byte>, perFrame: nat): seq<seq<byte>>
    requires perFrame > 0
    decreases |message|
  {
    if message == [] then []
    else
      var n := Min(|message|, perFrame);
      [message[..n]] + Fragments(message[n..], perFrame)
  }

  /** The number of frames, rounded up; it is not positive if the frames have no room. */
  function FramesRequired(length: nat, perFrame: int): int
    requires perFrame != 0
  {
    if perFrame > 0 then (length + perFrame - 1) / perFrame else -(length / -perFrame)
  }

  lemma {:induction false} FragmentCount(message: seq<byte>, perFrame: nat)
    requires perFrame > 0
    ensures |Fragments(message, perFrame)| == FramesRequired(|message|, perFrame)
    decreases |message|
  {
    if message != [] {
      var n := Min(|message|, perFrame);
      FragmentCount(message[n..], perFrame);
      FramesStep(|message|, perFrame);
    } else {
      NoneRequired(0, perFrame);
    }
  }

  lemma {:induction false} FramesStep(length: nat, perFrame: nat)
    requires perFrame > 0 && length > 0
    ensures FramesRequired(length, perFrame) == 1 + FramesRequired(length - Min(length, perFrame), perFrame)
  {
    RequiredOneMore(length, perFrame);
    if length > perFrame {
      RequiredOneMore(length - perFrame, perFrame);
    } else {
      SmallQuotient(length - 1, perFrame);
      NoneRequired(0, perFrame);
    }
  }

  /** One frame, and as many more as the other bytes fill. */
  lemma {:induction false} RequiredOneMore(length: nat, perFrame: nat)
    requires perFrame > 0 && length > 0
    ensures FramesRequired(length, perFrame) == 1 + (length - 1) / perFrame
    ensures length > perFrame ==> (length - 1) / perFrame == 1 + (length - perFrame - 1) / perFrame
  {
    AddOne(length - 1, perFrame);
    if length > perFrame {
      AddOne(length - perFrame - 1, perFrame);
    }
  }

  lemma {:induction false} SmallQuotient(a: nat, b: nat)
    requires a < b
    ensures a / b == 0
  {
  }

  lemma {:induction false} AddOne(a: nat, b: nat)
    requires b > 0
    ensures (a + b) / b == a / b + 1
  {
    var q, x := a / b, (a + b) / b;
    assert q * b <= a < q * b + b;
    assert x * b <= a + b < x * b + b;
    if x <= q {
      Times(x, q, b);
    }
    Times(q + 2, if x < q + 2 then q + 2 else x, b);
  }

  lemma {:induction false} OneMore(n: nat, c: nat)
    ensures (n + 1) * c == n * c + c
  {
  }

  lemma {:induction false} Times(x: nat, y: nat, b: nat)
    requires x <= y
    ensures x * b <= y * b
  {
  }

  /** Fragments are the message in order; all are full but the last, which is not empty. */
  lemma {:induction false} FragmentsCover(message: seq<byte>, perFrame: nat)
    requires perFrame > 0
    ensures var fs := Fragments(message, perFrame);
            && Concat(fs) == message
            && (forall i :: 0 <= i < |fs| ==> 0 < |fs[i]| <= perFrame)
            && (forall i :: 0 <= i < |fs| - 1 ==> |fs[i]| == perFrame)
    decreases |message|
  {
    if message != [] {
      var n := Min(|message|, perFrame);
      FragmentsCover(message[n..], perFrame);
      assert message == message[..n] + message[n..];
    }
  }

  // ---------------------------------------------------------------------
  // Frames
  // ---------------------------------------------------------------------

  /** A number that does not fit its field is not assigned, and the field keeps what it had. */
  function Kept(p: Primitive, kept: int, v: int): int {
    if IntegerCanHold(p, v) then v else kept
  }

  /** What all fragments of one message share. */
  datatype Envelope = Envelope(mtype: MessageType, number: nat, crc: nat, total: nat)

  function EnvelopeOf(mtype: MessageType, number: nat, message: seq<byte>, perFrame: nat): Envelope
    requires perFrame > 0
  {
    Envelope(mtype, number, Crc.Crc32(message), |Fragments(message, perFrame)|)
  }

  /**
   The fields of the fragment at `index`, as they are written: a fragment index
   above the largest keeps the largest.
   */
  function InfoAt(e: Envelope, index: nat): MessageInfo
    requires IntegerCanHold(UInt32, e.crc)
  {
    Widths();
    UnitHeld(UInt16);
    MessageInfo(MessageCode(e.mtype), Kept(UInt16, 0, e.number), e.crc,
                Kept(UInt16, MaxOf(UInt16), index), Kept(UInt16, 0, e.total))
  }

  function FrameAt(o: Origin, useCrc: bool, e: Envelope, index: nat, fragment: seq<byte>): seq<byte>
    requires IntegerCanHold(UInt32, e.crc) && IntegerCanHold(UInt32, |fragment|)
  {
    UnitHeld(UInt32);
    Sealed(MessagePayload(o, InfoAt(e, index), fragment), useCrc, true, 0)
  }

  /** The frames of the fragments from `index` on. */
  function FramesFrom(o: Origin, useCrc: bool, e: Envelope, index: nat, fragments: seq<seq<byte>>): (r: seq<seq<byte>>)
    requires IntegerCanHold(UInt32, e.crc)
    requires forall f | f in fragments :: IntegerCanHold(UInt32, |f|)
    ensures |r| == |fragments|
    decreases |fragments|
  {
    if fragments == [] then []
    else [FrameAt(o, useCrc, e, index, fragments[0])] + FramesFrom(o, useCrc, e, index + 1, fragments[1..])
  }

  function MessageOverhead(useCrc: bool): nat {
    MESSAGE_HEAD + Overhead(useCrc)
  }

  /** The frames of what is left of a message, from the fragment at `index` on. */
  function FramesOfRest(o: Origin, mtu: nat, useCrc: bool, e: Envelope, index: nat,
                        rest: seq<byte>): (r: seq<seq<byte>>)
    requires IntegerCanHold(UInt32, e.crc)
    requires IntegerCanHold(UInt32, mtu) && MessageOverhead(useCrc) < mtu
    ensures |r| == |Fragments(rest, mtu - MessageOverhead(useCrc))|
  {
    var perFrame := mtu - MessageOverhead(useCrc);
    FragmentsCover(rest, perFrame);
    FramesFrom(o, useCrc, e, index, Fragments(rest, perFrame))
  }

  /** The frames a message becomes. */
  function MessageFrames(o: Origin, mtu: nat, useCrc: bool, mtype: MessageType, number: nat,
                         message: seq<byte>): seq<seq<byte>>
    requires IntegerCanHold(UInt32, mtu) && MessageOverhead(useCrc) < mtu
  {
    FramesOfRest(o, mtu, useCrc, EnvelopeOf(mtype, number, message, mtu - MessageOverhead(useCrc)), 0, message)
  }

  function TotalLength(frames: seq<seq<byte>>): nat {
    if frames == [] then 0 else |frames[0]| + TotalLength(frames[1..])
  }

  lemma {:induction false} FrameLength(o: Origin, useCrc: bool, e: Envelope, index: nat, fragment: seq<byte>)
    requires IntegerCanHold(UInt32, e.crc) && IntegerCanHold(UInt32, |fragment|)
    ensures |FrameAt(o, useCrc, e, index, fragment)| == MessageOverhead(useCrc) + |fragment|
  {
    hide Head, Crc.Crc32, IntegerBounds, InfoFields, InfoAt;
    InfoLength(InfoAt(e, index));
  }

  lemma {:induction false} FramesAt(o: Origin, useCrc: bool, e: Envelope, index: nat, fragments: seq<seq<byte>>)
    requires IntegerCanHold(UInt32, e.crc)
    requires forall f | f in fragments :: IntegerCanHold(UInt32, |f|)
    ensures var r := FramesFrom(o, useCrc, e, index, fragments);
            forall i :: 0 <= i < |r| ==> r[i] == FrameAt(o, useCrc, e, index + i, fragments[i])
    decreases |fragments|
  {
    hide FrameAt, IntegerBounds;
    if fragments != [] {
      FramesAt(o, useCrc, e, index + 1, fragments[1..]);
    }
  }

  /** Every frame is its fragment plus the overhead, so their sizes add up. */
  lemma {:induction false} FramesLength(o: Origin, useCrc: bool, e: Envelope, index: nat, fragments: seq<seq<byte>>)
    requires IntegerCanHold(UInt32, e.crc)
    requires forall f | f in fragments :: IntegerCanHold(UInt32, |f|)
    ensures TotalLength(FramesFrom(o, useCrc, e, index, fragments))
            == |Concat(fragments)| + |fragments| * MessageOverhead(useCrc)
    decreases |fragments|
  {
    hide FrameAt, IntegerBounds, MessageOverhead;
    if fragments != [] {
      var rest := fragments[1..];
      FrameLength(o, useCrc, e, index, fragments[0]);
      FramesLength(o, useCrc, e, index + 1, rest);
      var r := FramesFrom(o, useCrc, e, index, fragments);
      assert r[1..] == FramesFrom(o, useCrc, e, index + 1, rest);
      OneMore(|rest|, MessageOverhead(useCrc));
    }
  }

  lemma {:induction false} FrameSizes(o: Origin, useCrc: bool, e: Envelope, index: nat, fragments: seq<seq<byte>>)
    requires IntegerCanHold(UInt32, e.crc)
    requires forall f | f in fragments :: IntegerCanHold(UInt32, |f|)
    ensures var r := FramesFrom(o, useCrc, e, index, fragments);
            forall i :: 0 <= i < |r| ==> |r[i]| == MessageOverhead(useCrc) + |fragments[i]|
  {
    hide IntegerBounds, FrameAt, FramesFrom, MessageOverhead;
    FramesAt(o, useCrc, e, index, fragments);
    var r := FramesFrom(o, useCrc, e, index, fragments);
    forall i | 0 <= i < |r|
      ensures |r[i]| == MessageOverhead(useCrc) + |fragments[i]|
    {
      FrameLength(o, useCrc, e, index + i, fragments[i]);
    }
  }

  /** The frames of a message respect the MTU and cost a fixed overhead each. */
  lemma {:induction false} MessageFramesFit(o: Origin, mtu: nat, useCrc: bool, mtype: MessageType, number: nat,
                                            message: seq<byte>)
    requires IntegerCanHold(UInt32, mtu) && MessageOverhead(useCrc) < mtu
    ensures var frames := MessageFrames(o, mtu, useCrc, mtype, number, message);
            && |frames| == FramesRequired(|message|, mtu - MessageOverhead(useCrc))
            && (forall i :: 0 <= i < |frames| ==> MessageOverhead(useCrc) < |frames[i]| <= mtu)
            && (forall i :: 0 <= i < |frames| - 1 ==> |frames[i]| == mtu)
            && TotalLength(frames) == |message| + |frames| * MessageOverhead(useCrc)
  {
    hide FramesFrom, Fragments, FramesRequired, Pow2, Crc.Crc32, TotalLength, Concat, MessageOverhead;
    var perFrame := mtu - MessageOverhead(useCrc);
    FragmentsCover(message, perFrame);
    FragmentCount(message, perFrame);
    var e, fs := EnvelopeOf(mtype, number, message, perFrame), Fragments(message, perFrame);
    FramesLength(o, useCrc, e, 0, fs);
    FrameSizes(o, useCrc, e, 0, fs);
  }

  lemma {:induction false} RestStep(o: Origin, mtu: nat, useCrc: bool, e: Envelope, index: nat, rest: seq<byte>)
    requires IntegerCanHold(UInt32, e.crc) && rest != []
    requires IntegerCanHold(UInt32, mtu) && MessageOverhead(useCrc) < mtu
    ensures var n := Min(|rest|, mtu - MessageOverhead(useCrc));
            && IntegerCanHold(UInt32, n)
            && FramesOfRest(o, mtu, useCrc, e, index, rest)
               == [FrameAt(o, useCrc, e, index, rest[..n])] + FramesOfRest(o, mtu, useCrc, e, index + 1, rest[n..])
  {
    hide FrameAt, Pow2;
  }

  /** What the next frame takes from a message of which `start` bytes are done. */
  lemma {:induction false} NextFrame(o: Origin, mtu: nat, useCrc: bool, e: Envelope, index: nat, message: seq<byte>,
                                     start: nat)
    requires IntegerCanHold(UInt32, e.crc) && start < |message|
    requires IntegerCanHold(UInt32, mtu) && MessageOverhead(useCrc) < mtu
    ensures var perFrame := mtu - MessageOverhead(useCrc);
            var left := |message| - start;
            var n := Min(left, perFrame);
            && FramesRequired(left, perFrame) == 1 + FramesRequired(left - n, perFrame)
            && IntegerCanHold(UInt32, |message[start..start + n]|)
            && FramesOfRest(o, mtu, useCrc, e, index, message[start..])
               == [FrameAt(o, useCrc, e, index, message[start..start + n])]
                  + FramesOfRest(o, mtu, useCrc, e, index + 1, message[start + n..])
  {
    hide FrameAt, IntegerBounds, FramesOfRest, FramesRequired, MessageOverhead;
    var perFrame := mtu - MessageOverhead(useCrc);
    var left := |message| - start;
    var n := Min(left, perFrame);
    FramesStep(left, perFrame);
    RestStep(o, mtu, useCrc, e, index, message[start..]);
    assert message[start..][..n] == message[start..start + n] && message[start..][n..] == message[start + n..];
  }

  lemma {:induction false} TotalLengthAppend(frames: seq<seq<byte>>, f: seq<byte>)
    ensures TotalLength(frames + [f]) == TotalLength(frames) + |f|
  {
    if frames == [] {
      assert ([] + [f])[1..] == [];
    } else {
      assert (frames + [f])[1..] == frames[1..] + [f];
      TotalLengthAppend(frames[1..], f);
    }
  }

  // ---------------------------------------------------------------------
  // The framer
  // ---------------------------------------------------------------------

  /** Frames without any room for a fragment make the division by that room fail. */
  datatype Serialized = Serialized(frames: seq<seq<byte>>, totalBytes: nat) | DivisionByZero

  /** One frame filled with a fragment and finalized. */
  method FillFrame(frame: MessageFrame, e: Envelope, index: nat, fragment: seq<byte>)
    returns (bytes: seq<byte>, used: nat)
    requires frame.Valid() && !frame.base.initialized && !frame.base.finalized
    requires IntegerCanHold(UInt32, e.crc) && IntegerCanHold(UInt32, |fragment|)
    modifies frame, frame.base, frame.base.buffer
    ensures bytes == FrameAt(frame.base.origin, frame.base.useCrc, e, index, fragment) && used == |bytes|
  {
    hide IntegerBounds, Head, InfoAt, MessagePayload;
    UnitHeld(UInt32);
    frame.Initialize(InfoAt(e, index), fragment);
    used := frame.Finalize(frame.base.useCrc, 0);
    bytes := frame.base.buffer.data;
  }

  class MessageFramer {
    const framer: Framer
    var messageNumbers: map<MessageType, nat>

    ghost predicate Valid()
      reads this, framer
    {
      framer.Valid() && messageNumbers.Keys == {Agnostic, Text, Json, Enumeration, EnumRegistry, PrimitiveMessage}
    }

    constructor (mtu: nat, appId: int, useCrc: bool)
      requires IntegerCanHold(UInt16, appId)
      ensures (Valid() <==> Overhead(useCrc) < mtu && IntegerCanHold(UInt32, mtu)) && fresh(framer)
      ensures framer.mtu == mtu && framer.appId == appId && framer.useCrc == useCrc
      ensures forall t | t in messageNumbers :: messageNumbers[t] == 0
    {
      framer := new Framer(mtu, appId, useCrc);
      messageNumbers := map[Agnostic := 0, Text := 0, Json := 0, Enumeration := 0, EnumRegistry := 0,
          PrimitiveMessage := 0];
    }

    method NewMessageFrame(time: Option<real>) returns (frame: MessageFrame)
      requires Valid()
      requires time.Some? ==> IntegerCanHold(UInt64, TimeToInt(time.value))
      modifies framer
      ensures Valid() && frame.Valid() && fresh(frame) && fresh(frame.base) && fresh(frame.base.buffer)
      ensures framer.timestamps == if time.Some? then old(framer.timestamps)[MessageFrameType := TimeToInt(time.value)]
                                   else old(framer.timestamps)
      ensures frame.base.mtu == framer.mtu && frame.base.useCrc == framer.useCrc
      ensures frame.base.origin == Origin(framer.appId, MessageFrameType, framer.timestamps[MessageFrameType])
      ensures !frame.base.initialized && !frame.base.finalized
    {
      hide IntegerBounds, Head;
      var o := framer.NewOrigin(MessageFrameType, time);
      frame := new MessageFrame(framer.mtu, o, framer.useCrc);
    }

    ghost function TimestampsAfter(time: Option<real>): map<FrameType, int>
      reads framer
    {
      if time.Some? then framer.timestamps[MessageFrameType := TimeToInt(time.value)] else framer.timestamps
    }

    /** Fill frame after frame until nothing is left of the message. */
    method FrameMessage(first: MessageFrame, message: seq<byte>, time: Option<real>, e: Envelope, perFrame: nat)
      returns (frames: seq<seq<byte>>, totalBytes: nat)
      requires Valid() && IntegerCanHold(UInt32, e.crc)
      requires perFrame == framer.mtu - MessageOverhead(framer.useCrc) > 0
      requires e.total == FramesRequired(|message|, perFrame)
      requires time.Some? ==> IntegerCanHold(UInt64, TimeToInt(time.value))
      requires first.Valid() && !first.base.initialized && !first.base.finalized
      requires first.base.mtu == framer.mtu && first.base.useCrc == framer.useCrc
      requires first.base.origin == Origin(framer.appId, MessageFrameType, framer.timestamps[MessageFrameType])
      requires TimestampsAfter(time) == framer.timestamps
      modifies framer, first, first.base, first.base.buffer
      ensures Valid() && framer.timestamps == old(framer.timestamps)
      ensures frames == FramesOfRest(first.base.origin, framer.mtu, framer.useCrc, e, 0, message)
      ensures totalBytes == TotalLength(frames)
    {
      hide IntegerBounds, Head, FramesOfRest, FrameAt, Fragments, FramesRequired, MessageOverhead;
      var frame, toFrame, start := first, |message|, 0;
      ghost var o, all := first.base.origin, FramesOfRest(first.base.origin, framer.mtu, framer.useCrc, e, 0, message);
      frames, totalBytes := [], 0;
      assert message[0..] == message && [] + all == all;
      for index := 0 to e.total
        invariant Valid() && framer.timestamps == old(framer.timestamps)
        invariant 0 <= toFrame && 0 <= start && start + toFrame == |message|
        invariant e.total - index == FramesRequired(toFrame, perFrame)
        invariant all == frames + FramesOfRest(o, framer.mtu, framer.useCrc, e, index, message[start..])
        invariant totalBytes == TotalLength(frames)
        invariant frame == first || (fresh(frame) && fresh(frame.base) && fresh(frame.base.buffer))
        invariant toFrame > 0 ==>
                    && frame.Valid() && !frame.base.initialized && !frame.base.finalized
                    && frame.base.mtu == framer.mtu && frame.base.useCrc == framer.useCrc && frame.base.origin == o
      {
        NoneRequired(toFrame, perFrame);
        assert toFrame > 0;
        var n := Min(toFrame, perFrame);
        NextFrame(o, framer.mtu, framer.useCrc, e, index, message, start);
        var fragment := message[start..start + n];
        var bytes, k := FillFrame(frame, e, index, fragment);
        totalBytes := totalBytes + k;
        TotalLengthAppend(frames, bytes);
        frames := frames + [bytes];
        toFrame := toFrame - n;
        start := start + n;
        if toFrame > 0 {
          frame := NewMessageFrame(time);
        }
      }
      NoneRequired(toFrame, perFrame);
      NoRest(o, framer.mtu, framer.useCrc, e, e.total, message[start..]);
    }

    /** A message becomes exactly its frames; the next message of its type gets the next number. */
    method SerializeMessage(message: seq<byte>, time: Option<real>, mtype: MessageType) returns (r: Serialized)
      requires Valid()
      requires time.Some? ==> IntegerCanHold(UInt64, TimeToInt(time.value))
      modifies this, framer
      ensures Valid() && framer.timestamps == old(TimestampsAfter(time)) && mtype in old(messageNumbers)
      ensures var number := old(messageNumbers)[mtype];
              var room := framer.mtu - MessageOverhead(framer.useCrc);
              var o := Origin(framer.appId, MessageFrameType, framer.timestamps[MessageFrameType]);
              if room == 0 then r == DivisionByZero && messageNumbers == old(messageNumbers)
              else
                && messageNumbers == old(messageNumbers)[mtype := number + 1]
                && r == if room < 0 then Serialized([], 0) else
                        var frames := MessageFrames(o, framer.mtu, framer.useCrc, mtype, number, message);
                        Serialized(frames, TotalLength(frames))
    {
      hide IntegerBounds, Head, Crc.Crc32, FramesOfRest, Fragments;
      assert mtype in messageNumbers by { match mtype case _ => }
      var frame := NewMessageFrame(time);
      var perFrame := framer.mtu - frame.FrameOverhead();
      if perFrame == 0 {
        return DivisionByZero;
      }
      var totalFrames := FramesRequired(|message|, perFrame);
      var number := messageNumbers[mtype];
      messageNumbers := messageNumbers[mtype := number + 1];
      if perFrame < 0 {
        NoFrames(|message|, perFrame);
        return Serialized([], 0);
      }
      FragmentCount(message, perFrame);
      var e := Envelope(mtype, number, Crc.Crc32(message), totalFrames);
      var frames, totalBytes := FrameMessage(frame, message, time, e, perFrame);
      r := Serialized(frames, totalBytes);
    }
  }

  lemma {:induction false} NoRest(o: Origin, mtu: nat, useCrc: bool, e: Envelope, index: nat, rest: seq<byte>)
    requires IntegerCanHold(UInt32, e.crc) && rest == []
    requires IntegerCanHold(UInt32, mtu) && MessageOverhead(useCrc) < mtu
    ensures FramesOfRest(o, mtu, useCrc, e, index, rest) == []
  {
  }

  lemma {:induction false} NoFrames(length: nat, perFrame: int)
    requires perFrame < 0
    ensures FramesRequired(length, perFrame) <= 0
  {
    assert length / -perFrame >= 0;
  }

  lemma {:induction false} NoneRequired(length: nat, perFrame: nat)
    requires perFrame > 0
    ensures length == 0 ==> FramesRequired(length, perFrame) == 0
    ensures length > 0 ==> FramesRequired(length, perFrame) > 0
  {
    if length == 0 {
      SmallQuotient(perFrame - 1, perFrame);
    } else {
      RequiredOneMore(length, perFrame);
    }
  }
}
