/** Parsing frames (vtelem/parsing/encapsulation.py, vtelem/parsing/frames.py). */
module Parsing {
  import opened Wrappers
  import opened Primitives
  import opened ByteBuffers
  import opened Wire
  import opened Frames
  import opened Registries
  import Crc

  // ---------------------------------------------------------------------
  // What parsing a sequence of bytes means
  // ---------------------------------------------------------------------

  datatype FrameHeader = FrameHeader(length: nat, appId: int, frameType: FrameType, timestamp: int, size: nat)

  /** What was sent for one channel: a value, or two values with their times. */
  datatype Element = Element(id: int, channel: ChannelInfo, fields: seq<Field>)

  datatype Body =
    | Skipped
    | DataBody(elements: seq<Element>)
    | EventBody(elements: seq<Element>)
    | MessageBody(info: MessageInfo, fragment: seq<byte>)
    | StreamBody(id: int, channel: ChannelInfo, index: int, data: seq<byte>)

  datatype ParsedFrame = ParsedFrame(header: FrameHeader, body: Body, crc: Option<int>)

  /** A frame may be refused (wrong sender or checksum), and reading a malformed one raises an exception. */
  datatype Outcome = Parsed(frame: ParsedFrame) | Refused | Raised

  function FrameTypeOf(code: int): Option<FrameType> {
    match code
    case 0 => Some(InvalidFrame)
    case 1 => Some(DataFrame)
    case 2 => Some(EventFrame)
    case 3 => Some(MessageFrameType)
    case 4 => Some(StreamFrame)
    case _ => None
  }

  /** The values of the frame types on the wire, and that there are no others. */
  lemma {:induction false} FrameTypeCodes(t: FrameType, code: int)
    ensures TypeCode(InvalidFrame) == 0 && TypeCode(DataFrame) == 1 && TypeCode(EventFrame) == 2
    ensures TypeCode(MessageFrameType) == 3 && TypeCode(StreamFrame) == 4
    ensures FrameTypeOf(code) == Some(t) <==> TypeCode(t) == code
    ensures FrameTypeOf(code) == None <==> code < 0 || code > 4
  {
  }

  function IntAt(p: Primitive, s: seq<byte>, at: nat): (i: int)
    requires IsInteger(p) && at + Size(p) <= |s|
    ensures IntegerCanHold(p, i)
  {
    ReadField(p, s, at).value.i
  }

  function NatAt(p: Primitive, s: seq<byte>, at: nat): (i: nat)
    requires IsInteger(p) && !IsSigned(p) && at + Size(p) <= |s|
    ensures IntegerCanHold(p, i)
  {
    IntAt(p, s, at)
  }

  /** The element types of a data frame and of an event frame, by the channel's type. */
  function Layout(t: FrameType, p: Primitive): seq<Primitive> {
    if t == EventFrame then [p, UInt64, p, UInt64] else [p]
  }

  /** The identifiers of known channels that are not streams. */
  function ReadChannels(reg: ChannelTable, s: seq<byte>, at: nat, n: nat): Option<seq<(int, ChannelInfo)>>
    decreases n
  {
    if n == 0 then Some([])
    else if at + 2 > |s| then None
    else
      var id := IntAt(UInt16, s, at);
      if id !in reg || reg[id].isStream then None
      else Prepend([(id, reg[id])], ReadChannels(reg, s, at + 2, n - 1))
  }

  function ReadElements(t: FrameType, chans: seq<(int, ChannelInfo)>, s: seq<byte>, at: nat): Option<seq<Element>>
    decreases |chans|
  {
    if chans == [] then Some([])
    else
      var layout := Layout(t, chans[0].1.prim);
      var fields := Unpack(layout, s, at);
      if fields.None? then None
      else Prepend([Element(chans[0].0, chans[0].1, fields.value)],
                   ReadElements(t, chans[1..], s, at + TotalSize(layout)))
  }

  function ElementsSize(es: seq<Element>): nat {
    if es == [] then 0 else TotalSize(Prims(es[0].fields)) + ElementsSize(es[1..])
  }

  function ElementsBody(t: FrameType, es: seq<Element>): Body {
    if t == EventFrame then EventBody(es) else DataBody(es)
  }

  function InfoOf(fs: seq<Field>): MessageInfo
    requires Prims(fs) == MESSAGE_PRIMS
  {
    assert forall i :: 0 <= i < 5 ==> fs[i].prim == Prims(fs)[i];
    MessageInfo(fs[0].value.i, fs[1].value.i, fs[2].value.i, fs[3].value.i, fs[4].value.i)
  }

  /** A frame's body from `at` on, with the position after it. */
  function ParseBody(reg: ChannelTable, t: FrameType, size: nat, s: seq<byte>, at: nat): (r: Option<(Body, nat)>)
    requires at <= |s|
  {
    match t
    case InvalidFrame => Some((Skipped, |s|))
    case DataFrame | EventFrame =>
      var chans := ReadChannels(reg, s, at, size);
      if chans.None? then None
      else
        var es := ReadElements(t, chans.value, s, at + 2 * size);
        if es.None? then None
        else Some((ElementsBody(t, es.value), at + 2 * size + ElementsSize(es.value)))
    case MessageFrameType =>
      var fs := Unpack(MESSAGE_PRIMS, s, at);
      if fs.None? || at + MESSAGE_HEAD + size > |s| then None
      else
        var start := at + MESSAGE_HEAD;
        Some((MessageBody(InfoOf(fs.value), s[start..start + size]), start + size))
    case StreamFrame => ReadStream(reg, size, s, at)
  }

  /** A known stream channel, an index and as many elements as the header says. */
  function ReadStream(reg: ChannelTable, size: nat, s: seq<byte>, at: nat): Option<(Body, nat)> {
    if at + 2 > |s| then None
    else
      var id := IntAt(UInt16, s, at);
      if id !in reg || !reg[id].isStream || at + 6 > |s| then None
      else
        var n := size * Size(reg[id].prim);
        if at + 6 + n > |s| then None
        else Some((StreamBody(id, reg[id], IntAt(UInt32, s, at + 2), s[at + 6..at + 6 + n]), at + 6 + n))
  }

  /** The optional checksum after a body that ends at `end`. */
  function CheckFooter(header: FrameHeader, body: Body, s: seq<byte>, end: nat): Outcome {
    if end + 4 > |s| then Parsed(ParsedFrame(header, body, None))
    else if IntAt(UInt32, s, end) != Crc.Crc32(s[..end]) then Refused
    else Parsed(ParsedFrame(header, body, Some(IntAt(UInt32, s, end))))
  }

  datatype HeaderOutcome = Header(header: FrameHeader) | OtherSender | BadHeader

  function ReadHeader(s: seq<byte>, expectedId: Option<int>): (r: HeaderOutcome)
    ensures r.Header? ==> |s| >= HEAD
  {
    if |s| < 2 then BadHeader
    else if expectedId.Some? && IntAt(UInt16, s, 0) != expectedId.value then OtherSender
    else if |s| < HEAD then BadHeader
    else
      var t := FrameTypeOf(IntAt(UInt8, s, 2));
      if t.None? then BadHeader
      else Header(FrameHeader(|s|, IntAt(UInt16, s, 0), t.value, IntAt(UInt64, s, 3), NatAt(UInt32, s, COUNT_AT)))
  }

  function DecodeFrame(reg: ChannelTable, s: seq<byte>, expectedId: Option<int>): Outcome {
    match ReadHeader(s, expectedId)
    case BadHeader => Raised
    case OtherSender => Refused
    case Header(h) =>
      var body := ParseBody(reg, h.frameType, h.size, s, HEAD);
      if body.None? then Raised else CheckFooter(h, body.value.0, s, body.value.1)
  }

  // ---------------------------------------------------------------------
  // The parser
  // ---------------------------------------------------------------------

  /** A buffer that is only read from. */
  ghost predicate Reading(buf: ByteBuffer, s: seq<byte>)
    reads buf
  {
    buf.Valid() && buf.Contents() == s && buf.pos <= |s|
  }

  method ParseField(buf: ByteBuffer, p: Primitive, ghost s: seq<byte>) returns (r: Option<Field>)
    requires Reading(buf, s)
    modifies buf
    ensures Reading(buf, s)
    ensures r.None? <==> old(buf.pos) + Size(p) > |s|
    ensures r.Some? ==> r.value == ReadField(p, s, old(buf.pos)) && buf.pos == old(buf.pos) + Size(p)
  {
    hide Decode, Holds;
    if !buf.CanRead(p) {
      return None;
    }
    ghost var at := buf.pos;
    assert buf.data[at..at + Size(p)] == s[at..at + Size(p)];
    var v := buf.Read(p, false);
    DecodeHolds(p, s[at..at + Size(p)]);
    r := Some(Field(p, v));
  }

  method ParseFields(buf: ByteBuffer, ps: seq<Primitive>, ghost s: seq<byte>) returns (r: Option<seq<Field>>)
    requires Reading(buf, s)
    modifies buf
    ensures Reading(buf, s)
    ensures r == Unpack(ps, s, old(buf.pos))
    ensures r.Some? ==> buf.pos == old(buf.pos) + TotalSize(ps) <= |s|
  {
    hide ReadField, Prepend, Size;
    var fields: seq<Field> := [];
    ghost var at, all := buf.pos, Unpack(ps, s, buf.pos);
    assert ps[0..] == ps;
    PrependNone(fields, all);
    for i := 0 to |ps|
      invariant Reading(buf, s)
      invariant all == Prepend(fields, Unpack(ps[i..], s, buf.pos))
      invariant buf.pos + TotalSize(ps[i..]) == at + TotalSize(ps)
    {
      assert ps[i..][1..] == ps[i + 1..];
      var f := ParseField(buf, ps[i], s);
      if f.None? {
        PrependNone(fields, None);
        return None;
      }
      PrependOne(fields, f.value, Unpack(ps[i + 1..], s, buf.pos));
      fields := fields + [f.value];
    }
    PrependNone(fields, None);
    r := Some(fields);
  }

  lemma {:induction false} ReadChannelsStep(reg: ChannelTable, s: seq<byte>, at: nat, n: nat)
    requires n > 0 && at + 2 <= |s|
    ensures var id := IntAt(UInt16, s, at);
            ReadChannels(reg, s, at, n) ==
            if id !in reg || reg[id].isStream then None
            else Prepend([(id, reg[id])], ReadChannels(reg, s, at + 2, n - 1))
  {
    hide ReadField, IntegerBounds, Prepend;
  }

  method ParseChannels(buf: ByteBuffer, reg: ChannelTable, n: nat, ghost s: seq<byte>)
    returns (r: Option<seq<(int, ChannelInfo)>>)
    requires Reading(buf, s)
    modifies buf
    ensures Reading(buf, s)
    ensures r == ReadChannels(reg, s, old(buf.pos), n)
    ensures r.Some? ==> |r.value| == n && buf.pos == old(buf.pos) + 2 * n <= |s|
  {
    hide ReadField, IntegerBounds, Prepend;
    var chans: seq<(int, ChannelInfo)> := [];
    ghost var at, all := buf.pos, ReadChannels(reg, s, buf.pos, n);
    PrependNone(chans, all);
    for i := 0 to n
      invariant Reading(buf, s) && buf.pos == at + 2 * i <= |s| && |chans| == i
      invariant all == Prepend(chans, ReadChannels(reg, s, buf.pos, n - i))
    {
      PrependNone(chans, None);
      var f := ParseField(buf, UInt16, s);
      if f.None? {
        return None;
      }
      ReadChannelsStep(reg, s, at + 2 * i, n - i);
      var id := f.value.value.i;
      if id !in reg || reg[id].isStream {
        return None;
      }
      PrependOne(chans, (id, reg[id]), ReadChannels(reg, s, buf.pos, n - i - 1));
      chans := chans + [(id, reg[id])];
    }
    PrependNone(chans, None);
    r := Some(chans);
  }

  method ParseElements(buf: ByteBuffer, t: FrameType, chans: seq<(int, ChannelInfo)>, ghost s: seq<byte>)
    returns (r: Option<seq<Element>>)
    requires Reading(buf, s)
    modifies buf
    ensures Reading(buf, s)
    ensures r == ReadElements(t, chans, s, old(buf.pos))
    ensures r.Some? ==> buf.pos == old(buf.pos) + ElementsSize(r.value) <= |s|
  {
    hide Unpack, Layout, TotalSize;
    var es: seq<Element> := [];
    ghost var at, all := buf.pos, ReadElements(t, chans, s, buf.pos);
    assert chans[0..] == chans;
    assert all.Some? ==> [] + all.value == all.value;
    for i := 0 to |chans|
      invariant Reading(buf, s) && buf.pos == at + ElementsSize(es) <= |s|
      invariant all == Prepend(es, ReadElements(t, chans[i..], s, buf.pos))
    {
      assert chans[i..][1..] == chans[i + 1..];
      var layout := Layout(t, chans[i].1.prim);
      var fields := ParseFields(buf, layout, s);
      if fields.None? {
        return None;
      }
      var e := Element(chans[i].0, chans[i].1, fields.value);
      PrependOne(es, e, ReadElements(t, chans[i + 1..], s, buf.pos));
      ElementsSizeAppend(es, e);
      es := es + [e];
    }
    assert es + [] == es;
    r := Some(es);
  }

  lemma {:induction false} ElementsSizeAppend(es: seq<Element>, e: Element)
    ensures ElementsSize(es + [e]) == ElementsSize(es) + TotalSize(Prims(e.fields))
  {
    if es == [] {
      assert ([] + [e])[1..] == [];
    } else {
      assert (es + [e])[1..] == es[1..] + [e];
      ElementsSizeAppend(es[1..], e);
    }
  }

  method ParseChannelFrame(buf: ByteBuffer, reg: ChannelTable, t: FrameType, size: nat, ghost s: seq<byte>)
    returns (r: Option<Body>)
    requires Reading(buf, s) && (t == DataFrame || t == EventFrame)
    modifies buf
    ensures Reading(buf, s)
    ensures ParseBody(reg, t, size, s, old(buf.pos)) == if r.None? then None else Some((r.value, buf.pos))
  {
    hide ReadChannels, ReadElements, Unpack, ReadField, ElementsSize, IntegerBounds;
    var chans := ParseChannels(buf, reg, size, s);
    if chans.None? {
      return None;
    }
    var es := ParseElements(buf, t, chans.value, s);
    if es.None? {
      return None;
    }
    r := Some(ElementsBody(t, es.value));
  }

  method ParseMessageFrame(buf: ByteBuffer, reg: ChannelTable, size: nat, ghost s: seq<byte>) returns (r: Option<Body>)
    requires Reading(buf, s)
    modifies buf
    ensures Reading(buf, s)
    ensures ParseBody(reg, MessageFrameType, size, s, old(buf.pos)) == if r.None? then None
            else Some((r.value, buf.pos))
  {
    hide Unpack, InfoOf, Prims, TotalSize, IntegerBounds, ReadChannels, ReadElements;
    MessagePrimsSize();
    var fs := ParseFields(buf, MESSAGE_PRIMS, s);
    if fs.None? || buf.Remaining() < size {
      return None;
    }
    assert buf.data[buf.pos..buf.pos + size] == s[buf.pos..buf.pos + size];
    var fragment := buf.ReadBytes(size, false);
    r := Some(MessageBody(InfoOf(fs.value), fragment));
  }

  method ParseStreamFrame(buf: ByteBuffer, reg: ChannelTable, size: nat, ghost s: seq<byte>) returns (r: Option<Body>)
    requires Reading(buf, s)
    modifies buf
    ensures Reading(buf, s)
    ensures ParseBody(reg, StreamFrame, size, s, old(buf.pos)) == if r.None? then None else Some((r.value, buf.pos))
  {
    hide ReadField, ReadChannels, ReadElements, Unpack, IntegerBounds;
    var id := ParseField(buf, UInt16, s);
    if id.None? || id.value.value.i !in reg || !reg[id.value.value.i].isStream {
      return None;
    }
    var index := ParseField(buf, UInt32, s);
    var channel := reg[id.value.value.i];
    var n := size * Size(channel.prim);
    if index.None? || buf.Remaining() < n {
      return None;
    }
    assert buf.data[buf.pos..buf.pos + n] == s[buf.pos..buf.pos + n];
    var data := buf.ReadBytes(n, false);
    r := Some(StreamBody(id.value.value.i, channel, index.value.value.i, data));
  }

  lemma {:induction false} MessagePrimsSize()
    ensures TotalSize(MESSAGE_PRIMS) == MESSAGE_HEAD
  {
    var ps := MESSAGE_PRIMS;
    assert ps[1..][1..] == ps[2..] && ps[2..][1..] == ps[3..] && ps[3..][1..] == ps[4..] && ps[4..][1..] == [];
    assert TotalSize(ps[4..]) == 2;
    assert TotalSize(ps[2..]) == 8;
  }

  method ParseHeader(buf: ByteBuffer, expectedId: Option<int>, ghost s: seq<byte>) returns (r: HeaderOutcome)
    requires Reading(buf, s) && buf.pos == 0
    modifies buf
    ensures Reading(buf, s)
    ensures r == ReadHeader(s, expectedId)
    ensures r.Header? ==> buf.pos == HEAD
  {
    hide ReadField;
    var appId := ParseField(buf, UInt16, s);
    if appId.None? {
      return BadHeader;
    }
    if expectedId.Some? && appId.value.value.i != expectedId.value {
      return OtherSender;
    }
    var code := ParseField(buf, UInt8, s);
    if code.None? {
      return BadHeader;
    }
    var t := FrameTypeOf(code.value.value.i);
    if t.None? {
      return BadHeader;
    }
    var timestamp := ParseField(buf, UInt64, s);
    if timestamp.None? {
      return BadHeader;
    }
    var count := ParseField(buf, UInt32, s);
    if count.None? {
      return BadHeader;
    }
    assert count.value.value.i == NatAt(UInt32, s, COUNT_AT);
    r := Header(FrameHeader(buf.size, appId.value.value.i, t.value, timestamp.value.value.i, count.value.value.i));
  }

  /** The parser for each type of frame. */
  method ParseFrameBody(buf: ByteBuffer, reg: ChannelTable, t: FrameType, size: nat, ghost s: seq<byte>)
    returns (r: Option<Body>)
    requires Reading(buf, s)
    modifies buf
    ensures Reading(buf, s)
    ensures ParseBody(reg, t, size, s, old(buf.pos)) == if r.None? then None else Some((r.value, buf.pos))
  {
    hide ReadChannels, ReadElements, Unpack;
    match t {
      case InvalidFrame =>
        buf.Advance(buf.Remaining(), false);
        r := Some(Skipped);
      case DataFrame | EventFrame =>
        r := ParseChannelFrame(buf, reg, t, size, s);
      case MessageFrameType =>
        r := ParseMessageFrame(buf, reg, size, s);
      case StreamFrame =>
        r := ParseStreamFrame(buf, reg, size, s);
    }
  }

  /** Parsing `size` bytes of `data`. */
  method ParseFrame(reg: ChannelTable, data: seq<byte>, size: nat, expectedId: Option<int>) returns (r: Outcome)
    requires size <= |data|
    ensures r == DecodeFrame(reg, data[..size], expectedId)
  {
    hide ReadField, ReadHeader, ParseBody, Crc.Crc32, IntegerBounds, Decode;
    ghost var s := data[..size];
    var buf := new ByteBuffer(data, false, size);
    var head := ParseHeader(buf, expectedId, s);
    if head.BadHeader? {
      return Raised;
    }
    if head.OtherSender? {
      return Refused;
    }
    var header := head.header;
    var body := ParseFrameBody(buf, reg, header.frameType, header.size, s);
    if body.None? {
      return Raised;
    }
    var crc := ParseField(buf, UInt32, s);
    if crc.None? {
      return Parsed(ParsedFrame(header, body.value, None));
    }
    buf.size := buf.pos;
    buf.size := buf.size - Size(UInt32);
    assert buf.data[..buf.size] == s[..buf.size];
    if crc.value.value.i != buf.Crc32() {
      return Refused;
    }
    return Parsed(ParsedFrame(header, body.value, Some(crc.value.value.i)));
  }
}
