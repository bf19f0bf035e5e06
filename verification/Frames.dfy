/**
 Frames: the layout of each kind of frame as bytes, and the objects that
 build them in place (vtelem/frame/__init__.py, vtelem/frame/channel.py,
 vtelem/frame/message.py).
 */
module Frames {
  import opened Primitives
  import opened ByteBuffers
  import opened Wire
  import Crc
  import Processor

  // ---------------------------------------------------------------------
  // Layout
  // ---------------------------------------------------------------------

  datatype FrameType = InvalidFrame | DataFrame | EventFrame | MessageFrameType | StreamFrame

  function TypeCode(t: FrameType): (n: nat)
    ensures n <= 4
  {
    match t
    case InvalidFrame => 0
    case DataFrame => 1
    case EventFrame => 2
    case MessageFrameType => 3
    case StreamFrame => 4
  }

  /** What every frame of one sender, type and instant starts with. */
  datatype RawOrigin = Origin(appId: int, frameType: FrameType, timestamp: int)

  type Origin = o: RawOrigin | IntegerCanHold(UInt16, o.appId) && IntegerCanHold(UInt64, o.timestamp)
    witness (UnitHeld(UInt16); UnitHeld(UInt64); Origin(0, InvalidFrame, 0))

  function CodeField(code: nat): Field
    requires code <= 255
  {
    Widths();
    Field(UInt8, Number(code))
  }

  function Stamp(o: Origin): seq<Field> {
    [Field(UInt16, Number(o.appId)), CodeField(TypeCode(o.frameType)), Field(UInt64, Number(o.timestamp))]
  }

  function CountField(n: int): Field
    requires IntegerCanHold(UInt32, n)
  {
    Field(UInt32, Number(n))
  }

  /** The element count follows the application id, the frame type and the timestamp. */
  const COUNT_AT: nat := 11

  const HEAD: nat := 15

  function Head(o: Origin, count: int): (s: seq<byte>)
    requires IntegerCanHold(UInt32, count)
    ensures |s| == HEAD
  {
    StampLength(o);
    Pack(Stamp(o)) + Bytes(CountField(count))
  }

  lemma {:induction false} StampLength(o: Origin)
    ensures |Pack(Stamp(o))| == COUNT_AT
  {
    hide Pack, Encode, IntegerBounds;
    var fs := Stamp(o);
    PackLength(fs);
    var ps := [UInt16, UInt8, UInt64];
    assert Prims(fs) == ps && ps[1..] == [UInt8, UInt64] && ps[1..][1..] == [UInt64];
  }

  function CrcSize(useCrc: bool): nat {
    if useCrc then 4 else 0
  }

  /** What a frame uses up before anything is added to it. */
  function Overhead(useCrc: bool): nat {
    HEAD + CrcSize(useCrc)
  }

  /** A frame's checksum; an arbitrary number is written where a wrong one is asked for. */
  function Checksum(payload: seq<byte>, writeCrc: bool, random: int): int {
    if writeCrc then Crc.Crc32(payload) else random
  }

  function Sealed(payload: seq<byte>, useCrc: bool, writeCrc: bool, random: int): (s: seq<byte>)
    requires IntegerCanHold(UInt32, random)
    ensures |s| == |payload| + CrcSize(useCrc)
  {
    if useCrc then payload + Bytes(CountField(Checksum(payload, writeCrc, random))) else payload
  }

  /** A channel identifier with what is sent for that channel. */
  datatype RawItem = Item(id: int, fields: seq<Field>)

  type Item = i: RawItem | IntegerCanHold(UInt16, i.id) witness (UnitHeld(UInt16); Item(0, []))

  function IdField(i: Item): Field {
    Field(UInt16, Number(i.id))
  }

  function IdFields(items: seq<Item>): seq<Field> {
    if items == [] then [] else [IdField(items[0])] + IdFields(items[1..])
  }

  function BodyFields(items: seq<Item>): seq<Field> {
    if items == [] then [] else items[0].fields + BodyFields(items[1..])
  }

  function ItemSize(i: Item): nat {
    Size(UInt16) + TotalSize(Prims(i.fields))
  }

  function ItemsSize(items: seq<Item>): nat {
    if items == [] then 0 else ItemSize(items[0]) + ItemsSize(items[1..])
  }

  /** All identifiers first, then all bodies in the same order. */
  function ChannelPayload(o: Origin, items: seq<Item>): seq<byte>
    requires IntegerCanHold(UInt32, |items|)
  {
    Head(o, |items|) + Pack(IdFields(items)) + Pack(BodyFields(items))
  }

  /** The fields that precede the bytes of a message fragment. */
  datatype RawMessageInfo = MessageInfo(mtype: int, number: int, crc: int, index: int, total: int)

  type MessageInfo = m: RawMessageInfo |
      && IntegerCanHold(UInt8, m.mtype) && IntegerCanHold(UInt16, m.number)
      && IntegerCanHold(UInt32, m.crc) && IntegerCanHold(UInt16, m.index) && IntegerCanHold(UInt16, m.total)
    witness (UnitHeld(UInt8); UnitHeld(UInt16); UnitHeld(UInt32); MessageInfo(0, 0, 0, 0, 0))

  const MESSAGE_PRIMS: seq<Primitive> := [UInt8, UInt16, UInt32, UInt16, UInt16]
  const MESSAGE_HEAD: nat := 11

  function InfoFields(m: MessageInfo): (fs: seq<Field>)
    ensures Prims(fs) == MESSAGE_PRIMS
  {
    [Field(UInt8, Number(m.mtype)), Field(UInt16, Number(m.number)), Field(UInt32, Number(m.crc)),
     Field(UInt16, Number(m.index)), Field(UInt16, Number(m.total))]
  }

  function MessagePayload(o: Origin, m: MessageInfo, fragment: seq<byte>): seq<byte>
    requires IntegerCanHold(UInt32, |fragment|)
  {
    Head(o, |fragment|) + Pack(InfoFields(m)) + fragment
  }

  lemma {:induction false} InfoLength(m: MessageInfo)
    ensures |Pack(InfoFields(m))| == MESSAGE_HEAD
  {
    PackLength(InfoFields(m));
    assert MESSAGE_PRIMS[1..] == [UInt16, UInt32, UInt16, UInt16];
  }

  lemma {:induction false} ItemsAppend(a: seq<Item>, b: seq<Item>)
    ensures IdFields(a + b) == IdFields(a) + IdFields(b)
    ensures BodyFields(a + b) == BodyFields(a) + BodyFields(b)
    ensures ItemsSize(a + b) == ItemsSize(a) + ItemsSize(b)
  {
    hide IdField, ItemSize, IntegerBounds;
    if a == [] {
      assert a + b == b;
    } else {
      assert (a + b)[1..] == a[1..] + b;
      ItemsAppend(a[1..], b);
      assert a[0].fields + (BodyFields(a[1..]) + BodyFields(b)) == BodyFields(a) + BodyFields(b);
      assert [IdField(a[0])] + (IdFields(a[1..]) + IdFields(b)) == IdFields(a) + IdFields(b);
    }
  }

  lemma {:induction false} ItemsOne(i: Item)
    ensures IdFields([i]) == [IdField(i)] && BodyFields([i]) == i.fields && ItemsSize([i]) == ItemSize(i)
  {
    assert [i][1..] == [];
    assert i.fields + [] == i.fields;
  }

  /** Writing at the end of a buffer's contents appends to them. */
  lemma {:induction false} OverlaidAtEnd(data: seq<byte>, size: nat, patch: seq<byte>)
    requires size <= |data|
    ensures Overlaid(data, size, patch)[..size + |patch|] == data[..size] + patch
  {
  }

  /** Writing a new count changes the count and nothing else. */
  lemma {:induction false} CountPatched(o: Origin, data: seq<byte>, before: int, after: int, body: seq<byte>)
    requires IntegerCanHold(UInt32, before) && IntegerCanHold(UInt32, after)
    requires |data| >= HEAD + |body| && data[..HEAD + |body|] == Head(o, before) + body
    ensures var r := Overlaid(data, COUNT_AT, Bytes(CountField(after)));
            |r| == |data| && r[..HEAD + |body|] == Head(o, after) + body
  {
    StampLength(o);
    hide Pack, Encode, Stamp, IntegerBounds;
    var stamp, old_, new_ := Pack(Stamp(o)), Bytes(CountField(before)), Bytes(CountField(after));
    var r := Overlaid(data, COUNT_AT, new_);
    var all := stamp + old_ + body;
    assert data[..HEAD + |body|] == all;
    assert data[..COUNT_AT] == all[..COUNT_AT] == stamp;
    assert data[HEAD..HEAD + |body|] == all[HEAD..] == body;
    assert r[..HEAD + |body|] == stamp + new_ + data[HEAD..HEAD + |body|];
  }

  // ---------------------------------------------------------------------
  // Frames under construction
  // ---------------------------------------------------------------------

  /** A field written at the end of a buffer. */
  method WriteField(buf: ByteBuffer, f: Field) returns (n: nat)
    requires buf.mutable && buf.Valid() && buf.pos == buf.size
    modifies buf
    ensures buf.Valid() && buf.pos == buf.size == old(buf.size) + n && n == Size(f.prim)
    ensures buf.Contents() == old(buf.Contents()) + Bytes(f)
  {
    hide Encode, IntegerBounds, Overlaid;
    OverlaidAtEnd(buf.data, buf.size, Bytes(f));
    n := buf.Write(f.prim, f.value);
  }

  method WriteFields(buf: ByteBuffer, fs: seq<Field>) returns (n: nat)
    requires buf.mutable && buf.Valid() && buf.pos == buf.size
    modifies buf
    ensures buf.Valid() && buf.pos == buf.size == old(buf.size) + n && n == |Pack(fs)|
    ensures buf.Contents() == old(buf.Contents()) + Pack(fs)
  {
    hide Bytes, Size;
    n := 0;
    for i := 0 to |fs|
      invariant buf.Valid() && buf.pos == buf.size == old(buf.size) + n && n == |Pack(fs[..i])|
      invariant buf.Contents() == old(buf.Contents()) + Pack(fs[..i])
    {
      assert fs[..i + 1] == fs[..i] + [fs[i]];
      PackAppend(fs[..i], [fs[i]]);
      PackOne(fs[i]);
      var k := WriteField(buf, fs[i]);
      n := n + k;
    }
    assert fs[..|fs|] == fs;
  }

  class Frame {
    const mtu: nat
    const buffer: ByteBuffer
    const useCrc: bool
    const overhead: nat
    const countPosition: nat
    var used: nat
    var countValue: nat
    var finalized: bool
    var initialized: bool

    /** The header's contents, the count written in it, and the bytes after it. */
    ghost const origin: Origin
    ghost var stamped: int
    ghost var body: seq<byte>

    ghost predicate Valid()
      reads this, buffer
    {
      && buffer.mutable && buffer.Valid() && buffer.pos == buffer.size
      && countPosition == COUNT_AT && overhead == Overhead(useCrc)
      && IntegerCanHold(UInt32, stamped)
      && (!finalized ==> buffer.Contents() == Head(origin, stamped) + body)
    }

    constructor (mtu: nat, origin: Origin, useCrc: bool)
      requires mtu > Overhead(useCrc)
      ensures Valid() && fresh(buffer)
      ensures this.mtu == mtu && this.origin == origin && this.useCrc == useCrc
      ensures stamped == 0 && body == [] && countValue == 0 && !finalized && !initialized
      ensures used == Overhead(useCrc)
    {
      hide Encode, IntegerBounds;
      this.mtu := mtu;
      this.useCrc := useCrc;
      this.origin := origin;
      this.finalized := false;
      this.initialized := false;
      this.countValue := 0;
      this.stamped := 0;
      this.body := [];
      UnitHeld(UInt32);
      StampLength(origin);
      var buf := new ByteBuffer(Zeros(mtu), true, 0);
      var n := WriteFields(buf, Stamp(origin));
      countPosition := buf.pos;
      var k := WriteField(buf, CountField(0));
      n := n + k + CrcSize(useCrc);
      buffer := buf;
      used := n;
      overhead := n;
    }

    method Write(f: Field)
      requires Valid() && !finalized
      modifies this`used, this`body, buffer
      ensures Valid()
      ensures body == old(body) + Bytes(f) && used == old(used) + Size(f.prim)
    {
      hide Head, Encode, IntegerBounds, Crc.Crc32;
      var n := WriteField(buffer, f);
      used := used + n;
      body := body + Bytes(f);
    }

    method IncrementCount(amount: nat)
      modifies this`countValue
      ensures countValue == old(countValue) + amount
    {
      countValue := countValue + amount;
    }

    /** The first half of finalizing: the count goes into its reserved place, the cursor stays. */
    method PatchCount()
      requires Valid() && !finalized && IntegerCanHold(UInt32, countValue)
      modifies this`stamped, buffer
      ensures Valid() && stamped == countValue
      ensures buffer.size == old(buffer.size) && |buffer.data| == |old(buffer.data)|
    {
      hide Head, Encode, IntegerBounds, Crc.Crc32;
      var resume := buffer.pos;
      assert buffer.Contents() == buffer.data[..HEAD + |body|];
      CountPatched(origin, buffer.data, stamped, countValue, body);
      buffer.SetPos(countPosition);
      var _ := buffer.Write(UInt32, Number(countValue));
      buffer.SetPos(resume);
      stamped := countValue;
    }

    /** Raw bytes after the fields. */
    method AppendBytes(bytes: seq<byte>) returns (n: nat)
      requires Valid() && !finalized
      modifies this`body, buffer
      ensures Valid() && n == |bytes| && body == old(body) + bytes
      ensures |buffer.data| == buffer.size == old(buffer.size) + n
    {
      hide Head;
      assert buffer.size >= HEAD;
      n := buffer.Append(bytes, |bytes|);
      body := body + bytes;
    }

    /** The frame's bytes behind their own length, as they go onto a stream; the length must fit its type. */
    method FrameWithSizeHeader(p: Primitive) returns (bytes: seq<byte>, size: nat)
      requires Valid() && finalized && |buffer.data| == used
      requires IsInteger(p) && IntegerCanHold(p, used)
      ensures |bytes| == size == Size(p) + used && bytes[Size(p)..] == buffer.data
      ensures Decode(p, bytes[..Size(p)]) == Number(used)
      ensures p == UInt32 ==> bytes == Processor.WithSizeHeader(buffer.data)
    {
      hide ToBigEndian, IntegerBounds, Decode;
      var length := Encode(p, Number(used));
      DecodeEncode(p, Number(used));
      bytes := length + buffer.data;
      size := used + Size(p);
      assert bytes[..Size(p)] == length;
    }

    /** The second half of finalizing: the checksum of everything so far. */
    method Seal(writeCrc: bool, random: int)
      requires Valid() && !finalized && initialized
      requires IntegerCanHold(UInt32, random)
      requires used == buffer.size + CrcSize(useCrc)
      requires |buffer.data| == buffer.size
      modifies this`finalized, buffer
      ensures Valid() && finalized
      ensures buffer.data == Sealed(Head(origin, stamped) + body, useCrc, writeCrc, random)
      ensures |buffer.data| == buffer.size == used
    {
      hide Head, Encode, IntegerBounds, Crc.Crc32;
      if useCrc {
        var sum := if writeCrc then buffer.Crc32() else random;
        assert buffer.data == buffer.Contents();
        var _ := buffer.Write(UInt32, Number(sum));
      } else {
        assert buffer.data == buffer.Contents();
      }
      finalized := true;
    }
  }

  /** The fields of one data element: the channel's value. */
  function DataItem(chanId: int, chanType: Primitive, value: Value): Item
    requires IntegerCanHold(UInt16, chanId) && Holds(chanType, value)
  {
    Item(chanId, [Field(chanType, value)])
  }

  /** A value and the time it was assigned, in the integer unit of the wire. */
  datatype Moment = Moment(value: Value, time: int)

  /** What a primitive that holds `kept` holds after `v` was assigned to it: a value it rejects is ignored. */
  function Assigned(p: Primitive, kept: Value, v: Value): (r: Value)
    requires Holds(p, kept)
    ensures Holds(p, r)
    ensures r == v <==> Holds(p, v)
  {
    var a := Accept(p, v);
    if a.Some? then a.value else kept
  }

  /** The fields of one event: previous value and time, then current value and time. */
  function EventItem(chanId: int, chanType: Primitive, prev: Moment, curr: Moment): Item
    requires IntegerCanHold(UInt16, chanId)
  {
    var prevValue := Assigned(chanType, DefaultValue(chanType), prev.value);
    var prevTime := Assigned(UInt64, DefaultValue(UInt64), Number(prev.time));
    Item(chanId, [Field(chanType, prevValue), Field(UInt64, prevTime),
                  Field(chanType, Assigned(chanType, prevValue, curr.value)),
                  Field(UInt64, Assigned(UInt64, prevTime, Number(curr.time)))])
  }

  /** An event is sent as it happened if and only if its values and times fit their types. */
  lemma {:induction false} EventItemFaithful(chanId: int, chanType: Primitive, prev: Moment, curr: Moment)
    requires IntegerCanHold(UInt16, chanId)
    ensures var fs := EventItem(chanId, chanType, prev, curr).fields;
            (fs[0].value == prev.value && fs[1].value == Number(prev.time) &&
             fs[2].value == curr.value && fs[3].value == Number(curr.time)) <==>
            (Holds(chanType, prev.value) && Holds(UInt64, Number(prev.time)) &&
             Holds(chanType, curr.value) && Holds(UInt64, Number(curr.time)))
  {
    hide IntegerBounds;
  }

  class ChannelFrame {
    const base: Frame
    const elemBuffer: ByteBuffer
    ghost var items: seq<Item>

    /** The objects a frame is made of. */
    ghost function Footprint(): set<object> {
      {this, base, base.buffer, elemBuffer}
    }

    ghost predicate Valid()
      reads this, base, base.buffer, elemBuffer
    {
      && base.Valid() && base.buffer != elemBuffer
      && elemBuffer.mutable && elemBuffer.Valid() && elemBuffer.pos == elemBuffer.size
      && base.used <= base.mtu
      && (!base.finalized ==>
            && base.stamped == 0 && base.countValue == |items|
            && base.body == Pack(IdFields(items))
            && elemBuffer.Contents() == Pack(BodyFields(items))
            && base.used == Overhead(base.useCrc) + ItemsSize(items)
            && base.used == base.buffer.size + elemBuffer.size + CrcSize(base.useCrc))
    }

    constructor (mtu: nat, origin: Origin, useCrc: bool)
      requires mtu > Overhead(useCrc)
      ensures Valid() && fresh(base) && fresh(base.buffer) && fresh(elemBuffer)
      ensures base.mtu == mtu && base.origin == origin && base.useCrc == useCrc
      ensures !base.finalized && items == []
    {
      base := new Frame(mtu, origin, useCrc);
      elemBuffer := new ByteBuffer(Zeros(mtu), true, 0);
      items := [];
    }

    /** The identifier goes into the frame's buffer, the fields into the element buffer. */
    method AppendItem(item: Item)
      requires Valid() && !base.finalized && base.used + ItemSize(item) <= base.mtu
      modifies this, base, base.buffer, elemBuffer
      ensures Valid() && !base.finalized && items == old(items) + [item]
    {
      hide Bytes, IntegerBounds, Head, Pack, IdFields, BodyFields, ItemsSize, Prims;
      base.Write(IdField(item));
      var n := WriteFields(elemBuffer, item.fields);
      base.used := base.used + n;
      base.IncrementCount(1);
      PackLength(item.fields);
      ItemAdded(items, item);
      items := items + [item];
    }

    /**
     An element is accepted if the frame is open and has room for it; otherwise
     nothing changes. A boolean is written to an integer channel as 0 or 1.
     */
    method Add(chanId: int, chanType: Primitive, chanVal: Value) returns (ok: bool)
      requires Valid() && IntegerCanHold(UInt16, chanId) && Accept(chanType, chanVal).Some?
      modifies this, base, base.buffer, elemBuffer
      ensures Valid() && base.finalized == old(base.finalized)
      ensures var item := DataItem(chanId, chanType, Accept(chanType, chanVal).value);
              && (ok <==> !old(base.finalized) && old(base.used) + ItemSize(item) <= base.mtu)
              && (ok ==> items == old(items) + [item])
      ensures !ok ==> unchanged(this, base, base.buffer, elemBuffer)
    {
      var spaceRequired := Size(UInt16) + Size(chanType);
      var stored := Accept(chanType, chanVal).value;
      ItemFits(DataItem(chanId, chanType, stored));
      if base.used + spaceRequired > base.mtu || base.finalized {
        return false;
      }
      AppendItem(DataItem(chanId, chanType, stored));
      ok := true;
    }

    method AddEvent(chanId: int, chanType: Primitive, prev: Moment, curr: Moment) returns (ok: bool)
      requires Valid() && IntegerCanHold(UInt16, chanId)
      modifies this, base, base.buffer, elemBuffer
      ensures Valid() && base.finalized == old(base.finalized)
      ensures var item := EventItem(chanId, chanType, prev, curr);
              && (ok <==> !old(base.finalized) && old(base.used) + ItemSize(item) <= base.mtu)
              && (ok ==> items == old(items) + [item])
      ensures !ok ==> unchanged(this, base, base.buffer, elemBuffer)
    {
      var spaceRequired := Size(UInt16) + 2 * Size(chanType) + 2 * Size(UInt64);
      ItemFits(EventItem(chanId, chanType, prev, curr));
      if base.used + spaceRequired > base.mtu || base.finalized {
        return false;
      }
      AppendItem(EventItem(chanId, chanType, prev, curr));
      ok := true;
    }

    /** The element buffer is spliced behind the identifiers. */
    method FinalizeHook()
      requires base.Valid() && !base.finalized && elemBuffer.Valid() && base.buffer != elemBuffer
      modifies base`initialized, base`body, base.buffer
      ensures base.Valid() && base.initialized && base.body == old(base.body) + elemBuffer.Contents()
      ensures |base.buffer.data| == base.buffer.size == old(base.buffer.size) + elemBuffer.size
    {
      hide Head;
      var _ := base.AppendBytes(elemBuffer.data[..elemBuffer.size]);
      base.initialized := true;
    }

    /** Finalizing leaves exactly the frame's bytes in the buffer, and is done once. */
    method Finalize(writeCrc: bool, random: int) returns (n: nat)
      requires Valid() && IntegerCanHold(UInt32, base.countValue) && IntegerCanHold(UInt32, random)
      modifies this, base, base.buffer
      ensures Valid() && base.finalized && n == base.used == old(base.used) && items == old(items)
      ensures old(base.finalized) ==> unchanged(this, base, base.buffer)
      ensures !old(base.finalized) ==>
                && |base.buffer.data| == n
                && base.buffer.data == Sealed(ChannelPayload(base.origin, items), base.useCrc, writeCrc, random)
    {
      hide Head, Crc.Crc32, Bytes, IntegerBounds, Pack, IdFields, BodyFields, ItemsSize;
      if base.finalized {
        return base.used;
      }
      base.PatchCount();
      FinalizeHook();
      assert base.body == Pack(IdFields(items)) + Pack(BodyFields(items));
      assert Head(base.origin, |items|) + (Pack(IdFields(items)) + Pack(BodyFields(items)))
             == ChannelPayload(base.origin, items);
      base.Seal(writeCrc, random);
      n := base.used;
    }
  }

  lemma {:induction false} ItemFits(item: Item)
    ensures |item.fields| == 1 ==> ItemSize(item) == Size(UInt16) + Size(item.fields[0].prim)
    ensures |item.fields| == 4 ==>
              ItemSize(item) == Size(UInt16) + Size(item.fields[0].prim) + Size(item.fields[1].prim)
                                + Size(item.fields[2].prim) + Size(item.fields[3].prim)
  {
    var ps := Prims(item.fields);
    if |ps| == 1 {
      assert TotalSize(ps[1..]) == 0;
    } else if |ps| == 4 {
      assert ps[1..][1..] == ps[2..] && ps[2..][1..] == ps[3..] && ps[3..][1..] == [];
      assert TotalSize(ps[3..]) == Size(ps[3]);
      assert TotalSize(ps[1..]) == Size(ps[1]) + TotalSize(ps[2..]);
    }
  }

  /** Adding an item appends its identifier to one buffer and its fields to the other. */
  lemma {:induction false} ItemAdded(items: seq<Item>, item: Item)
    ensures Pack(IdFields(items + [item])) == Pack(IdFields(items)) + Bytes(IdField(item))
    ensures Pack(BodyFields(items + [item])) == Pack(BodyFields(items)) + Pack(item.fields)
    ensures ItemsSize(items + [item]) == ItemsSize(items) + ItemSize(item)
  {
    hide Pack, Bytes, IdField;
    ItemsAppend(items, [item]);
    ItemsOne(item);
    PackAppend(IdFields(items), [IdField(item)]);
    PackOne(IdField(item));
    PackAppend(BodyFields(items), item.fields);
  }

  class MessageFrame {
    const base: Frame
    ghost var info: MessageInfo
    ghost var fragment: seq<byte>

    ghost predicate Valid()
      reads this, base, base.buffer
    {
      && base.Valid()
      && (!base.initialized && !base.finalized ==>
            base.stamped == 0 && base.body == [] && base.countValue == 0 && base.used == Overhead(base.useCrc))
      && (base.initialized && !base.finalized ==>
            && base.body == Pack(InfoFields(info)) + fragment && base.countValue == |fragment|
            && |base.buffer.data| == base.buffer.size
            && base.used == base.buffer.size + CrcSize(base.useCrc))
    }

    constructor (mtu: nat, origin: Origin, useCrc: bool)
      requires mtu > Overhead(useCrc)
      ensures Valid() && fresh(base) && fresh(base.buffer)
      ensures base.mtu == mtu && base.origin == origin && base.useCrc == useCrc
      ensures !base.initialized && !base.finalized
    {
      base := new Frame(mtu, origin, useCrc);
      fragment := [];
    }

    function FrameOverhead(): nat {
      MESSAGE_HEAD + base.overhead
    }

    method Initialize(info: MessageInfo, fragment: seq<byte>)
      requires Valid() && !base.initialized && !base.finalized
      modifies this, base, base.buffer
      ensures Valid() && base.initialized && !base.finalized
      ensures this.info == info && this.fragment == fragment
      ensures base.used == old(base.used) + MESSAGE_HEAD + |fragment|
    {
      hide Bytes, IntegerBounds, Head;
      var fs := InfoFields(info);
      for i := 0 to |fs|
        invariant base.Valid() && !base.finalized && !base.initialized && base.stamped == base.countValue == 0
        invariant base.body == Pack(fs[..i]) && base.used == old(base.used) + |Pack(fs[..i])|
        invariant base.used == base.buffer.size + CrcSize(base.useCrc)
      {
        assert fs[..i + 1] == fs[..i] + [fs[i]];
        PackAppend(fs[..i], [fs[i]]);
        PackOne(fs[i]);
        base.Write(fs[i]);
      }
      assert fs[..|fs|] == fs;
      InfoLength(info);
      var n := base.AppendBytes(fragment);
      base.used := base.used + n;
      base.IncrementCount(n);
      base.initialized := true;
      this.info := info;
      this.fragment := fragment;
    }

    method Finalize(writeCrc: bool, random: int) returns (n: nat)
      requires Valid() && base.initialized
      requires IntegerCanHold(UInt32, base.countValue) && IntegerCanHold(UInt32, random)
      modifies this, base, base.buffer
      ensures Valid() && base.finalized && n == base.used == old(base.used)
      ensures info == old(info) && fragment == old(fragment)
      ensures old(base.finalized) ==> unchanged(this, base, base.buffer)
      ensures !old(base.finalized) ==>
                && |base.buffer.data| == n
                && base.buffer.data
                    == Sealed(MessagePayload(base.origin, info, fragment), base.useCrc, writeCrc, random)
    {
      hide Head, Crc.Crc32, Bytes, IntegerBounds, Pack, InfoFields;
      if base.finalized {
        return base.used;
      }
      base.PatchCount();
      assert Head(base.origin, |fragment|) + (Pack(InfoFields(info)) + fragment)
             == MessagePayload(base.origin, info, fragment);
      base.Seal(writeCrc, random);
      n := base.used;
    }
  }
}
