/** Parsing undoes building, for every kind of frame that the library builds. */
module RoundTrips {
  import opened Wrappers
  import opened Primitives
  import opened Wire
  import opened Frames
  import opened Registries
  import opened Parsing
  import Crc

  /** The receiver accepts this sender. */
  predicate Expected(expectedId: Option<int>, o: Origin) {
    expectedId.None? || expectedId.value == o.appId
  }

  /** The receiver's registry knows an item's channel, with the types the sender used. */
  predicate Known(reg: ChannelTable, t: FrameType, item: Item) {
    item.id in reg && !reg[item.id].isStream && Prims(item.fields) == Layout(t, reg[item.id].prim)
  }

  predicate AllKnown(reg: ChannelTable, t: FrameType, items: seq<Item>) {
    forall i | i in items :: Known(reg, t, i)
  }

  function ChannelOf(reg: ChannelTable, item: Item): (int, ChannelInfo)
    requires item.id in reg
  {
    (item.id, reg[item.id])
  }

  function ChannelsOf(reg: ChannelTable, items: seq<Item>): seq<(int, ChannelInfo)>
    requires forall i | i in items :: i.id in reg
  {
    seq(|items|, k requires 0 <= k < |items| => ChannelOf(reg, items[k]))
  }

  function ElementOf(reg: ChannelTable, item: Item): Element
    requires item.id in reg
  {
    Element(item.id, reg[item.id], item.fields)
  }

  function ElementsOf(reg: ChannelTable, items: seq<Item>): seq<Element>
    requires forall i | i in items :: i.id in reg
  {
    seq(|items|, k requires 0 <= k < |items| => ElementOf(reg, items[k]))
  }

  // ---------------------------------------------------------------------
  // Header and footer
  // ---------------------------------------------------------------------

  /** The header fields are found where the parser looks for them. */
  lemma {:induction false} HeadReadBack(o: Origin, count: nat, rest: seq<byte>)
    requires IntegerCanHold(UInt32, count)
    ensures var s := Head(o, count) + rest;
            && IntAt(UInt16, s, 0) == o.appId && IntAt(UInt8, s, 2) == TypeCode(o.frameType)
            && IntAt(UInt64, s, 3) == o.timestamp && NatAt(UInt32, s, COUNT_AT) == count
  {
    hide ReadField, Encode, IntegerBounds;
    var s := Head(o, count) + rest;
    var fs := Stamp(o) + [CountField(count)];
    PackAppend(Stamp(o), [CountField(count)]);
    PackOne(CountField(count));
    assert Pack(fs) == Head(o, count);
    FieldReadBack(fs, 0, rest);
    FieldReadBack(fs, 1, rest);
    FieldReadBack(fs, 2, rest);
    FieldReadBack(fs, 3, rest);
    var ps := [UInt16, UInt8, UInt64, UInt32];
    assert Prims(fs) == ps;
    assert ps[..0] == [] && ps[..1] == [UInt16] && ps[..2] == [UInt16, UInt8] && ps[..3] == [UInt16, UInt8, UInt64];
    HeadOffsets();
  }

  lemma {:induction false} HeadOffsets()
    ensures TotalSize([]) == 0 && TotalSize([UInt16]) == 2 && TotalSize([UInt16, UInt8]) == 3
    ensures TotalSize([UInt16, UInt8, UInt64]) == COUNT_AT
  {
    assert [UInt16][1..] == [] && [UInt16, UInt8][1..] == [UInt8] && [UInt8][1..] == [];
    assert [UInt16, UInt8, UInt64][1..] == [UInt8, UInt64] && [UInt8, UInt64][1..] == [UInt64] && [UInt64][1..] == [];
    assert TotalSize([UInt64]) == 8;
  }

  /** Each of several fields is found after those before it. */
  lemma {:induction false} FieldReadBack(fs: seq<Field>, k: nat, rest: seq<byte>)
    requires k < |fs|
    ensures TotalSize(Prims(fs)[..k]) + Size(fs[k].prim) <= |Pack(fs)|
    ensures ReadField(fs[k].prim, Pack(fs) + rest, TotalSize(Prims(fs)[..k])) == fs[k]
  {
    hide Bytes, ReadField;
    var before, after := fs[..k], fs[k + 1..];
    assert fs == before + ([fs[k]] + after);
    PackAppend(before, [fs[k]] + after);
    PackAppend([fs[k]], after);
    PackOne(fs[k]);
    PackLength(before);
    assert Prims(before) == Prims(fs)[..k];
    ReadBack(fs[k], Pack(before), Pack(after) + rest);
    assert Pack(fs) + rest == Pack(before) + Bytes(fs[k]) + (Pack(after) + rest);
  }

  function HeaderOf(o: Origin, length: nat, size: nat): FrameHeader {
    FrameHeader(length, o.appId, o.frameType, o.timestamp, size)
  }

  /** A frame of our own is decoded as its body is, and refused if the sender or the checksum is wrong. */
  lemma {:induction false} SealedDecodes(reg: ChannelTable, o: Origin, count: nat, rest: seq<byte>, body: Body,
                                         useCrc: bool, writeCrc: bool, random: int, expectedId: Option<int>)
    requires IntegerCanHold(UInt32, count) && IntegerCanHold(UInt32, random)
    requires var s := Sealed(Head(o, count) + rest, useCrc, writeCrc, random);
             ParseBody(reg, o.frameType, count, s, HEAD) == Some((body, HEAD + |rest|))
    ensures var payload := Head(o, count) + rest;
            var s := Sealed(payload, useCrc, writeCrc, random);
            var sum := Checksum(payload, writeCrc, random);
            DecodeFrame(reg, s, expectedId) ==
            if !Expected(expectedId, o) || (useCrc && sum != Crc.Crc32(payload)) then Refused
            else Parsed(ParsedFrame(HeaderOf(o, |s|, count), body, if useCrc then Some(sum) else None))
  {
    hide ReadField, Encode, IntegerBounds, Crc.Crc32, ParseBody, Head;
    var payload := Head(o, count) + rest;
    var s := Sealed(payload, useCrc, writeCrc, random);
    var sum := Checksum(payload, writeCrc, random);
    var crc := if useCrc then Bytes(CountField(sum)) else [];
    assert s == Head(o, count) + (rest + crc);
    HeadReadBack(o, count, rest + crc);
    assert ReadHeader(s, expectedId) == if Expected(expectedId, o) then Header(HeaderOf(o, |s|, count))
           else OtherSender;
    if useCrc {
      ReadBack(CountField(sum), payload, []);
      assert s == payload + crc + [];
      assert s[..|payload|] == payload;
    }
  }

  // ---------------------------------------------------------------------
  // Data and event frames
  // ---------------------------------------------------------------------

  lemma {:induction false} ChannelsReadBack(reg: ChannelTable, t: FrameType, items: seq<Item>, before: seq<byte>,
                                            after: seq<byte>)
    requires AllKnown(reg, t, items)
    ensures ReadChannels(reg, before + Pack(IdFields(items)) + after, |before|, |items|) == Some(ChannelsOf(reg, items))
  {
    hide ReadField, Encode, IntegerBounds, Layout, Prims;
    if items != [] {
      var item, rest := items[0], items[1..];
      var id, ids := Bytes(IdField(item)), Pack(IdFields(rest));
      var s := before + Pack(IdFields(items)) + after;
      assert IdFields(items)[1..] == IdFields(rest);
      assert s == before + id + (ids + after);
      ReadBack(IdField(item), before, ids + after);
      assert s == (before + id) + ids + after;
      ChannelsReadBack(reg, t, rest, before + id, after);
      assert Known(reg, t, item);
      assert ChannelsOf(reg, items) == [ChannelOf(reg, item)] + ChannelsOf(reg, rest);
    }
  }

  lemma {:induction false} ElementReadBack(reg: ChannelTable, t: FrameType, item: Item, chans: seq<(int, ChannelInfo)>,
                                           s: seq<byte>, at: nat)
    requires Known(reg, t, item) && Unpack(Prims(item.fields), s, at) == Some(item.fields)
    ensures ReadElements(t, [ChannelOf(reg, item)] + chans, s, at)
            == Prepend([ElementOf(reg, item)], ReadElements(t, chans, s, at + TotalSize(Prims(item.fields))))
  {
    hide Unpack, Layout, Prims, TotalSize, IntegerBounds;
    assert ([ChannelOf(reg, item)] + chans)[1..] == chans;
  }

  lemma {:induction false} ElementsReadBack(reg: ChannelTable, t: FrameType, items: seq<Item>, before: seq<byte>,
                                            after: seq<byte>)
    requires AllKnown(reg, t, items)
    ensures ReadElements(t, ChannelsOf(reg, items), before + Pack(BodyFields(items)) + after, |before|)
            == Some(ElementsOf(reg, items))
  {
    hide Pack, Unpack, Layout, Prims, ReadElements;
    if items == [] {
      NoElements(t, before + Pack(BodyFields(items)) + after, |before|);
      assert ChannelsOf(reg, items) == [] && ElementsOf(reg, items) == [];
    } else {
      var item, rest := items[0], items[1..];
      var mine, others := Pack(item.fields), Pack(BodyFields(rest));
      var s := before + Pack(BodyFields(items)) + after;
      PackAppend(item.fields, BodyFields(rest));
      assert s == before + mine + (others + after);
      UnpackPack(item.fields, before, others + after);
      PackLength(item.fields);
      assert Known(reg, t, item) && forall i | i in rest :: Known(reg, t, i);
      ElementReadBack(reg, t, item, ChannelsOf(reg, rest), s, |before|);
      assert s == (before + mine) + others + after;
      ElementsReadBack(reg, t, rest, before + mine, after);
      assert ChannelsOf(reg, items) == [ChannelOf(reg, item)] + ChannelsOf(reg, rest);
      assert ElementsOf(reg, items) == [ElementOf(reg, item)] + ElementsOf(reg, rest);
    }
  }

  lemma {:induction false} NoElements(t: FrameType, s: seq<byte>, at: nat)
    ensures ReadElements(t, [], s, at) == Some([])
  {
  }

  lemma {:induction false} ElementsLength(reg: ChannelTable, items: seq<Item>)
    requires forall i | i in items :: i.id in reg
    ensures ElementsSize(ElementsOf(reg, items)) == |Pack(BodyFields(items))|
  {
    hide Bytes, Prims;
    if items != [] {
      assert ElementsOf(reg, items)[1..] == ElementsOf(reg, items[1..]);
      ElementsLength(reg, items[1..]);
      PackAppend(items[0].fields, BodyFields(items[1..]));
      PackLength(items[0].fields);
    }
  }

  lemma {:induction false} IdFieldsLength(items: seq<Item>)
    ensures |Pack(IdFields(items))| == 2 * |items|
  {
    hide Bytes;
    if items != [] {
      assert IdFields(items)[1..] == IdFields(items[1..]);
      IdFieldsLength(items[1..]);
    }
  }

  /** A data or event frame reads back with its header, its checksum and its elements in order. */
  lemma {:induction false} ChannelFrameRoundTrip(reg: ChannelTable, o: Origin, items: seq<Item>,
                                                 useCrc: bool, writeCrc: bool, random: int, expectedId: Option<int>)
    requires o.frameType == DataFrame || o.frameType == EventFrame
    requires IntegerCanHold(UInt32, |items|) && IntegerCanHold(UInt32, random)
    requires AllKnown(reg, o.frameType, items)
    ensures var payload := ChannelPayload(o, items);
            var s := Sealed(payload, useCrc, writeCrc, random);
            var sum := Checksum(payload, writeCrc, random);
            DecodeFrame(reg, s, expectedId) ==
            if !Expected(expectedId, o) || (useCrc && sum != Crc.Crc32(payload)) then Refused
            else Parsed(ParsedFrame(HeaderOf(o, |s|, |items|), ElementsBody(o.frameType, ElementsOf(reg, items)),
                                    if useCrc then Some(sum) else None))
  {
    hide Head, Encode, IntegerBounds, Crc.Crc32, ReadChannels, ReadElements, Pack, IdFields, BodyFields, Layout, Prims;
    var head, ids, bodies := Head(o, |items|), Pack(IdFields(items)), Pack(BodyFields(items));
    var payload := ChannelPayload(o, items);
    var s := Sealed(payload, useCrc, writeCrc, random);
    var crc := s[|payload|..];
    assert s == payload + crc;
    assert s == head + ids + (bodies + crc);
    ChannelsReadBack(reg, o.frameType, items, head, bodies + crc);
    IdFieldsLength(items);
    assert s == (head + ids) + bodies + crc;
    ElementsReadBack(reg, o.frameType, items, head + ids, crc);
    ElementsLength(reg, items);
    assert payload == head + (ids + bodies);
    SealedDecodes(reg, o, |items|, ids + bodies, ElementsBody(o.frameType, ElementsOf(reg, items)),
                  useCrc, writeCrc, random, expectedId);
  }

  // ---------------------------------------------------------------------
  // Message frames
  // ---------------------------------------------------------------------

  lemma {:induction false} InfoBack(info: MessageInfo)
    ensures InfoOf(InfoFields(info)) == info
  {
    hide IntegerBounds;
  }

  /** A message frame reads back with its header, its checksum, its fields and its fragment. */
  lemma {:induction false} MessageFrameRoundTrip(reg: ChannelTable, o: Origin, info: MessageInfo, fragment: seq<byte>,
                                                 useCrc: bool, writeCrc: bool, random: int, expectedId: Option<int>)
    requires o.frameType == MessageFrameType
    requires IntegerCanHold(UInt32, |fragment|) && IntegerCanHold(UInt32, random)
    ensures var payload := MessagePayload(o, info, fragment);
            var s := Sealed(payload, useCrc, writeCrc, random);
            var sum := Checksum(payload, writeCrc, random);
            DecodeFrame(reg, s, expectedId) ==
            if !Expected(expectedId, o) || (useCrc && sum != Crc.Crc32(payload)) then Refused
            else Parsed(ParsedFrame(HeaderOf(o, |s|, |fragment|), MessageBody(info, fragment),
                                    if useCrc then Some(sum) else None))
  {
    hide Head, Encode, IntegerBounds, Crc.Crc32, Pack, Unpack, Prims, ReadChannels, ReadElements, InfoOf, InfoFields;
    var head, fields := Head(o, |fragment|), Pack(InfoFields(info));
    var payload := MessagePayload(o, info, fragment);
    var s := Sealed(payload, useCrc, writeCrc, random);
    var crc := s[|payload|..];
    assert s == payload + crc;
    assert s == head + fields + (fragment + crc);
    InfoLength(info);
    UnpackPack(InfoFields(info), head, fragment + crc);
    InfoBack(info);
    assert s[HEAD + MESSAGE_HEAD..HEAD + MESSAGE_HEAD + |fragment|] == fragment;
    assert payload == head + (fields + fragment);
    SealedDecodes(reg, o, |fragment|, fields + fragment, MessageBody(info, fragment), useCrc, writeCrc, random,
        expectedId);
  }

  // ---------------------------------------------------------------------
  // Where things are
  // ---------------------------------------------------------------------

  /** A message frame's fields are at fixed places behind the header, and the fragment follows them. */
  lemma {:induction false} MessageLayout(o: Origin, m: MessageInfo, fragment: seq<byte>)
    requires IntegerCanHold(UInt32, |fragment|)
    ensures var s := MessagePayload(o, m, fragment);
            && |s| == HEAD + MESSAGE_HEAD + |fragment| && s[HEAD + MESSAGE_HEAD..] == fragment
            && IntAt(UInt8, s, HEAD) == m.mtype && IntAt(UInt16, s, HEAD + 1) == m.number
            && IntAt(UInt32, s, HEAD + 3) == m.crc && IntAt(UInt16, s, HEAD + 7) == m.index
            && IntAt(UInt16, s, HEAD + 9) == m.total
  {
    hide Head, ReadField, Encode, IntegerBounds, Pack, TotalSize;
    InfoLength(m);
    var s, fs := MessagePayload(o, m, fragment), InfoFields(m);
    InfoOffsets();
    FieldIn(Head(o, |fragment|), fs, 0, fragment);
    FieldIn(Head(o, |fragment|), fs, 1, fragment);
    FieldIn(Head(o, |fragment|), fs, 2, fragment);
    FieldIn(Head(o, |fragment|), fs, 3, fragment);
    FieldIn(Head(o, |fragment|), fs, 4, fragment);
  }

  lemma {:induction false} InfoOffsets()
    ensures var ps := MESSAGE_PRIMS;
            && TotalSize(ps[..0]) == 0 && TotalSize(ps[..1]) == 1 && TotalSize(ps[..2]) == 3
            && TotalSize(ps[..3]) == 7 && TotalSize(ps[..4]) == 9
  {
    var ps := MESSAGE_PRIMS;
    TotalSizeSnoc(ps[..0], ps[0]);
    TotalSizeSnoc(ps[..1], ps[1]);
    TotalSizeSnoc(ps[..2], ps[2]);
    TotalSizeSnoc(ps[..3], ps[3]);
    assert ps[..1] == ps[..0] + [ps[0]] && ps[..2] == ps[..1] + [ps[1]];
    assert ps[..3] == ps[..2] + [ps[2]] && ps[..4] == ps[..3] + [ps[3]];
  }

  lemma {:induction false} TotalSizeSnoc(ps: seq<Primitive>, p: Primitive)
    ensures TotalSize(ps + [p]) == TotalSize(ps) + Size(p)
  {
    if ps == [] {
      assert ([] + [p])[1..] == [];
    } else {
      assert (ps + [p])[1..] == ps[1..] + [p];
      TotalSizeSnoc(ps[1..], p);
    }
  }

  /** A field among others, behind a header. */
  lemma {:induction false} FieldIn(head: seq<byte>, fs: seq<Field>, k: nat, rest: seq<byte>)
    requires k < |fs|
    ensures var at := |head| + TotalSize(Prims(fs)[..k]);
            at + Size(fs[k].prim) <= |head + Pack(fs)| && ReadField(fs[k].prim, head + Pack(fs) + rest, at) == fs[k]
  {
    hide Pack, TotalSize;
    FieldReadBack(fs, k, rest);
    var at, n := TotalSize(Prims(fs)[..k]), Size(fs[k].prim);
    var s := head + Pack(fs) + rest;
    assert s[|head| + at..|head| + at + n] == (Pack(fs) + rest)[at..at + n];
  }

  /** The identifier of an item is at its place in the first array. */
  lemma {:induction false} IdentifierLayout(o: Origin, items: seq<Item>, j: nat)
    requires IntegerCanHold(UInt32, |items|) && j < |items|
    ensures var s := ChannelPayload(o, items);
            HEAD + 2 * |items| <= |s| && IntAt(UInt16, s, HEAD + 2 * j) == items[j].id
  {
    hide Head, ReadField, Encode, IntegerBounds, Pack, IdFields, BodyFields;
    var before, item, after := items[..j], items[j], items[j + 1..];
    assert items == before + ([item] + after);
    ItemsAppend(before, [item] + after);
    ItemsAppend([item], after);
    ItemsOne(item);
    IdFieldsLength(items);
    IdFieldsLength(before);
    PackAppend(IdFields(before), [IdField(item)] + IdFields(after));
    PackAppend([IdField(item)], IdFields(after));
    PackOne(IdField(item));
    var front, rest := Head(o, |items|) + Pack(IdFields(before)), Pack(IdFields(after)) + Pack(BodyFields(items));
    assert ChannelPayload(o, items) == front + Bytes(IdField(item)) + rest;
    ReadBack(IdField(item), front, rest);
  }

  /** The fields of an item are at their place in the second array, behind those of the items before it. */
  lemma {:induction false} FieldsLayout(o: Origin, items: seq<Item>, j: nat)
    requires IntegerCanHold(UInt32, |items|) && j < |items|
    ensures var at := HEAD + 2 * |items| + |Pack(BodyFields(items[..j]))|;
            Unpack(Prims(items[j].fields), ChannelPayload(o, items), at) == Some(items[j].fields)
  {
    hide Head, IntegerBounds, Pack, IdFields, BodyFields, Unpack, Prims;
    var before, item, after := items[..j], items[j], items[j + 1..];
    assert items == before + ([item] + after);
    ItemsAppend(before, [item] + after);
    ItemsAppend([item], after);
    ItemsOne(item);
    IdFieldsLength(items);
    PackAppend(BodyFields(before), item.fields + BodyFields(after));
    PackAppend(item.fields, BodyFields(after));
    var front := Head(o, |items|) + Pack(IdFields(items)) + Pack(BodyFields(before));
    assert ChannelPayload(o, items) == front + Pack(item.fields) + Pack(BodyFields(after));
    UnpackPack(item.fields, front, Pack(BodyFields(after)));
  }

  /** A frame's checksum is the last word, and of everything before it. */
  lemma {:induction false} FooterLayout(payload: seq<byte>, random: int)
    requires IntegerCanHold(UInt32, random)
    ensures var s := Sealed(payload, true, true, random);
            |s| == |payload| + 4 && s[..|payload|] == payload && IntAt(UInt32, s, |payload|) == Crc.Crc32(payload)
  {
    hide ReadField, Encode, IntegerBounds, Crc.Crc32;
    var sum := CountField(Crc.Crc32(payload));
    ReadBack(sum, payload, []);
    assert Sealed(payload, true, true, random) == payload + Bytes(sum) + [];
  }

  // ---------------------------------------------------------------------
  // Stream frames, which the library reads and does not build
  // ---------------------------------------------------------------------

  /** A stream frame by its documentation: a channel, an index and elements of the channel's type. */
  function StreamPayload(o: Origin, count: nat, id: int, index: nat, data: seq<byte>): seq<byte>
    requires IntegerCanHold(UInt32, count) && IntegerCanHold(UInt16, id) && IntegerCanHold(UInt32, index)
  {
    Head(o, count) + (Bytes(Field(UInt16, Number(id))) + (Bytes(CountField(index)) + data))
  }

  /** It is read back, if the channel is known and a stream; otherwise reading it raises. */
  lemma {:induction false} StreamFrameRoundTrip(reg: ChannelTable, o: Origin, count: nat, id: int, index: nat,
                                                data: seq<byte>, useCrc: bool, random: int, expectedId: Option<int>)
    requires o.frameType == StreamFrame && IntegerCanHold(UInt32, count) && IntegerCanHold(UInt32, random)
    requires IntegerCanHold(UInt16, id) && IntegerCanHold(UInt32, index)
    requires id in reg && reg[id].isStream ==> |data| == count * Size(reg[id].prim)
    ensures var payload := StreamPayload(o, count, id, index, data);
            var s := Sealed(payload, useCrc, true, random);
            DecodeFrame(reg, s, expectedId) ==
            if !Expected(expectedId, o) then Refused
            else if id !in reg || !reg[id].isStream then Raised
            else Parsed(ParsedFrame(HeaderOf(o, |s|, count), StreamBody(id, reg[id], index, data),
                                    if useCrc then Some(Crc.Crc32(payload)) else None))
  {
    hide Head, Bytes, IntegerBounds, Crc.Crc32, DecodeFrame, ParseBody, Size;
    var payload := StreamPayload(o, count, id, index, data);
    var s := Sealed(payload, useCrc, true, random);
    var rest := Bytes(Field(UInt16, Number(id))) + (Bytes(CountField(index)) + data);
    SealedIs(payload, useCrc, random);
    StreamBodyRead(reg, o, count, id, index, data, s[|payload|..]);
    if id in reg && reg[id].isStream {
      SealedDecodes(reg, o, count, rest, StreamBody(id, reg[id], index, data), useCrc, true, random, expectedId);
    } else {
      assert s == Head(o, count) + (rest + s[|payload|..]);
      UnreadableRaises(reg, o, count, rest + s[|payload|..], expectedId);
    }
  }

  lemma {:induction false} SealedIs(payload: seq<byte>, useCrc: bool, random: int)
    requires IntegerCanHold(UInt32, random)
    ensures var s := Sealed(payload, useCrc, true, random); s == payload + s[|payload|..]
  {
    hide IntegerBounds, Encode, Crc.Crc32;
  }

  /** A frame of our own whose body cannot be read. */
  lemma {:induction false} UnreadableRaises(reg: ChannelTable, o: Origin, count: nat, rest: seq<byte>,
                                            expectedId: Option<int>)
    requires IntegerCanHold(UInt32, count)
    requires ParseBody(reg, o.frameType, count, Head(o, count) + rest, HEAD) == None
    ensures DecodeFrame(reg, Head(o, count) + rest, expectedId) == if Expected(expectedId, o) then Raised else Refused
  {
    hide ReadField, Encode, IntegerBounds, ParseBody, Head;
    HeadReadBack(o, count, rest);
    FrameTypeCodes(o.frameType, TypeCode(o.frameType));
  }

  lemma {:induction false} StreamBodyRead(reg: ChannelTable, o: Origin, count: nat, id: int, index: nat,
                                          data: seq<byte>, crc: seq<byte>)
    requires IntegerCanHold(UInt32, count) && IntegerCanHold(UInt16, id) && IntegerCanHold(UInt32, index)
    requires id in reg && reg[id].isStream ==> |data| == count * Size(reg[id].prim)
    ensures var payload := StreamPayload(o, count, id, index, data);
            ParseBody(reg, StreamFrame, count, payload + crc, HEAD) ==
            if id !in reg || !reg[id].isStream then None
            else Some((StreamBody(id, reg[id], index, data), |payload|))
  {
    hide Head, Encode, IntegerBounds, ReadField, ReadChannels, ReadElements, Unpack;
    var f, g := Field(UInt16, Number(id)), CountField(index);
    var s := StreamPayload(o, count, id, index, data) + crc;
    assert s == Head(o, count) + Bytes(f) + (Bytes(g) + data + crc);
    ReadBack(f, Head(o, count), Bytes(g) + data + crc);
    assert s == (Head(o, count) + Bytes(f)) + Bytes(g) + (data + crc);
    ReadBack(g, Head(o, count) + Bytes(f), data + crc);
    assert s[HEAD + 6..HEAD + 6 + |data|] == data;
  }

  // ---------------------------------------------------------------------
  // Any bytes at all
  // ---------------------------------------------------------------------

  /** The sender of these bytes is not the one that is expected. */
  predicate FromAnother(s: seq<byte>, expectedId: Option<int>) {
    |s| >= 2 && expectedId.Some? && IntAt(UInt16, s, 0) != expectedId.value
  }

  /** These bytes have a header of a known type, and its body. */
  predicate Readable(reg: ChannelTable, s: seq<byte>) {
    && |s| >= HEAD && IntAt(UInt8, s, 2) <= 4
    && ParseBody(reg, FrameTypeOf(IntAt(UInt8, s, 2)).value, NatAt(UInt32, s, COUNT_AT), s, HEAD).Some?
  }

  /** Whatever the bytes: when they raise, when they are refused, and when they are taken. */
  lemma {:induction false} OutcomeExactly(reg: ChannelTable, s: seq<byte>, expectedId: Option<int>)
    ensures DecodeFrame(reg, s, expectedId) == Raised <==> !FromAnother(s, expectedId) && !Readable(reg, s)
    ensures DecodeFrame(reg, s, expectedId) == Refused <==>
            FromAnother(s, expectedId) ||
            (Readable(reg, s) &&
             var end := ParseBody(reg, FrameTypeOf(IntAt(UInt8, s, 2)).value, NatAt(UInt32, s, COUNT_AT), s,
                 HEAD).value.1;
             end + 4 <= |s| && IntAt(UInt32, s, end) != Crc.Crc32(s[..end]))
  {
    hide ParseBody, ReadField, IntegerBounds, Crc.Crc32;
    if |s| >= HEAD {
      CodeAt(s, 2);
    }
  }

  lemma {:induction false} CodeAt(s: seq<byte>, at: nat)
    requires at < |s|
    ensures 0 <= IntAt(UInt8, s, at) <= 255
  {
    hide ReadField;
    PrimitiveTable();
  }
}
