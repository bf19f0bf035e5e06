/**
 What a receiver makes of a data or event frame of which a byte was changed on
 the way. Here a changed identifier can change how long the elements are, and so
 move the place where the checksum is looked for.
 */
module ChannelCorruption {
  import opened Wrappers
  import opened Primitives
  import opened Wire
  import opened Frames
  import opened Registries
  import opened Parsing
  import opened RoundTrips
  import opened Corruption
  import Crc

  // ---------------------------------------------------------------------
  // Where a body ends
  // ---------------------------------------------------------------------

  /** How many bytes an element of a channel takes. */
  function ElementSize(t: FrameType, channel: ChannelInfo): nat {
    TotalSize(Layout(t, channel.prim))
  }

  function ChannelsSize(t: FrameType, chans: seq<(int, ChannelInfo)>): nat {
    if chans == [] then 0 else ElementSize(t, chans[0].1) + ChannelsSize(t, chans[1..])
  }

  lemma {:induction false} UnpackExactly(ps: seq<Primitive>, s: seq<byte>, at: nat)
    ensures Unpack(ps, s, at).Some? <==> at + TotalSize(ps) <= |s|
  {
    hide Unpack;
    if at + TotalSize(ps) <= |s| {
      PackUnpack(ps, s, at);
    }
  }

  /** Elements can be read if and only if there are bytes enough for them. */
  lemma {:induction false} ReadElementsExactly(t: FrameType, chans: seq<(int, ChannelInfo)>, s: seq<byte>, at: nat)
    requires at <= |s|
    ensures var es := ReadElements(t, chans, s, at);
            && (es.Some? <==> at + ChannelsSize(t, chans) <= |s|)
            && (es.Some? ==> ElementsSize(es.value) == ChannelsSize(t, chans))
    decreases |chans|
  {
    hide Unpack, Layout, TotalSize;
    if chans != [] {
      var layout := Layout(t, chans[0].1.prim);
      UnpackExactly(layout, s, at);
      if at + TotalSize(layout) <= |s| {
        var fields := Unpack(layout, s, at).value;
        ReadElementsExactly(t, chans[1..], s, at + TotalSize(layout));
        var rest := ReadElements(t, chans[1..], s, at + TotalSize(layout));
        if rest.Some? {
          assert ([Element(chans[0].0, chans[0].1, fields)] + rest.value)[1..] == rest.value;
        }
      }
    }
  }

  lemma {:induction false} ReadChannelsFit(reg: ChannelTable, s: seq<byte>, at: nat, n: nat)
    requires at <= |s|
    ensures var chans := ReadChannels(reg, s, at, n);
            chans.Some? ==> |chans.value| == n && at + 2 * n <= |s|
    decreases n
  {
    hide ReadField, IntegerBounds;
    if n > 0 && at + 2 <= |s| {
      ReadChannelsFit(reg, s, at + 2, n - 1);
    }
  }

  /** A body is found if and only if its channels are known and their elements fit; it ends after them. */
  lemma {:induction false} BodyExactly(reg: ChannelTable, t: FrameType, size: nat, s: seq<byte>)
    requires (t == DataFrame || t == EventFrame) && |s| >= HEAD
    ensures var chans, body := ReadChannels(reg, s, HEAD, size), ParseBody(reg, t, size, s, HEAD);
            && (body.Some? <==> chans.Some? && HEAD + 2 * size + ChannelsSize(t, chans.value) <= |s|)
            && (body.Some? ==> body.value.1 == HEAD + 2 * size + ChannelsSize(t, chans.value))
  {
    hide ReadChannels, ReadElements, ElementsSize, ChannelsSize, Unpack, IntegerBounds, ReadStream;
    ReadChannelsFit(reg, s, HEAD, size);
    var chans := ReadChannels(reg, s, HEAD, size);
    if chans.Some? {
      ReadElementsExactly(t, chans.value, s, HEAD + 2 * size);
    }
  }

  // ---------------------------------------------------------------------
  // A changed identifier
  // ---------------------------------------------------------------------

  /** The channels read depend on the identifiers only. */
  lemma {:induction false} ReadChannelsAgree(reg: ChannelTable, s: seq<byte>, t: seq<byte>, at: nat, n: nat)
    requires |s| == |t| && at + 2 * n <= |s| && forall k :: at <= k < at + 2 * n ==> s[k] == t[k]
    ensures ReadChannels(reg, s, at, n) == ReadChannels(reg, t, at, n)
    decreases n
  {
    hide ReadField, IntegerBounds, Prepend;
    if n > 0 {
      SameField(s, t, UInt16, at);
      ReadChannelsAgree(reg, s, t, at + 2, n - 1);
    }
  }

  /** Changing one identifier changes one channel, or makes it one that cannot be read. */
  lemma {:induction false} ReadChannelsChanged(reg: ChannelTable, s: seq<byte>, t: seq<byte>, at: nat, n: nat, j: nat)
    requires |s| == |t| && j < n && at + 2 * n <= |s| && ReadChannels(reg, s, at, n).Some?
    requires forall k :: at <= k < at + 2 * n && !(at + 2 * j <= k < at + 2 * j + 2) ==> s[k] == t[k]
    ensures |ReadChannels(reg, s, at, n).value| == n
    ensures var chans, id := ReadChannels(reg, s, at, n).value, IntAt(UInt16, t, at + 2 * j);
            ReadChannels(reg, t, at, n) ==
            if id !in reg || reg[id].isStream then None else Some(chans[j := (id, reg[id])])
    decreases n
  {
    hide ReadField, IntegerBounds;
    ReadChannelsFit(reg, s, at, n);
    var rest := ReadChannels(reg, s, at + 2, n - 1);
    var first := (IntAt(UInt16, s, at), reg[IntAt(UInt16, s, at)]);
    assert ReadChannels(reg, s, at, n) == Some([first] + rest.value);
    if j == 0 {
      ReadChannelsAgree(reg, s, t, at + 2, n - 1);
      var id := IntAt(UInt16, t, at);
      if id in reg {
        assert ([first] + rest.value)[0 := (id, reg[id])] == [(id, reg[id])] + rest.value;
      }
    } else {
      SameField(s, t, UInt16, at);
      ReadChannelsChanged(reg, s, t, at + 2, n - 1, j - 1);
      var id := IntAt(UInt16, t, at + 2 * j);
      if id in reg {
        assert ([first] + rest.value)[j := (id, reg[id])] == [first] + rest.value[j - 1 := (id, reg[id])];
      }
    }
  }

  lemma {:induction false} ChannelsSizeChanged(t: FrameType, chans: seq<(int, ChannelInfo)>, j: nat,
                                               c: (int, ChannelInfo))
    requires j < |chans|
    ensures ChannelsSize(t, chans[j := c]) + ElementSize(t, chans[j].1) == ChannelsSize(t, chans) + ElementSize(t, c.1)
    decreases |chans|
  {
    hide ElementSize;
    if j == 0 {
      assert chans[j := c][1..] == chans[1..];
    } else {
      assert chans[j := c][1..] == chans[1..][j - 1 := c];
      ChannelsSizeChanged(t, chans[1..], j - 1, c);
    }
  }

  // ---------------------------------------------------------------------
  // The frame
  // ---------------------------------------------------------------------

  /** The frame of some items with its checksum. */
  function ChannelFrameBytes(o: Origin, items: seq<Item>): (s: seq<byte>)
    requires IntegerCanHold(UInt32, |items|)
    ensures |s| == |ChannelPayload(o, items)| + 4
  {
    WithCrc(ChannelPayload(o, items))
  }

  predicate IsChannelFrame(reg: ChannelTable, o: Origin, items: seq<Item>) {
    && (o.frameType == DataFrame || o.frameType == EventFrame)
    && IntegerCanHold(UInt32, |items|) && AllKnown(reg, o.frameType, items)
  }

  lemma {:induction false} FrameParts(reg: ChannelTable, o: Origin, items: seq<Item>)
    requires IsChannelFrame(reg, o, items)
    ensures var s, n := ChannelFrameBytes(o, items), |items|;
            && HEAD + 2 * n + 4 <= |s| && s == Head(o, n) + s[HEAD..]
            && ReadChannels(reg, s, HEAD, n) == Some(ChannelsOf(reg, items))
            && |s| - 4 == HEAD + 2 * n + ChannelsSize(o.frameType, ChannelsOf(reg, items))
  {
    hide Head, Encode, IntegerBounds, Crc.Crc32, ReadChannels, Pack, IdFields, BodyFields, Layout, Prims;
    var head, ids, bodies := Head(o, |items|), Pack(IdFields(items)), Pack(BodyFields(items));
    var s, payload := ChannelFrameBytes(o, items), ChannelPayload(o, items);
    var crc := s[|payload|..];
    assert s == head + ids + (bodies + crc);
    ChannelsReadBack(reg, o.frameType, items, head, bodies + crc);
    IdFieldsLength(items);
    ItemsLength(reg, o.frameType, items);
  }

  lemma {:induction false} ItemsLength(reg: ChannelTable, t: FrameType, items: seq<Item>)
    requires AllKnown(reg, t, items)
    ensures ChannelsSize(t, ChannelsOf(reg, items)) == |Pack(BodyFields(items))|
  {
    hide Bytes, Prims, Layout, Pack, TotalSize;
    if items == [] {
      assert ChannelsOf(reg, items) == [] && Pack([]) == [] by { UnpackNothing([], 0); }
    } else {
      assert Known(reg, t, items[0]) && forall i | i in items[1..] :: Known(reg, t, i);
      assert ChannelsOf(reg, items)[1..] == ChannelsOf(reg, items[1..]);
      ItemsLength(reg, t, items[1..]);
      PackAppend(items[0].fields, BodyFields(items[1..]));
      PackLength(items[0].fields);
    }
  }

  /** What decides about any bytes. */
  lemma {:induction false} TakenExactly(reg: ChannelTable, s: seq<byte>, expectedId: Option<int>)
    ensures var h := ReadHeader(s, expectedId);
            DecodeFrame(reg, s, expectedId).Parsed? <==>
            h.Header? && PassesAs(reg, h.header.frameType, h.header.size, s)
  {
    hide ParseBody, ReadHeader, IntAt, Crc.Crc32, IntegerBounds;
  }

  /** The header of a frame with one changed byte. */
  lemma {:induction false} ChangedHeader(reg: ChannelTable, o: Origin, items: seq<Item>, i: nat, v: byte)
    requires IsChannelFrame(reg, o, items) && i < |ChannelFrameBytes(o, items)|
    ensures var t := ChannelFrameBytes(o, items)[i := v];
            && |t| >= HEAD
            && (i >= 2 ==> IntAt(UInt16, t, 0) == o.appId)
            && IntAt(UInt8, t, TYPE_AT) == (if i == TYPE_AT then v as int else TypeCode(o.frameType))
            && (!(COUNT_AT <= i < HEAD) ==> NatAt(UInt32, t, COUNT_AT) == |items|)
  {
    hide Head, ReadField, Encode, IntegerBounds, ChannelFrameBytes, ReadChannels, ChannelsSize;
    var s := ChannelFrameBytes(o, items);
    var t := s[i := v];
    FrameParts(reg, o, items);
    HeadReadBack(o, |items|, s[HEAD..]);
    if i >= 2 {
      SameField(s, t, UInt16, 0);
    }
    if i == TYPE_AT {
      ByteRead(t, TYPE_AT);
    } else {
      SameField(s, t, UInt8, TYPE_AT);
    }
    if !(COUNT_AT <= i < HEAD) {
      SameField(s, t, UInt32, COUNT_AT);
    }
  }

  // ---------------------------------------------------------------------
  // Exactly what goes unnoticed
  // ---------------------------------------------------------------------

  /**
   Item `j` is taken for one of another channel. Its element has another size, so
   that the body of `t` ends elsewhere, where no checksum fits or one happens to be.
   */
  predicate EndsElsewhere(reg: ChannelTable, o: Origin, items: seq<Item>, t: seq<byte>, j: nat, id: int)
    requires j < |items| && items[j].id in reg && |t| >= 4
  {
    id in reg && !reg[id].isStream &&
    var was, now := ElementSize(o.frameType, reg[items[j].id]), ElementSize(o.frameType, reg[id]);
    var end := |t| - 4 - was + now;
    was != now && 0 <= end <= |t| && (end + 4 > |t| || ChecksumAt(t, end))
  }

  lemma {:induction false} ItemKnown(reg: ChannelTable, o: Origin, items: seq<Item>, j: nat)
    requires IsChannelFrame(reg, o, items) && j < |items|
    ensures Known(reg, o.frameType, items[j])
  {
    assert items[j] in items;
  }

  /**
   One changed byte that a receiver does not notice: the type or the size becomes
   one that these bytes pass for; or an identifier becomes that of a channel of
   another size, and the elements then end too near the end of the frame for a
   checksum, or where the frame happens to hold the checksum of everything before.
   */
  predicate Unseen(reg: ChannelTable, o: Origin, items: seq<Item>, i: nat, v: byte)
    requires IsChannelFrame(reg, o, items) && i < |ChannelFrameBytes(o, items)|
    requires HEAD + 2 * |items| <= |ChannelFrameBytes(o, items)|
  {
    var t := ChannelFrameBytes(o, items)[i := v];
    if i == TYPE_AT then
      v <= 4 && PassesAs(reg, FrameTypeOf(v as int).value, |items|, t)
    else if COUNT_AT <= i < HEAD then
      PassesAs(reg, o.frameType, NatAt(UInt32, t, COUNT_AT), t)
    else if HEAD <= i < HEAD + 2 * |items| then
      var j := (i - HEAD) / 2;
      ItemKnown(reg, o, items, j);
      EndsElsewhere(reg, o, items, t, j, IntAt(UInt16, t, HEAD + 2 * j))
    else false
  }

  lemma {:induction false} ChangedChecksum(o: Origin, items: seq<Item>, i: nat, v: byte)
    requires IntegerCanHold(UInt32, |items|)
    requires i < |ChannelFrameBytes(o, items)| && v != ChannelFrameBytes(o, items)[i]
    ensures !ChecksumAt(ChannelFrameBytes(o, items)[i := v], |ChannelPayload(o, items)|)
  {
    hide ChecksumAt, WithCrc, ChannelPayload, IntegerBounds;
    ChecksumFails(ChannelPayload(o, items), i, v);
  }

  /** Outside the header's type and size and the identifiers, the body ends where it did. */
  lemma {:induction false} SameEnd(reg: ChannelTable, o: Origin, items: seq<Item>, i: nat, v: byte)
    requires IsChannelFrame(reg, o, items) && i < |ChannelFrameBytes(o, items)| && v != ChannelFrameBytes(o, items)[i]
    requires !(HEAD <= i < HEAD + 2 * |items|)
    ensures |ChannelFrameBytes(o, items)| >= HEAD
    ensures !PassesAs(reg, o.frameType, |items|, ChannelFrameBytes(o, items)[i := v])
  {
    hide Head, ReadField, IntegerBounds, ReadChannels, ChannelsSize, ParseBody, ChannelPayload, ChecksumAt, AllKnown,
      ChannelsOf,
      ChannelFrameBytes;
    var s := ChannelFrameBytes(o, items);
    var t := s[i := v];
    FrameParts(reg, o, items);
    ReadChannelsAgree(reg, s, t, HEAD, |items|);
    BodyExactly(reg, o.frameType, |items|, t);
    ChangedChecksum(o, items, i, v);
  }

  /** A changed identifier: another channel, whose elements may be longer or shorter. */
  lemma {:induction false} IdentifierChanged(reg: ChannelTable, o: Origin, items: seq<Item>, i: nat, v: byte)
    requires IsChannelFrame(reg, o, items) && i < |ChannelFrameBytes(o, items)| && v != ChannelFrameBytes(o, items)[i]
    requires HEAD <= i < HEAD + 2 * |items| <= |ChannelFrameBytes(o, items)|
    ensures PassesAs(reg, o.frameType, |items|, ChannelFrameBytes(o, items)[i := v]) <==> Unseen(reg, o, items, i, v)
  {
    hide Head, ReadField, IntegerBounds, ReadChannels, ChannelsSize, ParseBody, ChannelPayload, WithCrc, ChecksumAt,
      ElementSize,
      Layout, Prims, ChannelFrameBytes;
    var s, n, j := ChannelFrameBytes(o, items), |items|, (i - HEAD) / 2;
    var t := s[i := v];
    var id := IntAt(UInt16, t, HEAD + 2 * j);
    FrameParts(reg, o, items);
    ReadChannelsChanged(reg, s, t, HEAD, n, j);
    BodyExactly(reg, o.frameType, n, t);
    ChangedChecksum(o, items, i, v);
    ItemKnown(reg, o, items, j);
    if id in reg && !reg[id].isStream {
      ChannelsSizeChanged(o.frameType, ChannelsOf(reg, items), j, (id, reg[id]));
    }
  }

  /** A data or event frame with one changed byte is taken if and only if the change is one of those. */
  lemma {:induction false} ChannelNoticedExactly(reg: ChannelTable, o: Origin, items: seq<Item>, i: nat, v: byte,
                                                 expectedId: Option<int>)
    requires IsChannelFrame(reg, o, items) && i < |ChannelFrameBytes(o, items)| && v != ChannelFrameBytes(o, items)[i]
    ensures HEAD + 2 * |items| <= |ChannelFrameBytes(o, items)|
    ensures DecodeFrame(reg, ChannelFrameBytes(o, items)[i := v], expectedId).Parsed? <==>
            Expected(expectedId, o) && Unseen(reg, o, items, i, v)
  {
    hide Head, ReadField, IntegerBounds, ReadChannels, ChannelsSize, PassesAs, ChannelFrameBytes, DecodeFrame, AllKnown,
      EndsElsewhere;
    var t := ChannelFrameBytes(o, items)[i := v];
    FrameParts(reg, o, items);
    ChangedHeader(reg, o, items, i, v);
    TakenExactly(reg, t, expectedId);
    if HEAD <= i < HEAD + 2 * |items| {
      IdentifierChanged(reg, o, items, i, v);
    } else if i != TYPE_AT && !(COUNT_AT <= i < HEAD) {
      SameEnd(reg, o, items, i, v);
    }
  }

  // ---------------------------------------------------------------------
  // An identifier that goes unnoticed
  // ---------------------------------------------------------------------

  const NARROW := ChannelInfo("narrow", UInt8, false)
  const WIDE := ChannelInfo("wide", UInt32, false)
  const TABLE: ChannelTable := map[0 := NARROW, 1 := WIDE]

  lemma {:induction false} ZeroIdentifier(item: Item)
    requires item.id == 0
    ensures Bytes(IdField(item)) == [0, 0]
  {
    hide IntegerBounds;
    assert ToBigEndian(0, 1) == ToBigEndian(0, 0) + [0];
    assert ToBigEndian(0, 2) == [0, 0];
  }

  lemma {:induction false} FirstBytes(o: Origin, item: Item)
    requires IntegerCanHold(UInt32, 1)
    ensures var s := ChannelFrameBytes(o, [item]); |s| >= HEAD + 2 && s[HEAD..HEAD + 2] == Bytes(IdField(item))
  {
    hide Head, IntegerBounds, Crc.Crc32, Pack, IdFields, BodyFields, Prims, Encode;
    ItemsOne(item);
    PackOne(IdField(item));
  }

  lemma {:induction false} FirstIdentifier(o: Origin, item: Item)
    requires item.id == 0
    ensures IntegerCanHold(UInt32, 1)
    ensures var s := ChannelFrameBytes(o, [item]); |s| >= HEAD + 2 && s[HEAD] == 0 && s[HEAD + 1] == 0
  {
    UnitHeld(UInt32);
    hide ChannelFrameBytes, IntegerBounds, Bytes, IdField;
    ZeroIdentifier(item);
    FirstBytes(o, item);
    var s := ChannelFrameBytes(o, [item]);
    assert s[HEAD] == s[HEAD..HEAD + 2][0] && s[HEAD + 1] == s[HEAD..HEAD + 2][1];
  }

  /** A byte sent for a narrow channel and taken for a wide one: the checksum becomes part of the value. */
  lemma {:induction false} WiderChannelAccepted(o: Origin, item: Item)
    requires o.frameType == DataFrame && item.id == 0 && Prims(item.fields) == [UInt8]
    ensures IntegerCanHold(UInt32, 1) && |ChannelFrameBytes(o, [item])| > HEAD + 1
    ensures DecodeFrame(TABLE, ChannelFrameBytes(o, [item])[HEAD + 1 := 1], None).Parsed?
  {
    hide Head, IntegerBounds, ReadField, DecodeFrame, PassesAs, ChannelFrameBytes, ChecksumAt;
    FirstIdentifier(o, item);
    var s := ChannelFrameBytes(o, [item]);
    var t := s[HEAD + 1 := 1];
    assert IsChannelFrame(TABLE, o, [item]);
    OneRead(t, HEAD);
    ElementSizes();
    ChannelNoticedExactly(TABLE, o, [item], HEAD + 1, 1, None);
    assert EndsElsewhere(TABLE, o, [item], t, 0, 1);
  }

  lemma {:induction false} OneRead(s: seq<byte>, at: nat)
    requires at + 2 <= |s| && s[at] == 0 && s[at + 1] == 1
    ensures IntAt(UInt16, s, at) == 1
  {
    var two := s[at..at + 2];
    assert two == [0, 1] && two[..1] == [0] && two[..1][..0] == [];
    assert FromBigEndian([]) == 0;
    assert FromBigEndian(two[..1]) == 0;
    assert FromBigEndian(two) == 1;
  }

  lemma {:induction false} ElementSizes()
    ensures ElementSize(DataFrame, NARROW) == 1 && ElementSize(DataFrame, WIDE) == 4
  {
    assert [UInt8][1..] == [] && [UInt32][1..] == [];
  }
}
