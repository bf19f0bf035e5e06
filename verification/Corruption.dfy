/** What a receiver makes of a frame of which a byte was changed on the way. */
module Corruption {
  import opened Wrappers
  import opened Primitives
  import opened Wire
  import opened Frames
  import opened Registries
  import opened Parsing
  import opened RoundTrips
  import Crc

  /** A payload followed by its checksum, as sealing a frame leaves it. */
  function WithCrc(payload: seq<byte>): (s: seq<byte>)
    ensures |s| == |payload| + 4
    ensures forall r :: IntegerCanHold(UInt32, r) ==> s == Sealed(payload, true, true, r)
  {
    payload + Bytes(CountField(Crc.Crc32(payload)))
  }

  /** The word at `end` is the checksum of what precedes it. */
  predicate ChecksumAt(s: seq<byte>, end: nat) {
    end + 4 <= |s| && IntAt(UInt32, s, end) == Crc.Crc32(s[..end])
  }

  /** A changed byte before the place where the checksum still is, or in it, is noticed. */
  lemma {:induction false} ChecksumFails(payload: seq<byte>, i: nat, v: byte)
    requires i < |WithCrc(payload)| && v != WithCrc(payload)[i]
    ensures !ChecksumAt(WithCrc(payload)[i := v], |payload|)
  {
    hide Encode, Decode, IntegerBounds, Crc.Crc32;
    var n := |payload|;
    var sum := CountField(Crc.Crc32(payload));
    var t := WithCrc(payload)[i := v];
    if i < n {
      assert t[n..n + 4] == Bytes(sum);
      DecodeEncode(UInt32, sum.value);
      assert t[..n] == payload[i := v];
      Crc.ChangedByteChangesCrc(payload, t[..n], i);
    } else {
      assert t[..n] == payload;
      assert t[n..n + 4] == Bytes(sum)[i - n := v];
      EncodeDecode(UInt32, t[n..n + 4]);
      assert t[n..n + 4] != Bytes(sum);
    }
  }

  /**
   A frame with a checksum of which one byte was changed is refused, as long as
   the change does not move the place where the parser looks for the checksum.
   */
  lemma {:induction false} ChangedByteRefused(reg: ChannelTable, payload: seq<byte>, i: nat, v: byte,
                                              expectedId: Option<int>, header: FrameHeader, body: Body)
    requires var s := WithCrc(payload);
             i < |s| && v != s[i] && ReadHeader(s[i := v], expectedId) == Header(header)
             && ParseBody(reg, header.frameType, header.size, s[i := v], HEAD) == Some((body, |payload|))
    ensures DecodeFrame(reg, WithCrc(payload)[i := v], expectedId) == Refused
  {
    hide ReadHeader, ParseBody, ReadField, IntegerBounds, Crc.Crc32, WithCrc;
    ChecksumFails(payload, i, v);
  }

  /** One changed byte of a message frame is always noticed, unless it is in the frame type or the size. */
  lemma {:induction false} CorruptedMessageRefused(reg: ChannelTable, o: Origin, info: MessageInfo, fragment: seq<byte>,
                                                   i: nat, v: byte, expectedId: Option<int>)
    requires o.frameType == MessageFrameType && IntegerCanHold(UInt32, |fragment|)
    requires var s := WithCrc(MessagePayload(o, info, fragment));
             i < |s| && v != s[i] && i != 2 && !(COUNT_AT <= i < HEAD)
    ensures DecodeFrame(reg, WithCrc(MessagePayload(o, info, fragment))[i := v], expectedId) == Refused
  {
    hide Head, Encode, IntegerBounds, Crc.Crc32, Unpack, ReadField, InfoOf;
    var payload := MessagePayload(o, info, fragment);
    var s := WithCrc(payload);
    var t := s[i := v];
    InfoLength(info);
    HeadReadBack(o, |fragment|, s[HEAD..]);
    assert s == Head(o, |fragment|) + s[HEAD..];
    SameField(s, t, UInt8, 2);
    SameField(s, t, UInt32, COUNT_AT);
    MessagePrimsSize();
    PackUnpack(MESSAGE_PRIMS, t, HEAD);
    var r := ReadHeader(t, expectedId);
    if r.Header? {
      var body := ParseBody(reg, r.header.frameType, r.header.size, t, HEAD);
      ChangedByteRefused(reg, payload, i, v, expectedId, r.header, body.value.0);
    }
  }

  lemma {:induction false} SameField(s: seq<byte>, t: seq<byte>, p: Primitive, at: nat)
    requires |s| == |t| && at + Size(p) <= |s| && forall i :: at <= i < at + Size(p) ==> s[i] == t[i]
    ensures ReadField(p, s, at) == ReadField(p, t, at)
  {
    assert s[at..at + Size(p)] == t[at..at + Size(p)];
  }

  // ---------------------------------------------------------------------
  // A changed size
  // ---------------------------------------------------------------------

  /** Where the bytes of a message start. */
  const BODY: nat := HEAD + MESSAGE_HEAD

  /** The frame of a message with its checksum. */
  function MessageFrameBytes(o: Origin, info: MessageInfo, fragment: seq<byte>): (s: seq<byte>)
    requires IntegerCanHold(UInt32, |fragment|)
    ensures |s| == BODY + |fragment| + 4
  {
    InfoLength(info);
    WithCrc(MessagePayload(o, info, fragment))
  }

  /** The same frame, with a size in its header that need not be right. */
  function Resized(o: Origin, info: MessageInfo, fragment: seq<byte>, size: nat): (s: seq<byte>)
    requires IntegerCanHold(UInt32, |fragment|) && IntegerCanHold(UInt32, size)
    ensures |s| == BODY + |fragment| + 4
  {
    Head(o, size) + MessageFrameBytes(o, info, fragment)[HEAD..]
  }

  lemma {:induction false} ResizedParts(o: Origin, info: MessageInfo, fragment: seq<byte>, size: nat)
    requires IntegerCanHold(UInt32, |fragment|) && IntegerCanHold(UInt32, size)
    ensures var s, t := MessageFrameBytes(o, info, fragment), Resized(o, info, fragment, size);
            && t[BODY..] == s[BODY..] && s[BODY..BODY + |fragment|] == fragment
            && Unpack(MESSAGE_PRIMS, t, HEAD) == Some(InfoFields(info))
  {
    hide Head, Encode, IntegerBounds, Crc.Crc32, Unpack, Pack, InfoFields;
    var s, t := MessageFrameBytes(o, info, fragment), Resized(o, info, fragment, size);
    var fields := Pack(InfoFields(info));
    InfoLength(info);
    assert s[HEAD..] == fields + s[BODY..];
    assert t == Head(o, size) + fields + s[BODY..];
    UnpackPack(InfoFields(info), Head(o, size), s[BODY..]);
  }

  lemma {:induction false} ResizedBody(reg: ChannelTable, o: Origin, info: MessageInfo, fragment: seq<byte>, size: nat)
    requires IntegerCanHold(UInt32, |fragment|) && IntegerCanHold(UInt32, size)
    ensures var t := Resized(o, info, fragment, size);
            ParseBody(reg, MessageFrameType, size, t, HEAD) ==
            if size > |fragment| + 4 then None else Some((MessageBody(info, t[BODY..BODY + size]), BODY + size))
  {
    hide Resized, IntegerBounds, Unpack, InfoOf, InfoFields, ReadChannels, ReadElements;
    ResizedParts(o, info, fragment, size);
    InfoBack(info);
  }

  /**
   Whatever the size says: beyond the frame's end it raises; into the checksum,
   the frame is taken without one, and bytes of the checksum for bytes of the
   message; otherwise what then stands for the checksum decides.
   */
  lemma {:induction false} ResizedDecodes(reg: ChannelTable, o: Origin, info: MessageInfo, fragment: seq<byte>,
                                          size: nat, expectedId: Option<int>)
    requires o.frameType == MessageFrameType
    requires IntegerCanHold(UInt32, |fragment|) && IntegerCanHold(UInt32, size)
    ensures var t := Resized(o, info, fragment, size);
            DecodeFrame(reg, t, expectedId) ==
            if !Expected(expectedId, o) then Refused
            else if size > |fragment| + 4 then Raised
            else if size <= |fragment| && !ChecksumAt(t, BODY + size) then Refused
            else Parsed(ParsedFrame(HeaderOf(o, |t|, size), MessageBody(info, t[BODY..BODY + size]),
                                    if size <= |fragment| then Some(IntAt(UInt32, t, BODY + size)) else None))
  {
    hide Head, ReadField, Encode, IntegerBounds, Crc.Crc32, ParseBody, MessageFrameBytes;
    var t := Resized(o, info, fragment, size);
    HeadReadBack(o, size, MessageFrameBytes(o, info, fragment)[HEAD..]);
    ResizedBody(reg, o, info, fragment, size);
    assert ReadHeader(t, expectedId) == if Expected(expectedId, o) then Header(HeaderOf(o, |t|, size)) else OtherSender;
  }

  /** Changing bytes of the size field only is resizing. */
  lemma {:induction false} SizeByteChanged(o: Origin, info: MessageInfo, fragment: seq<byte>, i: nat, v: byte)
    requires IntegerCanHold(UInt32, |fragment|) && COUNT_AT <= i < HEAD
    requires v != MessageFrameBytes(o, info, fragment)[i]
    ensures var t := MessageFrameBytes(o, info, fragment)[i := v];
            var size := NatAt(UInt32, t, COUNT_AT);
            t == Resized(o, info, fragment, size) && size != |fragment|
  {
    hide ReadField, Encode, IntegerBounds, Crc.Crc32, Pack, InfoFields, Stamp;
    var s := MessageFrameBytes(o, info, fragment);
    var t := s[i := v];
    var size := NatAt(UInt32, t, COUNT_AT);
    StampLength(o);
    BytesRead(UInt32, t, COUNT_AT);
    assert s[..HEAD] == Head(o, |fragment|);
    assert t[..COUNT_AT] == Pack(Stamp(o));
    assert t[..HEAD] == t[..COUNT_AT] + t[COUNT_AT..HEAD];
    assert t[..HEAD] == Head(o, size);
    assert t == t[..HEAD] + s[HEAD..];
    assert t[i] != s[i];
  }

  // ---------------------------------------------------------------------
  // A changed type
  // ---------------------------------------------------------------------

  const TYPE_AT: nat := 2

  /** A frame body of that type is found, and what follows it is its checksum or too short to be one. */
  predicate PassesAs(reg: ChannelTable, t: FrameType, size: nat, s: seq<byte>)
    requires |s| >= HEAD
  {
    var body := ParseBody(reg, t, size, s, HEAD);
    body.Some? && (body.value.1 + 4 > |s| || ChecksumAt(s, body.value.1))
  }

  /** A frame of type zero is not looked into, and types above four raise. */
  lemma {:induction false} TypeByteChanged(reg: ChannelTable, o: Origin, info: MessageInfo, fragment: seq<byte>,
                                           v: byte, expectedId: Option<int>)
    requires o.frameType == MessageFrameType && IntegerCanHold(UInt32, |fragment|)
    ensures var t := MessageFrameBytes(o, info, fragment)[TYPE_AT := v];
            var r := DecodeFrame(reg, t, expectedId);
            if !Expected(expectedId, o) then r == Refused
            else if v > 4 then r == Raised
            else
              var frameType := FrameTypeOf(v as int).value;
              var header := FrameHeader(|t|, o.appId, frameType, o.timestamp, |fragment|);
              && (v == 0 ==> r == Parsed(ParsedFrame(header, Skipped, None)))
              && (r.Parsed? <==> PassesAs(reg, frameType, |fragment|, t))
              && (r.Raised? <==> ParseBody(reg, frameType, |fragment|, t, HEAD).None?)
  {
    hide Head, Encode, IntegerBounds, Crc.Crc32, Unpack, ReadField, InfoOf, ReadChannels, ReadElements,
      MessageFrameBytes;
    var s := MessageFrameBytes(o, info, fragment);
    var t := s[TYPE_AT := v];
    HeadBytes(o, info, fragment);
    HeadReadBack(o, |fragment|, s[HEAD..]);
    SameField(s, t, UInt16, 0);
    SameField(s, t, UInt64, 3);
    SameField(s, t, UInt32, COUNT_AT);
    ByteRead(t, TYPE_AT);
  }

  lemma {:induction false} HeadBytes(o: Origin, info: MessageInfo, fragment: seq<byte>)
    requires IntegerCanHold(UInt32, |fragment|)
    ensures var s := MessageFrameBytes(o, info, fragment); s == Head(o, |fragment|) + s[HEAD..]
  {
    hide Head, IntegerBounds, Crc.Crc32, Pack, InfoFields, Encode;
  }

  lemma {:induction false} ByteRead(s: seq<byte>, at: nat)
    requires at < |s|
    ensures IntAt(UInt8, s, at) == s[at] as int
  {
    var one := s[at..at + 1];
    assert one == [s[at]] && one[..0] == [];
    assert FromBigEndian(one[..0]) == 0;
    assert FromBigEndian(one) == s[at] as int;
  }

  // ---------------------------------------------------------------------
  // Exactly what goes unnoticed
  // ---------------------------------------------------------------------

  /**
   One changed byte that a receiver does not notice: the type becomes invalid,
   or one that these bytes pass for; or the size grows by up to the length of
   the checksum, or shrinks to where the message happens to hold the checksum
   of everything before.
   */
  predicate Unnoticed(reg: ChannelTable, s: seq<byte>, n: nat, i: nat, v: byte)
    requires i < |s| && |s| >= HEAD
  {
    var t := s[i := v];
    if i == TYPE_AT then
      v == 0 || (v <= 4 && PassesAs(reg, FrameTypeOf(v as int).value, n, t))
    else if COUNT_AT <= i < HEAD then
      var size := NatAt(UInt32, t, COUNT_AT);
      n < size <= n + 4 || (size < n && ChecksumAt(t, BODY + size))
    else false
  }

  lemma {:induction false} SizeNoticed(reg: ChannelTable, o: Origin, info: MessageInfo, fragment: seq<byte>, i: nat,
                                       v: byte, expectedId: Option<int>)
    requires o.frameType == MessageFrameType && IntegerCanHold(UInt32, |fragment|) && COUNT_AT <= i < HEAD
    requires v != MessageFrameBytes(o, info, fragment)[i]
    ensures var s := MessageFrameBytes(o, info, fragment);
            DecodeFrame(reg, s[i := v], expectedId).Parsed? <==>
            Expected(expectedId, o) && Unnoticed(reg, s, |fragment|, i, v)
  {
    hide DecodeFrame, IntegerBounds, ParseBody, ChecksumAt, IntAt, MessageFrameBytes, Resized;
    var s := MessageFrameBytes(o, info, fragment);
    SizeByteChanged(o, info, fragment, i, v);
    ResizedDecodes(reg, o, info, fragment, NatAt(UInt32, s[i := v], COUNT_AT), expectedId);
  }

  /** A message frame with one changed byte is taken if and only if the change is one of those. */
  lemma {:induction false} NoticedExactly(reg: ChannelTable, o: Origin, info: MessageInfo, fragment: seq<byte>, i: nat,
                                          v: byte, expectedId: Option<int>)
    requires o.frameType == MessageFrameType && IntegerCanHold(UInt32, |fragment|)
    requires i < |MessageFrameBytes(o, info, fragment)| && v != MessageFrameBytes(o, info, fragment)[i]
    ensures var s := MessageFrameBytes(o, info, fragment);
            DecodeFrame(reg, s[i := v], expectedId).Parsed? <==>
            Expected(expectedId, o) && Unnoticed(reg, s, |fragment|, i, v)
  {
    hide DecodeFrame, IntegerBounds, Crc.Crc32, ParseBody, ReadField;
    var s := MessageFrameBytes(o, info, fragment);
    if i == TYPE_AT {
      hide MessageFrameBytes;
      TypeByteChanged(reg, o, info, fragment, v, expectedId);
    } else if COUNT_AT <= i < HEAD {
      hide MessageFrameBytes;
      SizeNoticed(reg, o, info, fragment, i, v, expectedId);
    } else {
      CorruptedMessageRefused(reg, o, info, fragment, i, v, expectedId);
    }
  }

  // ---------------------------------------------------------------------
  // Two changes that go unnoticed in every frame
  // ---------------------------------------------------------------------

  /** With a zero for its type, no frame's checksum is looked at. */
  lemma {:induction false} InvalidTypeAccepted(reg: ChannelTable, o: Origin, info: MessageInfo, fragment: seq<byte>)
    requires o.frameType == MessageFrameType && IntegerCanHold(UInt32, |fragment|)
    ensures var r := DecodeFrame(reg, MessageFrameBytes(o, info, fragment)[TYPE_AT := 0], None);
            r.Parsed? && r.frame.body == Skipped && r.frame.crc == None
  {
    hide DecodeFrame, IntegerBounds, Crc.Crc32, ParseBody, MessageFrameBytes;
    TypeByteChanged(reg, o, info, fragment, 0, None);
  }

  lemma {:induction false} LastByteGrows(n: nat, k: nat)
    requires n % 256 + k <= 255
    ensures ToBigEndian(n, 4)[3 := n % 256 + k] == ToBigEndian(n + k, 4)
  {
    assert (n + k) / 256 == n / 256 && (n + k) % 256 == n % 256 + k;
    assert ToBigEndian(n, 4) == ToBigEndian(n / 256, 3) + [n % 256];
    assert ToBigEndian(n + k, 4) == ToBigEndian(n / 256, 3) + [n % 256 + k];
  }

  lemma {:induction false} HeadGrows(o: Origin, n: nat, k: nat)
    requires n % 256 + k <= 255 && IntegerCanHold(UInt32, n) && IntegerCanHold(UInt32, n + k)
    ensures Head(o, n)[HEAD - 1 := n % 256 + k] == Head(o, n + k)
  {
    hide Pow2, Pack, Stamp, ToBigEndian;
    StampLength(o);
    LastByteGrows(n, k);
  }

  lemma {:induction false} GrownIsResized(o: Origin, info: MessageInfo, fragment: seq<byte>, k: nat)
    requires |fragment| % 256 + k <= 255 && IntegerCanHold(UInt32, |fragment|) && IntegerCanHold(UInt32, |fragment| + k)
    ensures MessageFrameBytes(o, info, fragment)[HEAD - 1 := |fragment| % 256 + k]
            == Resized(o, info, fragment, |fragment| + k)
  {
    hide Pow2, Head, MessageFrameBytes;
    HeadBytes(o, info, fragment);
    HeadGrows(o, |fragment|, k);
  }

  lemma {:induction false} GrownBody(o: Origin, info: MessageInfo, fragment: seq<byte>, k: nat)
    requires k <= 4 && IntegerCanHold(UInt32, |fragment|) && IntegerCanHold(UInt32, |fragment| + k)
    ensures var s, n := MessageFrameBytes(o, info, fragment), |fragment|;
            Resized(o, info, fragment, n + k)[BODY..BODY + n + k] == fragment + s[BODY + n..BODY + n + k]
  {
    hide Pow2, Resized, MessageFrameBytes;
    var s, n := MessageFrameBytes(o, info, fragment), |fragment|;
    var t := Resized(o, info, fragment, n + k);
    ResizedParts(o, info, fragment, n + k);
    assert t[BODY..BODY + n + k] == t[BODY..][..n + k];
    assert s[BODY..][..n + k] == s[BODY..BODY + n] + s[BODY + n..BODY + n + k];
  }

  /** With a size that is up to four too large, a frame is taken with bytes of its checksum behind its message. */
  lemma {:induction false} GrownSizeAccepted(reg: ChannelTable, o: Origin, info: MessageInfo, fragment: seq<byte>,
                                             k: nat)
    requires o.frameType == MessageFrameType
    requires 1 <= k <= 4 && |fragment| % 256 + k <= 255 && IntegerCanHold(UInt32, |fragment| + k)
    ensures IntegerCanHold(UInt32, |fragment|)
    ensures var s := MessageFrameBytes(o, info, fragment);
            var r := DecodeFrame(reg, s[HEAD - 1 := |fragment| % 256 + k], None);
            && r.Parsed? && r.frame.crc == None
            && r.frame.body == MessageBody(info, fragment + s[BODY + |fragment|..BODY + |fragment| + k])
  {
    hide DecodeFrame, Pow2, Crc.Crc32, Resized, MessageFrameBytes;
    GrownIsResized(o, info, fragment, k);
    GrownBody(o, info, fragment, k);
    ResizedDecodes(reg, o, info, fragment, |fragment| + k, None);
  }
}
