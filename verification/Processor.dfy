/**
 The stream parser that recovers length-prefixed frames from arbitrarily
 chunked bytes (vtelem/frame/processor.py), and the reference parser that
 looks at the whole stream at once.
 */
module Processor {
  import opened Primitives
  import opened ByteBuffers
  import opened Sequences

  /** The length header is a `count` primitive. */
  const HEADER: nat := 4

  function Length(s: seq<byte>): nat
    requires |s| >= HEADER
  {
    FromBigEndian(s[..HEADER])
  }

  function Header(n: nat): (s: seq<byte>)
    ensures |s| == HEADER
  {
    ToBigEndian(n, HEADER)
  }

  lemma {:induction false} LengthOfHeader(n: nat, s: seq<byte>)
    requires n < Pow2(32)
    ensures Length(Header(n) + s) == n
  {
    hide ToBigEndian, FromBigEndian, Pow2;
    FromToBigEndian(n, HEADER);
    assert (Header(n) + s)[..HEADER] == Header(n);
  }

  lemma {:induction false} HeaderOfLength(s: seq<byte>)
    requires |s| >= HEADER
    ensures Header(Length(s)) == s[..HEADER] && Length(s) < Pow2(32)
  {
    hide ToBigEndian, FromBigEndian, Pow2;
    ToFromBigEndian(s[..HEADER]);
  }

  lemma {:induction false} LengthOfPrefix(s: seq<byte>, n: nat)
    requires HEADER <= n <= |s|
    ensures Length(s[..n]) == Length(s)
  {
    hide ToBigEndian, FromBigEndian, Pow2;
    assert s[..n][..HEADER] == s[..HEADER];
  }

  // ---------------------------------------------------------------------
  // One call of the processor, as a function on its state
  // ---------------------------------------------------------------------

  datatype State = State(pending: seq<byte>, size: nat, stale: bool)

  const FRESH := State([], 0, true)

  datatype Step = Step(frames: seq<seq<byte>>, next: State)

  function ReadSize(st: State, mtu: nat): State {
    var read := if st.stale && |st.pending| >= HEADER
                then State(st.pending[HEADER..], Length(st.pending), false) else st;
    if read.size > mtu then State([], read.size, true) else read
  }

  function Drain(st: State, mtu: nat): Step
    decreases |st.pending| + if st.stale then 0 else 1
  {
    if st.stale || st.size > |st.pending| then Step([], st)
    else
      var rest := Drain(ReadSize(State(st.pending[st.size..], st.size, true), mtu), mtu);
      Step([st.pending[..st.size]] + rest.frames, rest.next)
  }

  function Process(st: State, chunk: seq<byte>, mtu: nat): Step {
    Drain(ReadSize(st.(pending := st.pending + chunk), mtu), mtu)
  }

  function ProcessAll(st: State, chunks: seq<seq<byte>>, mtu: nat): Step
    decreases |chunks|
  {
    if chunks == [] then Step([], st)
    else
      var first := Process(st, chunks[0], mtu);
      var rest := ProcessAll(first.next, chunks[1..], mtu);
      Step(first.frames + rest.frames, rest.next)
  }

  class FrameProcessor {
    const buffer: ByteBuffer
    var size: nat
    var sizeStale: bool

    ghost predicate Valid()
      reads this, buffer
    {
      buffer.mutable && buffer.Valid() && buffer.pos == 0 && |buffer.data| == buffer.size
    }

    ghost function View(): State
      reads this, buffer
    {
      State(buffer.data, size, sizeStale)
    }

    constructor ()
      ensures Valid() && fresh(buffer) && View() == FRESH
    {
      buffer := new ByteBuffer([], true, 0);
      size := 0;
      sizeStale := true;
    }

    method ReadFrameSize(mtu: nat)
      requires Valid()
      modifies this, buffer
      ensures Valid() && View() == ReadSize(old(View()), mtu)
      ensures buffer.size <= old(buffer.size) && (buffer.size == old(buffer.size) ==> sizeStale || !old(sizeStale))
    {
      if sizeStale && buffer.CanRead(UInt32) {
        var v := buffer.Read(UInt32, true);
        size := v.i;
        sizeStale := false;
      }
      if size > mtu {
        buffer.Reset();
        sizeStale := true;
      }
    }

    method ProcessData(data: seq<byte>, mtu: nat) returns (result: seq<seq<byte>>)
      requires Valid()
      modifies this, buffer
      ensures Valid() && Step(result, View()) == Process(old(View()), data, mtu)
    {
      hide Length, Header, Pow2, ReadSize, Drain;
      result := [];
      var _ := buffer.Append(data, |data|);
      assert buffer.data == old(buffer.data) + data;
      ReadFrameSize(mtu);
      ghost var total := Drain(View(), mtu);
      while !sizeStale && size <= buffer.Remaining()
        invariant Valid()
        invariant total == Step(result + Drain(View(), mtu).frames, Drain(View(), mtu).next)
        decreases buffer.size + if sizeStale then 0 else 1
      {
        ghost var st := View();
        DrainMore(st, result, total, mtu);
        var frame := buffer.ReadBytes(size, true);
        result := result + [frame];
        sizeStale := true;
        assert View() == State(st.pending[st.size..], st.size, true);
        ReadFrameSize(mtu);
      }
      DrainDone(View(), mtu);
    }
  }

  // ---------------------------------------------------------------------
  // The reference: split a whole stream at its length headers
  // ---------------------------------------------------------------------

  /** A stream ends inside a frame, or at a header that claims more than the MTU. */
  datatype Tail = Incomplete(bytes: seq<byte>) | Oversize(length: nat, rest: seq<byte>)

  datatype Parse = Parse(frames: seq<seq<byte>>, tail: Tail)

  function Split(s: seq<byte>, mtu: nat): Parse
    decreases |s|
  {
    if |s| < HEADER then Parse([], Incomplete(s))
    else if Length(s) > mtu then Parse([], Oversize(Length(s), s[HEADER..]))
    else if |s| < HEADER + Length(s) then Parse([], Incomplete(s))
    else
      var end := HEADER + Length(s);
      var rest := Split(s[end..], mtu);
      Parse([s[HEADER..end]] + rest.frames, rest.tail)
  }

  /** The bytes a processor has taken in but not delivered, header included. */
  function Unread(st: State): seq<byte> {
    if st.stale then st.pending else Header(st.size) + st.pending
  }

  /** A processor between calls that has met no oversize header. */
  predicate Resting(st: State, mtu: nat) {
    st.size <= mtu &&
    if st.stale then |st.pending| < HEADER else |st.pending| < st.size < Pow2(32)
  }

  /** The state the reference parse of a stream leads to. */
  function After(st: State, p: Parse): State {
    match p.tail
    case Oversize(length, _) => State([], length, true)
    case Incomplete(t) =>
      if |t| >= HEADER then State(t[HEADER..], Length(t), false)
      else State(t, if p.frames == [] then st.size else |p.frames[|p.frames| - 1]|, true)
  }

  lemma {:induction false} AfterUnread(st: State)
    requires if st.stale then |st.pending| < HEADER else st.size < Pow2(32)
    ensures After(st, Parse([], Incomplete(Unread(st)))) == st
  {
    hide Length, Header, Pow2;
    if !st.stale {
      LengthOfHeader(st.size, st.pending);
      assert Unread(st)[HEADER..] == st.pending;
    }
  }

  /** Splitting a stream whose first header is known. */
  lemma {:induction false} SplitAtHeader(n: nat, body: seq<byte>, mtu: nat)
    requires n <= mtu && n < Pow2(32)
    ensures var rest := Split(if n <= |body| then body[n..] else [], mtu);
            Split(Header(n) + body, mtu) ==
            if n <= |body| then Parse([body[..n]] + rest.frames, rest.tail)
            else Parse([], Incomplete(Header(n) + body))
  {
    hide Length, Header, Pow2;
    var s := Header(n) + body;
    LengthOfHeader(n, body);
    if n <= |body| {
      assert s[HEADER..HEADER + n] == body[..n];
      assert s[HEADER + n..] == body[n..];
    }
  }

  /** The state after a frame was taken out and the next header, if there is one, was read. */
  function Next(st: State, mtu: nat): State
    requires st.size <= |st.pending|
  {
    ReadSize(State(st.pending[st.size..], st.size, true), mtu)
  }

  lemma {:induction false} DrainDone(st: State, mtu: nat)
    requires st.stale || st.size > |st.pending|
    ensures Drain(st, mtu) == Step([], st)
  {
  }

  lemma {:induction false} DrainOne(st: State, mtu: nat)
    requires !st.stale && st.size <= |st.pending|
    ensures var rest := Drain(Next(st, mtu), mtu);
            Drain(st, mtu) == Step([st.pending[..st.size]] + rest.frames, rest.next)
  {
    hide ReadSize;
  }

  /** Taking out one more frame leaves the total as it is. */
  lemma {:induction false} DrainMore(st: State, done: seq<seq<byte>>, total: Step, mtu: nat)
    requires !st.stale && st.size <= |st.pending|
    requires total == Step(done + Drain(st, mtu).frames, Drain(st, mtu).next)
    ensures var rest := Drain(Next(st, mtu), mtu);
            total == Step(done + [st.pending[..st.size]] + rest.frames, rest.next)
  {
    hide Drain, ReadSize;
    DrainOne(st, mtu);
    var f, rest := st.pending[..st.size], Drain(Next(st, mtu), mtu);
    assert done + ([f] + rest.frames) == done + [f] + rest.frames;
  }

  /** A frame before those of a stream changes nothing about the state they lead to. */
  lemma {:induction false} AfterCons(st: State, next: State, f: seq<byte>, s: seq<byte>, mtu: nat)
    requires |s| >= HEADER && Length(s) <= mtu
    ensures var p := Split(s, mtu); After(st, Parse([f] + p.frames, p.tail)) == After(next, p)
  {
    hide Length, Pow2;
    SplitFacts(s, mtu);
  }

  /** Draining stops at a header that is not there yet or is oversize. */
  lemma {:induction false} DrainLast(st: State, mtu: nat)
    requires !st.stale && st.size <= |st.pending| && st.size <= mtu
    requires var rest := st.pending[st.size..]; |rest| < HEADER || Length(rest) > mtu
    ensures var p := Split(st.pending[st.size..], mtu);
            && p.frames == []
            && Drain(st, mtu) == Step([st.pending[..st.size]], After(st, Parse([st.pending[..st.size]], p.tail)))
  {
    hide Length, Pow2;
    DrainOne(st, mtu);
    assert Drain(Next(st, mtu), mtu) == Step([], Next(st, mtu));
  }

  lemma {:induction false} DrainRefines(st: State, mtu: nat)
    requires !st.stale && st.size <= mtu && st.size < Pow2(32)
    ensures var p := Split(Unread(st), mtu); Drain(st, mtu) == Step(p.frames, After(st, p))
    decreases |st.pending|
  {
    hide Length, Header, Pow2;
    SplitAtHeader(st.size, st.pending, mtu);
    if st.size > |st.pending| {
      AfterUnread(st);
    } else {
      var f, rest := st.pending[..st.size], st.pending[st.size..];
      if |rest| >= HEADER && Length(rest) <= mtu {
        var next := Next(st, mtu);
        HeaderOfLength(rest);
        assert Unread(next) == rest;
        hide ReadSize, Drain, Split, After;
        DrainOne(st, mtu);
        DrainRefines(next, mtu);
        AfterCons(st, next, f, rest, mtu);
      } else {
        hide ReadSize, Drain, Split, After;
        DrainLast(st, mtu);
      }
    }
  }

  /** One call delivers the frames of everything taken in so far, and keeps the incomplete tail. */
  lemma {:induction false} ProcessRefines(st: State, chunk: seq<byte>, mtu: nat)
    requires Resting(st, mtu)
    ensures var p := Split(Unread(st) + chunk, mtu); Process(st, chunk, mtu) == Step(p.frames, After(st, p))
  {
    hide Length, Header, Pow2;
    var s := Unread(st) + chunk;
    if st.stale {
      if |s| >= HEADER {
        HeaderOfLength(s);
        if Length(s) <= mtu {
          var next := State(s[HEADER..], Length(s), false);
          assert Unread(next) == s;
          DrainRefines(next, mtu);
        }
      }
    } else {
      var next := st.(pending := st.pending + chunk);
      assert Unread(next) == s;
      DrainRefines(next, mtu);
    }
  }

  /** Splitting resumes from the incomplete tail. */
  lemma {:induction false} SplitAppend(a: seq<byte>, b: seq<byte>, mtu: nat)
    ensures var p := Split(a, mtu);
            Split(a + b, mtu) ==
            match p.tail
            case Incomplete(t) => Parse(p.frames + Split(t + b, mtu).frames, Split(t + b, mtu).tail)
            case Oversize(length, rest) => Parse(p.frames, Oversize(length, rest + b))
    decreases |a|
  {
    hide Length, Header, Pow2;
    if |a| >= HEADER {
      LengthOfPrefix(a + b, |a|);
      assert (a + b)[..|a|] == a;
      assert (a + b)[HEADER..] == a[HEADER..] + b;
      var end := HEADER + Length(a);
      if Length(a) <= mtu && end <= |a| {
        var f, rest := a[HEADER..end], a[end..];
        assert (a + b)[HEADER..end] == f;
        assert (a + b)[end..] == rest + b;
        SplitAppend(rest, b, mtu);
        var p := Split(rest, mtu);
        if p.tail.Incomplete? {
          var q := Split(p.tail.bytes + b, mtu).frames;
          assert [f] + (p.frames + q) == ([f] + p.frames) + q;
        }
      }
    }
  }

  /** What a call leaves behind is a resting state whose unread bytes are the incomplete tail. */
  lemma {:induction false} AfterRests(st: State, s: seq<byte>, mtu: nat)
    requires st.size <= mtu
    requires Split(s, mtu).tail.Incomplete?
    ensures var p := Split(s, mtu); Resting(After(st, p), mtu) && Unread(After(st, p)) == p.tail.bytes
  {
    hide Length, Header, Pow2;
    var p := Split(s, mtu);
    SplitFacts(s, mtu);
    hide Split;
    var t := p.tail.bytes;
    if |t| >= HEADER {
      HeaderOfLength(t);
      assert t == t[..HEADER] + t[HEADER..];
    }
  }

  lemma {:induction false} SplitFacts(s: seq<byte>, mtu: nat)
    ensures var p := Split(s, mtu);
            && (forall i :: 0 <= i < |p.frames| ==> |p.frames[i]| <= mtu)
            && (p.tail.Incomplete? && |p.tail.bytes| >= HEADER ==>
                  |p.tail.bytes| - HEADER < Length(p.tail.bytes) <= mtu)
    decreases |s|
  {
    hide Length, Header, Pow2;
    if |s| >= HEADER && Length(s) <= mtu && HEADER + Length(s) <= |s| {
      SplitFacts(s[HEADER + Length(s)..], mtu);
    }
  }

  // ---------------------------------------------------------------------
  // Independence of the chunking
  // ---------------------------------------------------------------------

  function Window(s: seq<byte>, i: nat): nat
    requires i + HEADER <= |s|
  {
    Length(s[i..])
  }

  predicate EveryWindowIs(s: seq<byte>, length: nat) {
    forall i: nat | i + HEADER <= |s| :: Window(s, i) == length
  }

  /** No oversize header, or nothing after the first one that could be taken for another header. */
  predicate Unambiguous(tail: Tail) {
    tail.Oversize? ==> EveryWindowIs(tail.rest, tail.length)
  }

  /** The windows of a stream's suffix are windows of the stream. */
  lemma {:induction false} SuffixWindows(r: seq<byte>, rest: seq<byte>, length: nat)
    requires EveryWindowIs(r + rest, length)
    ensures EveryWindowIs(rest, length)
  {
    hide Length, Header, Pow2;
    forall i: nat | i + HEADER <= |rest|
      ensures Window(rest, i) == length
    {
      assert (r + rest)[|r| + i..] == rest[i..];
      assert Window(r + rest, |r| + i) == length;
    }
  }

  /** After an oversize header of some length, chunks in which every window reads as that length are dropped. */
  lemma {:induction false} DropsAll(length: nat, chunks: seq<seq<byte>>, mtu: nat)
    requires length > mtu
    requires EveryWindowIs(Concat(chunks), length)
    ensures ProcessAll(State([], length, true), chunks, mtu) == Step([], State([], length, true))
  {
    hide Length, Header, Pow2;
    if chunks != [] {
      var c, rest := chunks[0], Concat(chunks[1..]);
      var s := Concat(chunks);
      assert [] + c == c;
      if |c| >= HEADER {
        assert s[0..] == s && s[..|c|] == c;
        LengthOfPrefix(s, |c|);
        assert Window(s, 0) == length;
      }
      SuffixWindows(c, rest, length);
      DropsAll(length, chunks[1..], mtu);
    }
  }

  /** Later calls continue from where the first one stopped. */
  lemma {:induction false} FirstThenRest(st: State, chunks: seq<seq<byte>>, mtu: nat, p: Parse, q: Parse)
    requires chunks != [] && p.tail.Incomplete?
    requires Process(st, chunks[0], mtu) == Step(p.frames, After(st, p))
    requires ProcessAll(After(st, p), chunks[1..], mtu) == Step(q.frames, After(After(st, p), q))
    requires q.frames == [] && q.tail.Incomplete? && |q.tail.bytes| < HEADER ==> |p.tail.bytes| < HEADER
    ensures ProcessAll(st, chunks, mtu) == Step(p.frames + q.frames, After(st, Parse(p.frames + q.frames, q.tail)))
  {
    hide Process, Length, Pow2;
  }

  /** Any number of calls agrees with the reference parse of the whole stream, if that is unambiguous. */
  lemma {:induction false} ProcessAllRefines(st: State, chunks: seq<seq<byte>>, mtu: nat)
    requires Resting(st, mtu)
    requires Unambiguous(Split(Unread(st) + Concat(chunks), mtu).tail)
    ensures var p := Split(Unread(st) + Concat(chunks), mtu);
            ProcessAll(st, chunks, mtu) == Step(p.frames, After(st, p))
    decreases |chunks|
  {
    hide Length, Header, EveryWindowIs, Process, Pow2;
    var u := Unread(st);
    if chunks == [] {
      assert u + [] == u;
      UnreadIsIncomplete(st, mtu);
      AfterUnread(st);
    } else {
      var c, rest := chunks[0], Concat(chunks[1..]);
      assert u + Concat(chunks) == (u + c) + rest;
      ProcessRefines(st, c, mtu);
      SplitAppend(u + c, rest, mtu);
      var p := Split(u + c, mtu);
      hide Split, Unread, Resting;
      match p.tail
      case Incomplete(t) =>
        AfterRests(st, u + c, mtu);
        ProcessAllRefines(After(st, p), chunks[1..], mtu);
        NoFramesNoLoss(t, rest, mtu);
        hide After, ProcessAll;
        FirstThenRest(st, chunks, mtu, p, Split(t + rest, mtu));
      case Oversize(length, r) =>
        OversizeFacts(u + c, mtu);
        SuffixWindows(r, rest, length);
        DropsAll(length, chunks[1..], mtu);
    }
  }

  /** A stream without frames is its own tail. */
  lemma {:induction false} NoFramesNoLoss(t: seq<byte>, rest: seq<byte>, mtu: nat)
    ensures var q := Split(t + rest, mtu);
            q.frames == [] && q.tail.Incomplete? && |q.tail.bytes| < HEADER ==> |t| < HEADER
  {
    hide Length, Pow2;
  }

  lemma {:induction false} OversizeFacts(s: seq<byte>, mtu: nat)
    requires Split(s, mtu).tail.Oversize?
    ensures var t := Split(s, mtu).tail;
            && t.length > mtu && |t.rest| < |s| && s[|s| - |t.rest|..] == t.rest
            && Split(s[..|s| - |t.rest|], mtu) == Parse(Split(s, mtu).frames, Oversize(t.length, []))
    decreases |s|
  {
    hide Length, Header, Pow2;
    var t := Split(s, mtu).tail;
    if Length(s) > mtu {
      var front := s[..HEADER];
      assert s[..|s| - |t.rest|] == front && front[HEADER..] == [];
      LengthOfPrefix(s, HEADER);
    } else {
      var end := HEADER + Length(s);
      OversizeFacts(s[end..], mtu);
      var front := s[..|s| - |t.rest|];
      LengthOfPrefix(s, |front|);
      assert front[HEADER..end] == s[HEADER..end];
      assert front[end..] == s[end..][..|s[end..]| - |t.rest|];
    }
  }

  ghost predicate ChunkInvariant(st: State, s: seq<byte>, mtu: nat) {
    forall chunks: seq<seq<byte>> | Concat(chunks) == s ::
      ProcessAll(st, chunks, mtu) == Process(st, s, mtu)
  }

  function Singles(s: seq<byte>): seq<seq<byte>> {
    seq(|s|, i requires 0 <= i < |s| => [s[i]])
  }

  lemma {:induction false} ConcatSingles(s: seq<byte>, last: seq<byte>)
    ensures Concat(Singles(s) + [last]) == s + last
  {
    var chunks := Singles(s) + [last];
    if s == [] {
      assert chunks == [last];
      assert chunks[1..] == [];
    } else {
      assert chunks[1..] == Singles(s[1..]) + [last];
      ConcatSingles(s[1..], last);
    }
  }

  /** After an oversize header single bytes are lost, so the next chunk is read at any offset one likes. */
  lemma {:induction false} SkipSingles(length: nat, s: seq<byte>, last: seq<byte>, mtu: nat)
    requires length > mtu
    ensures ProcessAll(State([], length, true), Singles(s) + [last], mtu) == Process(State([], length, true), last, mtu)
  {
    hide Length, Header, Pow2;
    var st := State([], length, true);
    var chunks := Singles(s) + [last];
    if s == [] {
      assert chunks == [last];
      assert ProcessAll(Process(st, last, mtu).next, chunks[1..], mtu).frames == [];
    } else {
      assert chunks[1..] == Singles(s[1..]) + [last];
      assert Process(st, chunks[0], mtu) == Step([], st);
      SkipSingles(length, s[1..], last, mtu);
    }
  }

  /** A chunk whose header differs from the oversize one leaves its mark. */
  lemma {:induction false} Resynchronises(length: nat, s: seq<byte>, mtu: nat)
    requires length > mtu && |s| >= HEADER && Length(s) != length
    ensures Process(State([], length, true), s, mtu) != Step([], State([], length, true))
  {
    hide Length, Header, Pow2;
    assert [] + s == s;
    if Length(s) <= mtu {
      var next := State(s[HEADER..], Length(s), false);
      assert ReadSize(State(s, length, true), mtu) == next;
    }
  }

  /** The first oversize header is completed by the new bytes, not by those kept from before. */
  lemma {:induction false} OversizeIsNew(st: State, s: seq<byte>, mtu: nat)
    requires Resting(st, mtu)
    requires Split(Unread(st) + s, mtu).tail.Oversize?
    ensures var p := Split(Unread(st) + s, mtu);
            && p.tail.length > mtu && |p.tail.rest| <= |s| && s[|s| - |p.tail.rest|..] == p.tail.rest
            && Split(Unread(st) + s[..|s| - |p.tail.rest|], mtu) == Parse(p.frames, Oversize(p.tail.length, []))
  {
    hide Length, Header, Pow2;
    var u := Unread(st);
    var r := Split(u + s, mtu).tail.rest;
    OversizeFacts(u + s, mtu);
    UnreadIsIncomplete(st, mtu);
    hide Split, Unread, Resting;
    var n := |u + s| - |r|;
    if n < |u| {
      assert (u + s)[..n] == u[..n];
      PrefixIncomplete(u, n, mtu);
      assert false;
    }
    assert (u + s)[n..] == s[n - |u|..];
    assert (u + s)[..n] == u + s[..n - |u|];
  }

  /** An ambiguous stream has a chunking that gives a different result. */
  lemma {:induction false} AmbiguousSplit(st: State, s: seq<byte>, mtu: nat) returns (chunks: seq<seq<byte>>)
    requires Resting(st, mtu)
    requires !Unambiguous(Split(Unread(st) + s, mtu).tail)
    ensures Concat(chunks) == s && ProcessAll(st, chunks, mtu) != Process(st, s, mtu)
  {
    hide Length, Header, Split, Unread, Process;
    var p := Split(Unread(st) + s, mtu);
    var length, r := p.tail.length, p.tail.rest;
    OversizeIsNew(st, s, mtu);
    ProcessRefines(st, s, mtu);
    var i: nat :| i + HEADER <= |r| && Window(r, i) != length;
    var first, skipped, last := s[..|s| - |r|], r[..i], r[i..];
    ProcessRefines(st, first, mtu);
    var tail := Singles(skipped) + [last];
    chunks := [first] + tail;
    ConcatSingles(skipped, last);
    assert chunks[1..] == tail;
    SkipSingles(length, skipped, last, mtu);
    Resynchronises(length, last, mtu);
    hide Concat;
    assert p.frames + Process(State([], length, true), last, mtu).frames != p.frames
        || Process(State([], length, true), last, mtu).next != State([], length, true);
  }

  lemma {:induction false} UnreadIsIncomplete(st: State, mtu: nat)
    requires Resting(st, mtu)
    ensures Split(Unread(st), mtu) == Parse([], Incomplete(Unread(st)))
  {
    hide Length, Header, Pow2;
    if !st.stale {
      LengthOfHeader(st.size, st.pending);
    }
  }

  lemma {:induction false} PrefixIncomplete(u: seq<byte>, n: nat, mtu: nat)
    requires n <= |u| && Split(u, mtu) == Parse([], Incomplete(u))
    ensures Split(u[..n], mtu) == Parse([], Incomplete(u[..n]))
  {
    hide Length, Header, Pow2;
    if n >= HEADER {
      LengthOfPrefix(u, n);
    }
  }

  /** From a state that has met no oversize header. */
  lemma {:induction false} RestingExactly(st: State, s: seq<byte>, mtu: nat)
    requires Resting(st, mtu)
    ensures ChunkInvariant(st, s, mtu) <==> Unambiguous(Split(Unread(st) + s, mtu).tail)
  {
    hide Length, Header, Pow2;
    ProcessRefines(st, s, mtu);
    if Unambiguous(Split(Unread(st) + s, mtu).tail) {
      forall chunks: seq<seq<byte>> | Concat(chunks) == s
        ensures ProcessAll(st, chunks, mtu) == Process(st, s, mtu)
      {
        ProcessAllRefines(st, chunks, mtu);
      }
    } else {
      var chunks := AmbiguousSplit(st, s, mtu);
    }
  }

  lemma {:induction false} OneCall(st: State, s: seq<byte>, mtu: nat)
    ensures ProcessAll(st, [s], mtu) == Process(st, s, mtu) && Concat([s]) == s
  {
    hide Process;
    assert [s][1..] == [];
    assert ProcessAll(Process(st, s, mtu).next, [], mtu) == Step([], Process(st, s, mtu).next);
  }

  /** From a state that has just met an oversize header. */
  lemma {:induction false} SkippingExactly(length: nat, s: seq<byte>, mtu: nat)
    requires length > mtu
    ensures ChunkInvariant(State([], length, true), s, mtu) <==> EveryWindowIs(s, length)
  {
    hide Length, Header, Pow2, Process, ProcessAll, Concat;
    var st := State([], length, true);
    OneCall(st, s, mtu);
    if EveryWindowIs(s, length) {
      DropsAll(length, [s], mtu);
      forall chunks: seq<seq<byte>> | Concat(chunks) == s
        ensures ProcessAll(st, chunks, mtu) == Process(st, s, mtu)
      {
        DropsAll(length, chunks, mtu);
      }
    } else {
      var i: nat :| i + HEADER <= |s| && Window(s, i) != length;
      var singles, other := Singles(s) + [[]], Singles(s[..i]) + [s[i..]];
      ConcatSingles(s, []);
      ConcatSingles(s[..i], s[i..]);
      SkipSingles(length, s, [], mtu);
      SkipSingles(length, s[..i], s[i..], mtu);
      Resynchronises(length, s[i..], mtu);
      SkipsNothing(length, mtu);
      assert s + [] == s && s[..i] + s[i..] == s;
      assert ProcessAll(st, singles, mtu) != ProcessAll(st, other, mtu);
    }
  }

  lemma {:induction false} SkipsNothing(length: nat, mtu: nat)
    requires length > mtu
    ensures Process(State([], length, true), [], mtu) == Step([], State([], length, true))
  {
    hide Length;
  }

  /** What a processor can be between two calls: resting, or just past an oversize header. */
  predicate Between(st: State, mtu: nat) {
    Resting(st, mtu) || (st.size > mtu && st == State([], st.size, true))
  }

  /** Nothing else is ever reached. */
  lemma {:induction false} ProcessStaysBetween(st: State, chunk: seq<byte>, mtu: nat)
    requires Between(st, mtu)
    ensures Between(Process(st, chunk, mtu).next, mtu)
  {
    hide Length, Header, Pow2, Split, Drain, Unread, Resting;
    var from := if Resting(st, mtu) then st else FRESH;
    if Resting(st, mtu) || |chunk| >= HEADER {
      FreshRests(mtu);
      HeaderOverwrites(st, chunk, mtu);
      ProcessRefines(from, chunk, mtu);
      var p := Split(Unread(from) + chunk, mtu);
      if p.tail.Incomplete? {
        RestingSize(from, mtu);
        AfterRests(from, Unread(from) + chunk, mtu);
      } else {
        OversizeFacts(Unread(from) + chunk, mtu);
      }
    } else {
      ShortIsSkipped(st.size, chunk, mtu);
    }
  }

  lemma {:induction false} FreshRests(mtu: nat)
    ensures Resting(FRESH, mtu)
  {
  }

  lemma {:induction false} RestingSize(st: State, mtu: nat)
    requires Resting(st, mtu)
    ensures st.size <= mtu
  {
  }

  /** A header that is read replaces the size that was there. */
  lemma {:induction false} HeaderOverwrites(st: State, chunk: seq<byte>, mtu: nat)
    requires Between(st, mtu)
    ensures !Resting(st, mtu) && |chunk| >= HEADER ==> Process(st, chunk, mtu) == Process(FRESH, chunk, mtu)
  {
    hide Length, Drain, Resting;
    assert [] + chunk == chunk;
  }

  lemma {:induction false} ShortIsSkipped(length: nat, chunk: seq<byte>, mtu: nat)
    requires length > mtu && |chunk| < HEADER
    ensures Process(State([], length, true), chunk, mtu) == Step([], State([], length, true))
  {
    hide Length;
    assert [] + chunk == chunk;
  }

  lemma {:induction false} ReachedBetween(st: State, chunks: seq<seq<byte>>, mtu: nat)
    requires Between(st, mtu)
    ensures Between(ProcessAll(st, chunks, mtu).next, mtu)
    decreases |chunks|
  {
    hide Process, Between;
    if chunks != [] {
      ProcessStaysBetween(st, chunks[0], mtu);
      ReachedBetween(Process(st, chunks[0], mtu).next, chunks[1..], mtu);
    }
  }

  /** How a stream ends for a processor in some state: past an oversize header, all of it is rest. */
  function TailFor(st: State, s: seq<byte>, mtu: nat): Tail {
    if st.size > mtu then Oversize(st.size, s) else Split(Unread(st) + s, mtu).tail
  }

  /**
   From every state that can be reached, how a stream is cut into chunks matters
   to neither the frames delivered nor the state left behind, if and only if the
   stream is unambiguous.
   */
  lemma {:induction false} ChunkInvarianceExactly(before: seq<seq<byte>>, s: seq<byte>, mtu: nat)
    ensures var st := ProcessAll(FRESH, before, mtu).next;
            ChunkInvariant(st, s, mtu) <==> Unambiguous(TailFor(st, s, mtu))
  {
    hide Length, Header, Pow2, ProcessAll, ChunkInvariant, EveryWindowIs, Split, Unread;
    FreshRests(mtu);
    ReachedBetween(FRESH, before, mtu);
    var st := ProcessAll(FRESH, before, mtu).next;
    if st.size > mtu {
      SkippingExactly(st.size, s, mtu);
    } else {
      RestingExactly(st, s, mtu);
    }
  }

  /** With an MTU of 8, what follows a header of 9 is lost in one call and delivered in two. */
  lemma {:induction false} ChunkingMatters()
    ensures var bad, good := [0, 0, 0, 9], [0, 0, 0, 1, 7];
            && ProcessAll(FRESH, [bad + good], 8).frames == []
            && ProcessAll(FRESH, [bad, good], 8).frames == [[7]]
  {
    var bad, good := [0, 0, 0, 9], [0, 0, 0, 1, 7];
    LengthOfSmall(9, good);
    LengthOfSmall(9, []);
    LengthOfSmall(1, [7]);
    hide Length, Pow2;
    var lost := State([], 9, true);
    assert [] + bad == bad && [] + good == good && [] + (bad + good) == bad + good;
    assert bad + [] == bad && good == [0, 0, 0, 1] + [7];
    assert Process(FRESH, bad + good, 8) == Step([], lost);
    assert Process(FRESH, bad, 8) == Step([], lost);
    assert ReadSize(State(good, 9, true), 8) == State([7], 1, false);
    assert [7][1..] == [] && [7][..1] == [7];
    assert Drain(State([], 1, true), 8) == Step([], State([], 1, true));
    assert Drain(State([7], 1, false), 8).frames == [[7]];
    assert Process(lost, good, 8).frames == [[7]];
    assert [bad, good][1..] == [good];
    assert ProcessAll(lost, [good], 8).frames == [[7]];
  }

  lemma {:induction false} LengthOfSmall(n: byte, s: seq<byte>)
    ensures Length([0, 0, 0, n] + s) == n
  {
    var h: seq<byte> := [0, 0, 0, n];
    assert (h + s)[..HEADER] == h;
    var z3: seq<byte>, z2: seq<byte>, z1: seq<byte> := [0, 0, 0], [0, 0], [0];
    assert h[..3] == z3 && z3[..2] == z2 && z2[..1] == z1 && z1[..0] == [];
    assert FromBigEndian(z1) == 0;
    assert FromBigEndian(z2) == 0;
    assert FromBigEndian(z3) == 0;
  }

  // ---------------------------------------------------------------------
  // Size-prefixed frames on a stream
  // ---------------------------------------------------------------------

  function WithSizeHeader(frame: seq<byte>): seq<byte> {
    Header(|frame|) + frame
  }

  function Stream(frames: seq<seq<byte>>): seq<byte> {
    if frames == [] then [] else WithSizeHeader(frames[0]) + Stream(frames[1..])
  }

  predicate Deliverable(frames: seq<seq<byte>>, mtu: nat) {
    forall f | f in frames :: |f| <= mtu && |f| < Pow2(32)
  }

  lemma {:induction false} SplitStream(frames: seq<seq<byte>>, mtu: nat)
    requires Deliverable(frames, mtu)
    ensures Split(Stream(frames), mtu) == Parse(frames, Incomplete([]))
  {
    hide Length, Header, Pow2, Split;
    if frames == [] {
      SplitNothing(mtu);
    } else {
      var f, rest := frames[0], Stream(frames[1..]);
      SplitFrame(f, rest, mtu);
      SplitStream(frames[1..], mtu);
      assert frames == [f] + frames[1..];
    }
  }

  lemma {:induction false} SplitNothing(mtu: nat)
    ensures Split([], mtu) == Parse([], Incomplete([]))
  {
  }

  /** A frame in front of a stream is the first one found. */
  lemma {:induction false} SplitFrame(f: seq<byte>, rest: seq<byte>, mtu: nat)
    requires |f| <= mtu && |f| < Pow2(32)
    ensures var p := Split(rest, mtu); Split(WithSizeHeader(f) + rest, mtu) == Parse([f] + p.frames, p.tail)
  {
    hide Length, Header, Pow2, Split;
    assert WithSizeHeader(f) + rest == Header(|f|) + (f + rest);
    assert (f + rest)[..|f|] == f && (f + rest)[|f|..] == rest;
    SplitAtHeader(|f|, f + rest, mtu);
  }

  /** However a stream of frames is chunked, a fresh processor delivers exactly those frames. */
  lemma {:induction false} StreamRecovered(frames: seq<seq<byte>>, chunks: seq<seq<byte>>, mtu: nat)
    requires Deliverable(frames, mtu)
    requires Concat(chunks) == Stream(frames)
    ensures ProcessAll(FRESH, chunks, mtu).frames == frames
    ensures ProcessAll(FRESH, chunks, mtu).next.pending == [] && ProcessAll(FRESH, chunks, mtu).next.stale
  {
    hide Length, Header, Pow2;
    SplitStream(frames, mtu);
    assert [] + Stream(frames) == Stream(frames);
    ProcessAllRefines(FRESH, chunks, mtu);
  }
}
