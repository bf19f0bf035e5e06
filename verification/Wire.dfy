/**
 Fields on the wire: primitives written one after another, and the cursor
 that reads them back (vtelem/classes/type_primitive.py, docs/message.md).
 */
module Wire {
  import opened Wrappers
  import opened Primitives

  datatype RawField = Field(prim: Primitive, value: Value)

  /** A primitive together with a value it can hold. */
  type Field = f: RawField | Holds(f.prim, f.value) witness Field(Boolean, Flag(false))

  function Bytes(f: Field): (s: seq<byte>)
    ensures |s| == Size(f.prim)
  {
    Encode(f.prim, f.value)
  }

  function Pack(fs: seq<Field>): seq<byte> {
    if fs == [] then [] else Bytes(fs[0]) + Pack(fs[1..])
  }

  function Prims(fs: seq<Field>): (ps: seq<Primitive>)
    ensures |ps| == |fs|
  {
    seq(|fs|, i requires 0 <= i < |fs| => fs[i].prim)
  }

  function TotalSize(ps: seq<Primitive>): nat {
    if ps == [] then 0 else Size(ps[0]) + TotalSize(ps[1..])
  }

  lemma {:induction false} PackLength(fs: seq<Field>)
    ensures |Pack(fs)| == TotalSize(Prims(fs))
  {
    if fs != [] {
      assert Prims(fs)[1..] == Prims(fs[1..]);
      PackLength(fs[1..]);
    }
  }

  lemma {:induction false} PackAppend(a: seq<Field>, b: seq<Field>)
    ensures Pack(a + b) == Pack(a) + Pack(b)
  {
    if a == [] {
      assert a + b == b;
    } else {
      assert (a + b)[1..] == a[1..] + b;
      PackAppend(a[1..], b);
    }
  }

  lemma {:induction false} PackOne(f: Field)
    ensures Pack([f]) == Bytes(f)
  {
    assert [f][1..] == [];
  }

  function ReadField(p: Primitive, s: seq<byte>, at: nat): (f: Field)
    requires at + Size(p) <= |s|
    ensures f.prim == p
  {
    DecodeHolds(p, s[at..at + Size(p)]);
    Field(p, Decode(p, s[at..at + Size(p)]))
  }

  function Prepend<T>(first: seq<T>, rest: Option<seq<T>>): Option<seq<T>> {
    if rest.None? then None else Some(first + rest.value)
  }

  lemma {:induction false} PrependNone<T>(first: seq<T>, rest: Option<seq<T>>)
    ensures Prepend(first, None) == None
    ensures Prepend(first, Some([])) == Some(first)
    ensures Prepend([], rest) == rest
  {
    assert first + [] == first;
    assert rest.Some? ==> [] + rest.value == rest.value;
  }

  lemma {:induction false} PrependOne<T>(first: seq<T>, x: T, rest: Option<seq<T>>)
    ensures Prepend(first, Prepend([x], rest)) == Prepend(first + [x], rest)
  {
    assert rest.Some? ==> first + ([x] + rest.value) == (first + [x]) + rest.value;
  }

  /** Reading fields of the given types from a position on; nothing, if the bytes run out. */
  function Unpack(ps: seq<Primitive>, s: seq<byte>, at: nat): (r: Option<seq<Field>>)
    ensures r.Some? ==> Prims(r.value) == ps && at + TotalSize(ps) <= |s|
  {
    if ps == [] then
      if at <= |s| then Some([]) else None
    else if at + Size(ps[0]) > |s| then None
    else Prepend([ReadField(ps[0], s, at)], Unpack(ps[1..], s, at + Size(ps[0])))
  }

  /** The field at the end of `before` reads back as written. */
  lemma {:induction false} ReadBack(f: Field, before: seq<byte>, after: seq<byte>)
    ensures ReadField(f.prim, before + Bytes(f) + after, |before|) == f
  {
    var s := before + Bytes(f) + after;
    assert s[|before|..|before| + Size(f.prim)] == Bytes(f);
    DecodeEncode(f.prim, f.value);
  }

  /** Fields read back as written, whatever surrounds them. */
  lemma {:induction false} UnpackPack(fs: seq<Field>, before: seq<byte>, after: seq<byte>)
    ensures Unpack(Prims(fs), before + Pack(fs) + after, |before|) == Some(fs)
  {
    hide Bytes, ReadField;
    var s := before + Pack(fs) + after;
    if fs == [] {
      assert s == before + after;
    } else {
      var f, rest := fs[0], fs[1..];
      assert Prims(fs)[1..] == Prims(rest);
      assert s == before + Bytes(f) + (Pack(rest) + after);
      ReadBack(f, before, Pack(rest) + after);
      assert s == (before + Bytes(f)) + Pack(rest) + after;
      UnpackPack(rest, before + Bytes(f), after);
      assert fs == [f] + rest;
    }
  }

  /** No boolean field among these bytes was written as anything but zero or one. */
  predicate Canonical(ps: seq<Primitive>, s: seq<byte>, at: nat)
    requires at + TotalSize(ps) <= |s|
  {
    ps != [] ==> (ps[0] == Boolean ==> s[at] <= 1) && Canonical(ps[1..], s, at + Size(ps[0]))
  }

  lemma {:induction false} BytesRead(p: Primitive, s: seq<byte>, at: nat)
    requires at + Size(p) <= |s|
    ensures Bytes(ReadField(p, s, at)) == s[at..at + Size(p)] <==> p != Boolean || s[at] <= 1
  {
    EncodeDecode(p, s[at..at + Size(p)]);
  }

  lemma {:induction false} SliceEqual<T>(a: seq<T>, b: seq<T>, s: seq<T>, at: nat)
    requires at + |a| + |b| <= |s|
    ensures a + b == s[at..at + |a| + |b|] <==> a == s[at..at + |a|] && b == s[at + |a|..at + |a| + |b|]
  {
    var whole := s[at..at + |a| + |b|];
    assert whole[..|a|] == s[at..at + |a|] && whole[|a|..] == s[at + |a|..at + |a| + |b|];
    assert whole == whole[..|a|] + whole[|a|..];
    assert (a + b)[..|a|] == a && (a + b)[|a|..] == b;
  }

  lemma {:induction false} UnpackNothing(s: seq<byte>, at: nat)
    requires at <= |s|
    ensures Unpack([], s, at) == Some([]) && Pack([]) == []
  {
  }

  lemma {:induction false} UnpackStep(ps: seq<Primitive>, s: seq<byte>, at: nat)
    requires ps != [] && at + TotalSize(ps) <= |s| && Unpack(ps[1..], s, at + Size(ps[0])).Some?
    ensures var f, rest := ReadField(ps[0], s, at), Unpack(ps[1..], s, at + Size(ps[0])).value;
            Unpack(ps, s, at) == Some([f] + rest) && Pack([f] + rest) == Bytes(f) + Pack(rest)
  {
    hide Bytes, ReadField, Size, Holds;
    var f, rest := ReadField(ps[0], s, at), Unpack(ps[1..], s, at + Size(ps[0])).value;
    assert ([f] + rest)[1..] == rest;
  }

  /** Writing what was read restores the bytes, if and only if the booleans were canonical. */
  lemma {:induction false} PackUnpack(ps: seq<Primitive>, s: seq<byte>, at: nat)
    requires at + TotalSize(ps) <= |s|
    ensures Unpack(ps, s, at).Some?
    ensures |Pack(Unpack(ps, s, at).value)| == TotalSize(ps)
    ensures Pack(Unpack(ps, s, at).value) == s[at..at + TotalSize(ps)] <==> Canonical(ps, s, at)
  {
    hide Bytes, ReadField, Size, Holds, Pack, Unpack;
    if ps == [] {
      UnpackNothing(s, at);
    } else {
      PackUnpack(ps[1..], s, at + Size(ps[0]));
      BytesRead(ps[0], s, at);
      UnpackStep(ps, s, at);
      SliceEqual(Bytes(ReadField(ps[0], s, at)), Pack(Unpack(ps[1..], s, at + Size(ps[0])).value), s, at);
    }
  }
}
