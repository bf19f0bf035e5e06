/**
 One message cut in several ways, as framers with different MTUs cut it. All its
 fragments have one key, and the cache does not compare what it puts together
 with the checksum in that key (vtelem/message/cache.py).
 */
module Cuts {
  import opened Primitives
  import opened Sets
  import opened MessageFramers
  import opened MessageCaches
  import opened Reassembly
  import opened Sequences

  // ---------------------------------------------------------------------
  // Deliveries that do not agree on how many there are
  // ---------------------------------------------------------------------

  /** No delivery but the last can complete the message. */
  predicate Unfinished(ms: seq<ParsedMessage>) {
    forall i :: 0 <= i < |ms| - 1 ==> ms[i].total != i + 1
  }

  lemma {:induction false} CountsMixed(ms: seq<ParsedMessage>)
    requires Unfinished(ms)
    ensures var s := TakenAll(EMPTY, ms);
            && s.fragments == |ms| && s.held.Keys == Indices(ms)
            && (s.complete <==> ms != [] && ms[|ms| - 1].total == |ms|)
  {
    if ms != [] {
      var n := |ms| - 1;
      var before := ms[..n];
      assert forall i :: 0 <= i < n ==> ms[i] == before[i];
      CountsMixed(before);
      IndicesSnoc(ms);
      hide Indices;
    }
  }

  /** What is held of a fragment that came once is what came. */
  lemma {:induction false} HeldMixed(ms: seq<ParsedMessage>, i: nat)
    requires Unfinished(ms) && NoRepeats(ms) && i < |ms|
    ensures var held := TakenAll(EMPTY, ms).held; ms[i].index in held && held[ms[i].index] == ms[i].data
    decreases |ms|
  {
    var n := |ms| - 1;
    var before := ms[..n];
    assert forall j :: 0 <= j < n ==> ms[j] == before[j];
    CountsMixed(before);
    if i < n {
      HeldMixed(before, i);
    }
  }

  /** The last delivery among `ms` with an index. */
  function Latest(ms: seq<ParsedMessage>, x: int): seq<byte>
    requires x in Indices(ms)
  {
    var n := |ms| - 1;
    assert ms != [];
    IndicesSnoc(ms);
    if ms[n].index == x then ms[n].data else Latest(ms[..n], x)
  }

  /** Of a fragment that came more than once, what came last is held. */
  lemma {:induction false} LatestHeld(ms: seq<ParsedMessage>, x: int)
    requires Unfinished(ms) && x in Indices(ms)
    ensures var held := TakenAll(EMPTY, ms).held; x in held && held[x] == Latest(ms, x)
    decreases |ms|
  {
    var n := |ms| - 1;
    var before := ms[..n];
    assert forall j :: 0 <= j < n ==> ms[j] == before[j];
    CountsMixed(before);
    IndicesSnoc(ms);
    hide Indices;
    if ms[n].index != x {
      LatestHeld(before, x);
    }
  }

  /** Completing finds the message, or a gap, by whether the indices are the first ones. */
  lemma {:induction false} MixedCompletion(ms: seq<ParsedMessage>)
    requires ms != [] && Unfinished(ms) && ms[|ms| - 1].total == |ms|
    ensures var n, s, effect := |ms|, TakenAll(EMPTY, ms), EffectsOf(EMPTY, ms)[|ms| - 1];
            && (Indices(ms) == UpTo(n) <==> HoldsFirst(s.held, n))
            && (HoldsFirst(s.held, n) ==> NoRepeats(ms) && effect == Completed(ms[n - 1].number, Content(s.held, n)))
            && (!HoldsFirst(s.held, n) ==> effect == Broken)
  {
    hide NoRepeats, Indices;
    var n, s := |ms|, TakenAll(EMPTY, ms);
    CountsMixed(ms);
    CountsMixed(ms[..n - 1]);
    IndicesSize(ms);
    UpToSize(n);
    if HoldsFirst(s.held, n) {
      assert UpTo(n) <= Indices(ms);
      SubsetSize(UpTo(n), Indices(ms));
      SubsetOfSameSize(UpTo(n), Indices(ms));
    }
  }

  // ---------------------------------------------------------------------
  // Pieces of one message
  // ---------------------------------------------------------------------

  /** The fragment at `index` of a message cut into fragments of `size` bytes, sent under `number`. */
  datatype Piece = Piece(size: nat, index: nat, number: int)

  /** A fragment of a cut whose fragments can be counted. */
  predicate IsPiece(length: nat, p: Piece) {
    p.size > 0 && p.index < FramesRequired(length, p.size) <= 65535
  }

  predicate ArePieces(length: nat, ps: seq<Piece>) {
    forall p | p in ps :: IsPiece(length, p)
  }

  function Delivery(k: Key, whole: seq<byte>, p: Piece): ParsedMessage
    requires IsPiece(|whole|, p)
  {
    FragmentCount(whole, p.size);
    ParsedMessage(k, p.number, p.index, FramesRequired(|whole|, p.size), Fragments(whole, p.size)[p.index])
  }

  function Deliveries(k: Key, whole: seq<byte>, ps: seq<Piece>): seq<ParsedMessage>
    requires ArePieces(|whole|, ps)
  {
    seq(|ps|, i requires 0 <= i < |ps| => assert ps[i] in ps; Delivery(k, whole, ps[i]))
  }

  /** The last of these pieces is the first that makes up the number it states. */
  predicate CompletesLast(length: nat, ps: seq<Piece>)
    requires ArePieces(length, ps)
  {
    && ps != []
    && (assert ps[|ps| - 1] in ps; FramesRequired(length, ps[|ps| - 1].size) == |ps|)
    && forall i :: 0 <= i < |ps| - 1 ==> (assert ps[i] in ps; FramesRequired(length, ps[i].size) != i + 1)
  }

  predicate SameSize(ps: seq<Piece>) {
    forall i, j :: 0 <= i < j < |ps| ==> ps[i].size == ps[j].size
  }

  predicate DistinctIndices(ps: seq<Piece>) {
    forall i, j :: 0 <= i < j < |ps| ==> ps[i].index != ps[j].index
  }

  /** A fragment is the message from its place on. */
  lemma {:induction false} FragmentIs(whole: seq<byte>, size: nat, i: nat)
    requires size > 0 && i < |Fragments(whole, size)|
    ensures i * size < |whole|
    ensures Fragments(whole, size)[i] == whole[i * size..Min(i * size + size, |whole|)]
    decreases |whole|
  {
    if i == 0 {
      assert 0 * size == 0;
    } else {
      var rest := whole[size..];
      OneMore(i - 1, size);
      FragmentIs(rest, size, i - 1);
      var a, b := (i - 1) * size, Min((i - 1) * size + size, |rest|);
      assert rest[a..b] == whole[size + a..size + b];
    }
  }

  // ---------------------------------------------------------------------
  // What pieces of different sizes make up
  // ---------------------------------------------------------------------

  /** The first fragment of one cut, the second of another, and so on. */
  function Spliced(whole: seq<byte>, sizes: seq<nat>, n: nat): seq<byte>
    requires n <= |sizes| && Spliceable(|whole|, sizes)
  {
    if n == 0 then []
    else
      FragmentCount(whole, sizes[n - 1]);
      Spliced(whole, sizes, n - 1) + Fragments(whole, sizes[n - 1])[n - 1]
  }

  predicate Spliceable(length: nat, sizes: seq<nat>) {
    forall i :: 0 <= i < |sizes| ==> sizes[i] > 0 && i < FramesRequired(length, sizes[i])
  }

  /** Zero everywhere but at one place. */
  function Marked(length: nat, at: nat): seq<byte> {
    seq(length, i => if i == at then 1 else 0)
  }

  lemma {:induction false} SplicedPrefix(whole: seq<byte>, sizes: seq<nat>, i: nat, n: nat)
    requires i <= n <= |sizes| && Spliceable(|whole|, sizes)
    ensures Spliced(whole, sizes, i) <= Spliced(whole, sizes, n)
  {
    hide Fragments, FramesRequired;
    if i < n {
      SplicedPrefix(whole, sizes, i, n - 1);
    }
  }

  /** If every message is put together right, each fragment starts where the ones before it end. */
  lemma {:induction false} StartsMeet(length: nat, sizes: seq<nat>, i: nat)
    requires Spliceable(length, sizes) && i < |sizes|
    requires forall whole: seq<byte> | |whole| == length :: Spliced(whole, sizes, |sizes|) == whole
    ensures i * sizes[i] < length
    ensures |Spliced(Marked(length, i * sizes[i]), sizes, i)| == i * sizes[i]
  {
    hide FramesRequired, Fragments;
    var at := i * sizes[i];
    var whole := Marked(length, at);
    FragmentCount(whole, sizes[i]);
    FragmentIs(whole, sizes[i], i);
    SplicedPrefix(whole, sizes, i + 1, |sizes|);
    var before := Spliced(whole, sizes, i);
    assert Spliced(whole, sizes, i + 1)[|before|] == whole[at];
    assert whole[|before|] == 1;
  }

  lemma {:induction false} SplicedLength(a: seq<byte>, b: seq<byte>, sizes: seq<nat>, n: nat)
    requires |a| == |b| && n <= |sizes| && Spliceable(|a|, sizes)
    ensures |Spliced(a, sizes, n)| == |Spliced(b, sizes, n)|
  {
    hide FramesRequired, Fragments;
    if n > 0 {
      SplicedLength(a, b, sizes, n - 1);
      FragmentLength(a, sizes[n - 1], n - 1);
      FragmentLength(b, sizes[n - 1], n - 1);
    }
  }

  lemma {:induction false} FragmentLength(whole: seq<byte>, size: nat, i: nat)
    requires size > 0 && i < FramesRequired(|whole|, size)
    ensures i < |Fragments(whole, size)|
    ensures i * size < |whole| && |Fragments(whole, size)[i]| == Min(i * size + size, |whole|) - i * size
  {
    hide FramesRequired, Fragments;
    FragmentCount(whole, size);
    FragmentIs(whole, size, i);
  }

  /** One fragment after the other, then, all have the size of the first. */
  lemma {:induction false} SizesEqual(length: nat, sizes: seq<nat>, i: nat)
    requires Spliceable(length, sizes) && 0 < i < |sizes|
    requires forall whole: seq<byte> | |whole| == length :: Spliced(whole, sizes, |sizes|) == whole
    ensures sizes[i] == sizes[0]
  {
    hide FramesRequired, Fragments;
    var j, a := i - 1, sizes[0];
    if j > 0 {
      SizesEqual(length, sizes, j);
    }
    StartsMeet(length, sizes, i);
    StartsMeet(length, sizes, j);
    var whole := Marked(length, i * sizes[i]);
    SplicedLength(whole, Marked(length, j * a), sizes, j);
    FragmentCount(whole, a);
    FragmentIs(whole, a, j);
    assert |Spliced(whole, sizes, i)| == j * a + (Min(j * a + a, length) - j * a);
    OneMore(j, a);
    Cancel(i, sizes[i], a);
  }

  lemma {:induction false} Cancel(i: nat, x: nat, y: nat)
    requires i > 0
    ensures i * x == i * y ==> x == y
  {
    if x < y {
      assert i * (y - x) > 0;
    } else if y < x {
      assert i * (x - y) > 0;
    }
  }

  // ---------------------------------------------------------------------
  // When the message comes back
  // ---------------------------------------------------------------------

  /** The size of the piece with an index. */
  function SizeAt(ps: seq<Piece>, x: int): nat {
    if ps == [] then 1 else if ps[|ps| - 1].index == x then ps[|ps| - 1].size else SizeAt(ps[..|ps| - 1], x)
  }

  lemma {:induction false} SizeAtIs(ps: seq<Piece>, i: nat)
    requires DistinctIndices(ps) && i < |ps|
    ensures SizeAt(ps, ps[i].index) == ps[i].size
    decreases |ps|
  {
    if i < |ps| - 1 {
      SizeAtIs(ps[..|ps| - 1], i);
    }
  }

  function SizesOf(ps: seq<Piece>): seq<nat> {
    seq(|ps|, x => SizeAt(ps, x))
  }

  function IndicesOf(ps: seq<Piece>): set<int> {
    set i | 0 <= i < |ps| :: ps[i].index
  }

  /** The pieces are the first ones, each once. */
  predicate Covers(ps: seq<Piece>) {
    DistinctIndices(ps) && IndicesOf(ps) == UpTo(|ps|)
  }

  lemma {:induction false} PieceWith(length: nat, ps: seq<Piece>, x: nat) returns (i: nat)
    requires ArePieces(length, ps) && Covers(ps) && x < |ps|
    ensures i < |ps| && ps[i].index == x && ps[i].size == SizesOf(ps)[x]
    ensures IsPiece(length, ps[i])
  {
    assert x in IndicesOf(ps);
    i :| 0 <= i < |ps| && ps[i].index == x;
    SizeAtIs(ps, i);
    assert ps[i] in ps;
  }

  lemma {:induction false} SizesSpliceable(length: nat, ps: seq<Piece>)
    requires ArePieces(length, ps) && Covers(ps)
    ensures Spliceable(length, SizesOf(ps))
  {
    hide FramesRequired, Covers, ArePieces;
    forall x | 0 <= x < |ps|
      ensures SizesOf(ps)[x] > 0 && x < FramesRequired(length, SizesOf(ps)[x])
    {
      var i := PieceWith(length, ps, x);
    }
  }

  lemma {:induction false} DeliveriesAre(k: Key, whole: seq<byte>, ps: seq<Piece>)
    requires ArePieces(|whole|, ps) && CompletesLast(|whole|, ps)
    ensures var ms := Deliveries(k, whole, ps);
            && ms != [] && Unfinished(ms) && ms[|ms| - 1].total == |ms|
            && (NoRepeats(ms) <==> DistinctIndices(ps))
            && (Indices(ms) == UpTo(|ms|) && NoRepeats(ms) <==> Covers(ps))
  {
    hide FramesRequired, Fragments;
    var ms := Deliveries(k, whole, ps);
    assert forall i :: 0 <= i < |ps| ==> ms[i].index == ps[i].index;
    assert Indices(ms) == IndicesOf(ps);
  }

  lemma {:induction false} HeldIsFragment(k: Key, whole: seq<byte>, ps: seq<Piece>, x: nat)
    requires ArePieces(|whole|, ps) && CompletesLast(|whole|, ps) && Covers(ps) && x < |ps|
    ensures Spliceable(|whole|, SizesOf(ps)) && x < |Fragments(whole, SizesOf(ps)[x])|
    ensures var held := TakenAll(EMPTY, Deliveries(k, whole, ps)).held;
            x in held && held[x] == Fragments(whole, SizesOf(ps)[x])[x]
  {
    hide FramesRequired, Fragments, TakenAll, SizesOf, Covers, CompletesLast, ArePieces, Indices;
    var ms := Deliveries(k, whole, ps);
    SizesSpliceable(|whole|, ps);
    DeliveriesAre(k, whole, ps);
    var i := PieceWith(|whole|, ps, x);
    FragmentCount(whole, ps[i].size);
    assert ms[i] == Delivery(k, whole, ps[i]);
    HeldMixed(ms, i);
  }

  lemma {:induction false} ContentSpliced(k: Key, whole: seq<byte>, ps: seq<Piece>, n: nat)
    requires ArePieces(|whole|, ps) && CompletesLast(|whole|, ps) && Covers(ps) && n <= |ps|
    ensures Spliceable(|whole|, SizesOf(ps))
    ensures var held := TakenAll(EMPTY, Deliveries(k, whole, ps)).held;
            HoldsFirst(held, n) && Content(held, n) == Spliced(whole, SizesOf(ps), n)
  {
    hide FramesRequired, Fragments, TakenAll, SizesOf, Covers, CompletesLast, ArePieces, Deliveries;
    SizesSpliceable(|whole|, ps);
    SizesLength(ps);
    if n > 0 {
      ContentSpliced(k, whole, ps, n - 1);
      HeldIsFragment(k, whole, ps, n - 1);
    }
  }

  lemma {:induction false} SizesLength(ps: seq<Piece>)
    ensures |SizesOf(ps)| == |ps|
  {
  }

  /** What pieces that complete a message bring about: its splice, or a gap. */
  lemma {:induction false} PiecesComplete(k: Key, whole: seq<byte>, ps: seq<Piece>)
    requires ArePieces(|whole|, ps) && CompletesLast(|whole|, ps)
    ensures |EffectsOf(EMPTY, Deliveries(k, whole, ps))| == |ps| > 0
    ensures var effect := EffectsOf(EMPTY, Deliveries(k, whole, ps))[|ps| - 1];
            if Covers(ps)
            then Spliceable(|whole|, SizesOf(ps)) && |SizesOf(ps)| == |ps|
                 && effect == Completed(ps[|ps| - 1].number, Spliced(whole, SizesOf(ps), |ps|))
            else effect == Broken
  {
    hide FramesRequired, Fragments, TakenAll, SizesOf, Covers, EffectsOf, Indices, NoRepeats, Content, Spliced;
    var ms := Deliveries(k, whole, ps);
    DeliveriesAre(k, whole, ps);
    MixedCompletion(ms);
    assert ms[|ms| - 1].number == ps[|ps| - 1].number;
    SizesLength(ps);
    if Covers(ps) {
      ContentSpliced(k, whole, ps, |ps|);
    }
  }

  lemma {:induction false} SpliceOfOne(whole: seq<byte>, sizes: seq<nat>, n: nat)
    requires Spliceable(|whole|, sizes) && n <= |sizes| && forall i :: 0 <= i < |sizes| ==> sizes[i] == sizes[0]
    ensures sizes != [] ==>
              var fs := Fragments(whole, sizes[0]); n <= |fs| && Spliced(whole, sizes, n) == Concat(fs[..n])
  {
    hide Fragments, FramesRequired;
    if sizes != [] {
      FragmentCount(whole, sizes[0]);
      var fs := Fragments(whole, sizes[0]);
      if n > 0 {
        assert sizes[n - 1] == sizes[0];
        SpliceOfOne(whole, sizes, n - 1);
        assert fs[..n] == fs[..n - 1] + [fs[n - 1]];
        ConcatSnoc(fs[..n - 1], fs[n - 1]);
      } else {
        assert fs[..0] == [];
      }
    }
  }

  /** The last piece completes the message, as it was sent. */
  predicate ComesBack(k: Key, whole: seq<byte>, ps: seq<Piece>)
    requires ArePieces(|whole|, ps) && CompletesLast(|whole|, ps)
  {
    EffectsOf(EMPTY, Deliveries(k, whole, ps))[|ps| - 1] == Completed(ps[|ps| - 1].number, whole)
  }

  /**
   Pieces of any cuts of a message bring it back, whatever its bytes, if and only
   if each came once and all are of one cut. Otherwise completing it raises, or
   announces bytes under its key that nobody sent.
   */
  lemma {:induction false} WholeExactly(k: Key, length: nat, ps: seq<Piece>)
    requires ArePieces(length, ps) && CompletesLast(length, ps)
    ensures (forall whole: seq<byte> | |whole| == length :: ComesBack(k, whole, ps))
            <==> DistinctIndices(ps) && SameSize(ps)
  {
    hide FramesRequired, Fragments, EffectsOf, ArePieces, CompletesLast, Deliveries, Spliced, SizesOf;
    if DistinctIndices(ps) && SameSize(ps) {
      OneCutCovers(length, ps);
      forall whole: seq<byte> | |whole| == length
        ensures ComesBack(k, whole, ps)
      {
        PiecesComplete(k, whole, ps);
        OneCutWhole(whole, ps);
      }
    }
    if forall whole: seq<byte> | |whole| == length :: ComesBack(k, whole, ps) {
      PiecesComplete(k, Marked(length, 0), ps);
      assert ComesBack(k, Marked(length, 0), ps);
      forall whole: seq<byte> | |whole| == length
        ensures Spliced(whole, SizesOf(ps), |ps|) == whole
      {
        assert ComesBack(k, whole, ps);
        PiecesComplete(k, whole, ps);
      }
      AllSizesEqual(length, ps);
    }
  }

  /** Distinct pieces of one cut, as many as it has, are all of them. */
  lemma {:induction false} OneCutCovers(length: nat, ps: seq<Piece>)
    requires ArePieces(length, ps) && CompletesLast(length, ps) && DistinctIndices(ps) && SameSize(ps)
    ensures Covers(ps)
  {
    var k, whole := Key(Agnostic, 0), Marked(length, 0);
    var ms := Deliveries(k, whole, ps);
    DeliveriesAre(k, whole, ps);
    forall i | 0 <= i < |ms|
      ensures ms[i].total == |ps| && 0 <= ms[i].index < |ps|
    {
      assert ps[i] in ps;
      assert ps[i].size == ps[|ps| - 1].size;
    }
    Pigeonhole(ms, |ps|);
  }

  lemma {:induction false} OneCutWhole(whole: seq<byte>, ps: seq<Piece>)
    requires ArePieces(|whole|, ps) && CompletesLast(|whole|, ps) && Covers(ps) && SameSize(ps)
    ensures Spliceable(|whole|, SizesOf(ps)) && |SizesOf(ps)| == |ps|
    ensures Spliced(whole, SizesOf(ps), |ps|) == whole
  {
    hide Fragments, Spliced, Concat;
    var sizes, n := SizesOf(ps), |ps|;
    SizesSpliceable(|whole|, ps);
    forall x | 0 <= x < n
      ensures sizes[x] == ps[n - 1].size
    {
      var i := PieceWith(|whole|, ps, x);
    }
    SpliceOfOne(whole, sizes, n);
    FragmentCount(whole, sizes[0]);
    FragmentsCover(whole, sizes[0]);
    var fs := Fragments(whole, sizes[0]);
    assert fs[..n] == fs;
  }

  lemma {:induction false} AllSizesEqual(length: nat, ps: seq<Piece>)
    requires ArePieces(length, ps) && Covers(ps) && ps != []
    requires Spliceable(length, SizesOf(ps)) && |SizesOf(ps)| == |ps|
    requires forall whole: seq<byte> | |whole| == length :: Spliced(whole, SizesOf(ps), |ps|) == whole
    ensures SameSize(ps)
  {
    hide FramesRequired, Spliced;
    assert forall i :: 0 <= i < |ps| ==> ps[i] in ps;
    var sizes := SizesOf(ps);
    forall x | 0 < x < |ps|
      ensures sizes[x] == sizes[0]
    {
      SizesEqual(length, sizes, x);
    }
    forall i | 0 <= i < |ps|
      ensures ps[i].size == sizes[0]
    {
      IndexInRange(ps, i);
      SizeAtIs(ps, i);
      var x := ps[i].index;
      assert sizes[x] == SizeAt(ps, x);
      assert x > 0 ==> sizes[x] == sizes[0];
    }
  }

  lemma {:induction false} IndexInRange(ps: seq<Piece>, i: nat)
    requires Covers(ps) && i < |ps|
    ensures ps[i].index < |ps|
  {
    assert ps[i].index in IndicesOf(ps);
  }

  /** The first of three fragments and the second of two: two bytes of a message of three are announced for it. */
  lemma {:induction false} SplicedExample(k: Key, a: byte, b: byte, c: byte)
    ensures var ps := [Piece(1, 0, 0), Piece(2, 1, 1)];
            && ArePieces(3, ps)
            && |EffectsOf(EMPTY, Deliveries(k, [a, b, c], ps))| == 2
            && EffectsOf(EMPTY, Deliveries(k, [a, b, c], ps))[1] == Completed(1, [a, c])
  {
    hide EffectsOf, TakenAll;
    var whole, ps := [a, b, c], [Piece(1, 0, 0), Piece(2, 1, 1)];
    assert FramesRequired(3, 1) == 3 && FramesRequired(3, 2) == 2;
    assert ArePieces(3, ps) && CompletesLast(3, ps);
    assert ps[0].index == 0 && ps[1].index == 1;
    assert IndicesOf(ps) == {0, 1} == UpTo(2);
    PiecesComplete(k, whole, ps);
    var sizes := SizesOf(ps);
    assert ps[..1] == [Piece(1, 0, 0)];
    assert sizes[0] == 1 && sizes[1] == 2;
    FragmentCount(whole, 1);
    FragmentCount(whole, 2);
    FragmentIs(whole, 1, 0);
    FragmentIs(whole, 2, 1);
    assert Spliced(whole, sizes, 1) == [a];
    assert Spliced(whole, sizes, 2) == [a] + [c];
  }
}
