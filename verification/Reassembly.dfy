/** When a message is complete, and what it is then (vtelem/message/cache.py). */
module Reassembly {
  import opened Wrappers
  import opened Primitives
  import opened Sets
  import opened MessageCaches
  import opened Sequences

  /** Fragments that agree on how many there are, each within range. */
  predicate Agreeing(ms: seq<ParsedMessage>, total: int) {
    forall i :: 0 <= i < |ms| ==> ms[i].total == total && 0 <= ms[i].index < total
  }

  predicate NoRepeats(ms: seq<ParsedMessage>) {
    forall i, j :: 0 <= i < j < |ms| ==> ms[i].index != ms[j].index
  }

  function Indices(ms: seq<ParsedMessage>): set<int> {
    set i | 0 <= i < |ms| :: ms[i].index
  }

  function UpTo(n: nat): (r: set<int>)
    ensures forall i :: i in r <==> 0 <= i < n
  {
    if n == 0 then {} else UpTo(n - 1) + {n - 1}
  }

  // ---------------------------------------------------------------------
  // Counting
  // ---------------------------------------------------------------------

  lemma {:induction false} UpToSize(n: nat)
    ensures |UpTo(n)| == n
  {
    if n > 0 {
      UpToSize(n - 1);
    }
  }

  lemma {:induction false} IndicesSnoc(ms: seq<ParsedMessage>)
    requires ms != []
    ensures Indices(ms) == Indices(ms[..|ms| - 1]) + {ms[|ms| - 1].index}
  {
    var n := |ms| - 1;
    forall x | x in Indices(ms)
      ensures x in Indices(ms[..n]) + {ms[n].index}
    {
      var i :| 0 <= i <= n && ms[i].index == x;
      assert i < n ==> ms[..n][i].index == x;
    }
    forall x | x in Indices(ms[..n])
      ensures x in Indices(ms)
    {
      var i :| 0 <= i < n && ms[..n][i].index == x;
      assert ms[i].index == x;
    }
    assert ms[n].index in Indices(ms);
  }

  /** There are as many distinct indices as fragments exactly if none repeats. */
  lemma {:induction false} IndicesSize(ms: seq<ParsedMessage>)
    ensures |Indices(ms)| <= |ms|
    ensures |Indices(ms)| == |ms| <==> NoRepeats(ms)
  {
    if ms != [] {
      var n := |ms| - 1;
      IndicesSize(ms[..n]);
      IndicesSnoc(ms);
      NoRepeatsSnoc(ms);
      hide Indices, NoRepeats;
      assert ms[n].index in Indices(ms[..n]) ==> Indices(ms) == Indices(ms[..n]);
    }
  }

  lemma {:induction false} NoRepeatsSnoc(ms: seq<ParsedMessage>)
    requires ms != []
    ensures var n := |ms| - 1;
            NoRepeats(ms) <==> NoRepeats(ms[..n]) && ms[n].index !in Indices(ms[..n])
  {
    var n := |ms| - 1;
    var before := ms[..n];
    assert forall i :: 0 <= i < n ==> before[i] == ms[i];
    forall i | 0 <= i < n
      ensures before[i].index in Indices(before)
    {
    }
    if ms[n].index in Indices(before) {
      var i :| 0 <= i < n && before[i].index == ms[n].index;
      assert ms[i].index == ms[n].index;
    }
  }

  /** As many fragments as there are indices cover every index exactly if none repeats. */
  lemma {:induction false} Pigeonhole(ms: seq<ParsedMessage>, total: nat)
    requires Agreeing(ms, total) && |ms| == total
    ensures NoRepeats(ms) <==> Indices(ms) == UpTo(total)
  {
    UpToSize(total);
    IndicesSize(ms);
    assert Indices(ms) <= UpTo(total);
    if NoRepeats(ms) {
      SubsetOfSameSize(Indices(ms), UpTo(total));
    }
  }

  // ---------------------------------------------------------------------
  // Completion
  // ---------------------------------------------------------------------

  /** While a message is incomplete its counter is the number of deliveries, repeated or not. */
  lemma {:induction false} CountsDeliveries(ms: seq<ParsedMessage>, total: int)
    requires Agreeing(ms, total) && |ms| <= total
    ensures var s := TakenAll(EMPTY, ms);
            && s.fragments == |ms| && s.held.Keys == Indices(ms)
            && (s.complete <==> 0 < |ms| == total)
            && (ms != [] && s.complete ==> s.number == Some(ms[|ms| - 1].number))
    ensures forall i :: 0 <= i < |ms| && i + 1 < total ==> EffectsOf(EMPTY, ms)[i] == Quiet
  {
    if ms != [] {
      var n := |ms| - 1;
      var before := ms[..n];
      assert forall i :: 0 <= i < n ==> ms[i] == before[i];
      CountsDeliveries(before, total);
      IndicesSnoc(ms);
    }
  }

  /**
   The last of as many deliveries as there are fragments completes the message
   if no fragment was repeated, and breaks it for good if one was.
   */
  lemma {:induction false} CompletionExactly(ms: seq<ParsedMessage>, total: nat)
    requires Agreeing(ms, total) && |ms| == total > 0
    ensures var s := TakenAll(EMPTY, ms);
            var effect := EffectsOf(EMPTY, ms)[total - 1];
            && s.complete
            && (forall i :: 0 <= i < total - 1 ==> EffectsOf(EMPTY, ms)[i] == Quiet)
            && (NoRepeats(ms) <==> HoldsFirst(s.held, s.fragments))
            && (NoRepeats(ms) ==> effect == Completed(ms[total - 1].number, Content(s.held, s.fragments)))
            && (!NoRepeats(ms) ==> effect == Broken)
  {
    hide NoRepeats;
    CountsDeliveries(ms, total);
    CountsDeliveries(ms[..total - 1], total);
    Pigeonhole(ms, total);
    var s := TakenAll(EMPTY, ms);
    assert HoldsFirst(s.held, total) <==> s.held.Keys == UpTo(total) by {
      assert Indices(ms) <= UpTo(total);
      if HoldsFirst(s.held, total) {
        assert forall x :: x in UpTo(total) ==> x in s.held.Keys;
      }
    }
  }

  /** The first of two fragments delivered twice: the message counts as complete, and reading it raises. */
  lemma {:induction false} RepeatBreaks(k: Key, number: int, data: seq<byte>)
    ensures var m := ParsedMessage(k, number, 0, 2, data);
            && EffectsOf(EMPTY, [m, m])[0] == Quiet && EffectsOf(EMPTY, [m, m])[1] == Broken
            && TakenAll(EMPTY, [m, m]).complete && 1 !in TakenAll(EMPTY, [m, m]).held
  {
    hide EffectsOf, TakenAll;
    var m := ParsedMessage(k, number, 0, 2, data);
    var ms := [m, m];
    assert !NoRepeats(ms) by { assert ms[0].index == ms[1].index; }
    CompletionExactly(ms, 2);
    CountsDeliveries(ms, 2);
  }

  /** Once complete, deliveries change the stored number and nothing else. */
  lemma {:induction false} RepeatsAreQuiet(s: Slot, ms: seq<ParsedMessage>)
    requires s.complete
    ensures TakenAll(s, ms) == if ms == [] then s else s.(number := Some(ms[|ms| - 1].number))
    ensures forall i :: 0 <= i < |ms| ==> EffectsOf(s, ms)[i] == Quiet
  {
    if ms != [] {
      RepeatsAreQuiet(s, ms[..|ms| - 1]);
    }
  }

  lemma {:induction false} TakenAllAppend(s: Slot, a: seq<ParsedMessage>, b: seq<ParsedMessage>)
    ensures TakenAll(s, a + b) == TakenAll(TakenAll(s, a), b)
    ensures EffectsOf(s, a + b) == EffectsOf(s, a) + EffectsOf(TakenAll(s, a), b)
  {
    if b == [] {
      assert a + b == a;
    } else {
      var n := |b| - 1;
      assert (a + b)[..|a + b| - 1] == a + b[..n];
      TakenAllAppend(s, a, b[..n]);
    }
  }

  /** A total that did not fit its field arrives as zero, and such a message never completes. */
  lemma {:induction false} ZeroTotalNeverCompletes(ms: seq<ParsedMessage>)
    requires forall m | m in ms :: m.total == 0
    ensures !TakenAll(EMPTY, ms).complete && TakenAll(EMPTY, ms).fragments == |ms|
    ensures forall i :: 0 <= i < |ms| ==> EffectsOf(EMPTY, ms)[i] == Quiet
  {
    if ms != [] {
      ZeroTotalNeverCompletes(ms[..|ms| - 1]);
    }
  }

  // ---------------------------------------------------------------------
  // Content
  // ---------------------------------------------------------------------

  /** Each delivery carries the fragment its index names. */
  predicate Carries(ms: seq<ParsedMessage>, fragments: seq<seq<byte>>) {
    forall i :: 0 <= i < |ms| ==> 0 <= ms[i].index < |fragments| && ms[i].data == fragments[ms[i].index]
  }

  lemma {:induction false} HeldFragments(ms: seq<ParsedMessage>, fragments: seq<seq<byte>>)
    requires Carries(ms, fragments) && Agreeing(ms, |fragments|) && |ms| <= |fragments|
    ensures var held := TakenAll(EMPTY, ms).held;
            forall x | x in held :: 0 <= x < |fragments| && held[x] == fragments[x]
  {
    if ms != [] {
      var before := ms[..|ms| - 1];
      assert forall i :: 0 <= i < |before| ==> before[i] == ms[i];
      HeldFragments(before, fragments);
      CountsDeliveries(before, |fragments|);
    }
  }

  lemma {:induction false} ContentIsWhole(held: map<int, seq<byte>>, fragments: seq<seq<byte>>, n: nat)
    requires n <= |fragments| && HoldsFirst(held, n)
    requires forall x | x in held :: 0 <= x < |fragments| && held[x] == fragments[x]
    ensures Content(held, n) == Concat(fragments[..n])
  {
    if n > 0 {
      ContentIsWhole(held, fragments, n - 1);
      assert fragments[..n] == fragments[..n - 1] + [fragments[n - 1]];
      ConcatSnoc(fragments[..n - 1], fragments[n - 1]);
    }
  }

  /** All fragments of a message, each once and in any order, give back the message on the last of them. */
  lemma {:induction false} Reassembles(ms: seq<ParsedMessage>, fragments: seq<seq<byte>>)
    requires Carries(ms, fragments) && Agreeing(ms, |fragments|) && NoRepeats(ms) && |ms| == |fragments| > 0
    ensures var n := |ms| - 1;
            && (forall i :: 0 <= i < n ==> EffectsOf(EMPTY, ms)[i] == Quiet)
            && EffectsOf(EMPTY, ms)[n] == Completed(ms[n].number, Concat(fragments))
            && TakenAll(EMPTY, ms).complete && TakenAll(EMPTY, ms).number == Some(ms[n].number)
  {
    CompletionExactly(ms, |fragments|);
    CountsDeliveries(ms, |fragments|);
    HeldFragments(ms, fragments);
    hide NoRepeats, EffectsOf, TakenAll;
    var s := TakenAll(EMPTY, ms);
    ContentIsWhole(s.held, fragments, |fragments|);
    assert fragments[..|fragments|] == fragments;
  }

  /** Deliveries after the last fragment change nothing but the number: the message completes once, as sent. */
  lemma {:induction false} ReassemblesOnce(ms: seq<ParsedMessage>, later: seq<ParsedMessage>, fragments: seq<seq<byte>>)
    requires Carries(ms, fragments) && Agreeing(ms, |fragments|) && NoRepeats(ms) && |ms| == |fragments| > 0
    ensures var n := |ms| - 1;
            forall i :: 0 <= i < |ms + later| ==>
              EffectsOf(EMPTY, ms + later)[i] == if i == n then Completed(ms[n].number, Concat(fragments)) else Quiet
    ensures var s := TakenAll(EMPTY, ms);
            TakenAll(EMPTY, ms + later) == if later == [] then s else s.(number := Some(later[|later| - 1].number))
  {
    Reassembles(ms, fragments);
    hide NoRepeats, EffectsOf, TakenAll;
    TakenAllAppend(EMPTY, ms, later);
    RepeatsAreQuiet(TakenAll(EMPTY, ms), later);
  }
}
