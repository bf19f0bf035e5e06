/** Packing items into frames, first come first served, and why no other way needs fewer frames. */
module Packing {
  import opened Primitives
  import opened Frames
  import opened Sequences

  /** Frames already closed, and the items of the one being filled. */
  datatype Packed = Packed(closed: seq<seq<Item>>, open: seq<Item>)

  function Put(p: Packed, x: Item, capacity: nat): Packed {
    if ItemsSize(p.open) + ItemSize(x) <= capacity then Packed(p.closed, p.open + [x])
    else Packed(p.closed + [p.open], [x])
  }

  function PutAll(items: seq<Item>, capacity: nat): Packed {
    if items == [] then Packed([], []) else Put(PutAll(items[..|items| - 1], capacity), items[|items| - 1], capacity)
  }

  /** The frames in the end: the open one is closed if anything was put at all. */
  function Greedy(items: seq<Item>, capacity: nat): seq<seq<Item>> {
    var p := PutAll(items, capacity);
    if items == [] then p.closed else p.closed + [p.open]
  }

  lemma {:induction false} PutOne(items: seq<Item>, x: Item, capacity: nat)
    ensures PutAll(items + [x], capacity) == Put(PutAll(items, capacity), x, capacity)
  {
    hide Put;
    assert (items + [x])[..|items|] == items;
  }

  /** A way to cut the items into consecutive frames within the capacity. */
  predicate Splits(groups: seq<seq<Item>>, items: seq<Item>, capacity: nat) {
    Concat(groups) == items && forall g | g in groups :: ItemsSize(g) <= capacity
  }

  predicate AllFit(items: seq<Item>, capacity: nat) {
    forall i | i in items :: ItemSize(i) <= capacity
  }

  /** Nothing is lost or reordered, no closed frame is empty and none is too large. */
  predicate Sound(p: Packed, items: seq<Item>, capacity: nat) {
    && Concat(p.closed) + p.open == items
    && ItemsSize(p.open) <= capacity && (items != [] ==> p.open != [])
    && forall g | g in p.closed :: g != [] && ItemsSize(g) <= capacity
  }

  lemma {:induction false} PutSound(p: Packed, items: seq<Item>, x: Item, capacity: nat)
    requires Sound(p, items, capacity) && ItemSize(x) <= capacity
    ensures Sound(Put(p, x, capacity), items + [x], capacity)
  {
    hide ItemSize, ItemsSize, Concat, IntegerBounds;
    if ItemsSize(p.open) + ItemSize(x) <= capacity {
      ItemsAppend(p.open, [x]);
      ItemsOne(x);
      assert Concat(p.closed) + (p.open + [x]) == items + [x];
    } else {
      NothingFits(x, capacity);
      ItemsOne(x);
      ConcatSnoc(p.closed, p.open);
    }
  }

  lemma {:induction false} NothingFits(x: Item, capacity: nat)
    requires ItemSize(x) <= capacity
    ensures ItemsSize([]) + ItemSize(x) <= capacity
  {
  }

  /** If every item fits a frame by itself, the packing is sound. */
  lemma {:induction false} PutAllSound(items: seq<Item>, capacity: nat)
    requires AllFit(items, capacity)
    ensures Sound(PutAll(items, capacity), items, capacity)
  {
    if items != [] {
      var n := |items| - 1;
      assert items == items[..n] + [items[n]];
      PutAllSound(items[..n], capacity);
      hide Sound, Put, ItemSize, IntegerBounds;
      PutSound(PutAll(items[..n], capacity), items[..n], items[n], capacity);
    }
  }

  lemma {:induction false} GreedySplits(items: seq<Item>, capacity: nat)
    requires AllFit(items, capacity)
    ensures Splits(Greedy(items, capacity), items, capacity)
    ensures forall g | g in Greedy(items, capacity) :: g != []
  {
    PutAllSound(items, capacity);
    var p := PutAll(items, capacity);
    ConcatSnoc(p.closed, p.open);
  }

  /** No more frames than some number, or as many with the last filled no further than some size. */
  predicate Ahead(p: Packed, frames: nat, filled: nat) {
    |p.closed| + 1 < frames || (|p.closed| + 1 == frames && ItemsSize(p.open) <= filled)
  }

  lemma {:induction false} ItemsNone()
    ensures ItemsSize([]) == 0
  {
  }

  /** If another split puts an item into its last frame, greedy packing stays ahead with it. */
  lemma {:induction false} StaysAhead(p: Packed, x: Item, capacity: nat, frames: nat, filled: nat)
    requires Ahead(p, frames, filled) && filled + ItemSize(x) <= capacity
    ensures Ahead(Put(p, x, capacity), frames, filled + ItemSize(x))
  {
    hide ItemSize, ItemsSize;
    ItemsAppend(p.open, [x]);
    ItemsOne(x);
  }

  /**
   At every point, greedy packing has used no more frames than any split, or as
   many and filled the last no further.
   */
  lemma {:induction false} GreedyAhead(items: seq<Item>, capacity: nat, other: seq<seq<Item>>)
    requires Splits(other, items, capacity) && other != []
    ensures Ahead(PutAll(items, capacity), |other|, ItemsSize(other[|other| - 1]))
    decreases |other|, |items|
  {
    hide ItemSize, Put, Concat;
    if items == [] {
      ItemsNone();
    } else {
      var n := |other| - 1;
      var front, last := other[..n], other[n];
      assert other == front + [last];
      ConcatSnoc(front, last);
      if last == [] {
        ConcatNothing<Item>();
        assert Concat(front) == items;
        GreedyAhead(items, capacity, front);
      } else {
        var m := |items| - 1;
        var x, rest := items[m], last[..|last| - 1];
        assert last == rest + [last[|last| - 1]];
        assert items == (Concat(front) + rest) + [x];
        var fewer := front + [rest];
        ConcatSnoc(front, rest);
        assert items[..m] == Concat(front) + rest;
        ItemsAppend(rest, [x]);
        ItemsOne(x);
        assert Splits(fewer, items[..m], capacity);
        GreedyAhead(items[..m], capacity, fewer);
        hide ItemsSize, Ahead;
        StaysAhead(PutAll(items[..m], capacity), x, capacity, |other|, ItemsSize(rest));
      }
    }
  }

  /** No split of the same items into consecutive frames has fewer frames. */
  lemma {:induction false} GreedyOptimal(items: seq<Item>, capacity: nat, other: seq<seq<Item>>)
    requires Splits(other, items, capacity)
    ensures |Greedy(items, capacity)| <= |other|
  {
    if items != [] {
      GreedyAhead(items, capacity, other);
    }
  }

  lemma {:induction false} CountBelowSize(items: seq<Item>)
    ensures |items| <= ItemsSize(items)
  {
    if items != [] {
      CountBelowSize(items[1..]);
    }
  }
}
