/** Operating on daemons in dependency order (vtelem/daemon/manager.py). */
module Scheduling {
  import opened Wrappers
  import opened Sets

  /** Which daemons each daemon depends on; an absent entry means none. */
  type Dependencies = map<string, seq<string>>

  function DepsOf(deps: Dependencies, n: string): seq<string> {
    if n in deps then deps[n] else []
  }

  function Names(s: seq<string>): set<string> {
    set n | n in s
  }

  // ---------------------------------------------------------------------
  // The worklist, one step at a time
  // ---------------------------------------------------------------------

  /** The names still to handle, popped from the back, and the names handled so far. */
  datatype Work = Work(stack: seq<string>, executed: seq<string>)

  function Missing(ds: seq<string>, executed: seq<string>): seq<string> {
    if ds == [] then []
    else
      var before, last := Missing(ds[..|ds| - 1], executed), ds[|ds| - 1];
      if last in executed then before else before + [last]
  }

  /** A name whose dependencies are missing goes to the front of the stack, with them before it. */
  function Step(deps: Dependencies, w: Work): Work
    requires w.stack != []
  {
    var curr, rest := w.stack[|w.stack| - 1], w.stack[..|w.stack| - 1];
    var missing := Missing(DepsOf(deps, curr), w.executed);
    if curr in w.executed then Work(rest, w.executed)
    else if missing != [] then Work(missing + [curr] + rest, w.executed)
    else Work(rest, w.executed + [curr])
  }

  function Steps(deps: Dependencies, w: Work, k: nat): Work
    decreases k
  {
    if k == 0 || w.stack == [] then w else Steps(deps, Step(deps, w), k - 1)
  }

  ghost predicate FinishesWith(deps: Dependencies, w: Work, executed: seq<string>) {
    exists k: nat :: Steps(deps, w, k) == Work([], executed)
  }

  lemma {:induction false} MissingMembers(ds: seq<string>, executed: seq<string>)
    ensures forall d :: d in Missing(ds, executed) <==> d in ds && d !in executed
  {
    if ds != [] {
      var n := |ds| - 1;
      MissingMembers(ds[..n], executed);
      assert ds == ds[..n] + [ds[n]];
    }
  }

  /** The missing ones of some dependencies are in the order of those. */
  lemma {:induction false} MissingInOrder(a: seq<string>, b: seq<string>, executed: seq<string>)
    ensures Missing(a + b, executed) == Missing(a, executed) + Missing(b, executed)
    ensures (forall d | d in a :: d !in executed) ==> Missing(a, executed) == a
  {
    MissingAppend(a, b, executed);
    MissingNone(a, executed);
  }

  lemma {:induction false} MissingAppend(a: seq<string>, b: seq<string>, executed: seq<string>)
    ensures Missing(a + b, executed) == Missing(a, executed) + Missing(b, executed)
  {
    if b == [] {
      assert a + b == a;
    } else {
      assert (a + b)[..|a + b| - 1] == a + b[..|b| - 1];
      MissingAppend(a, b[..|b| - 1], executed);
    }
  }

  lemma {:induction false} MissingNone(a: seq<string>, executed: seq<string>)
    ensures (forall d | d in a :: d !in executed) ==> Missing(a, executed) == a
  {
    if a != [] {
      MissingNone(a[..|a| - 1], executed);
      assert a == a[..|a| - 1] + [a[|a| - 1]];
    }
  }

  // ---------------------------------------------------------------------
  // Termination
  // ---------------------------------------------------------------------

  /** A set of names that contains the dependencies of its members. */
  predicate Closed(deps: Dependencies, universe: set<string>) {
    forall n, d :: n in universe && d in DepsOf(deps, n) ==> d in universe
  }

  /** Dependencies rank strictly lower. */
  predicate Ranked(deps: Dependencies, universe: set<string>, rank: string -> nat) {
    forall n, d :: n in universe && d in DepsOf(deps, n) ==> rank(d) < rank(n)
  }

  predicate Within(w: Work, universe: set<string>) {
    Names(w.stack) <= universe && Names(w.executed) <= universe
  }

  /** The position nearest the back of an unhandled name of least rank. */
  function Target(stack: seq<string>, executed: seq<string>, rank: string -> nat): (r: Option<nat>)
    ensures r.None? ==> forall i :: 0 <= i < |stack| ==> stack[i] in executed
    ensures r.Some? ==>
              && r.value < |stack| && stack[r.value] !in executed
              && (forall i :: 0 <= i < |stack| && stack[i] !in executed ==>
                    rank(stack[r.value]) <= rank(stack[i]) && (i > r.value ==> rank(stack[r.value]) < rank(stack[i])))
  {
    if stack == [] then None
    else
      var n := |stack| - 1;
      var before := Target(stack[..n], executed, rank);
      if stack[n] in executed then before
      else if before.None? || rank(stack[n]) <= rank(stack[before.value]) then Some(n)
      else before
  }

  function LeastRank(w: Work, rank: string -> nat): nat {
    var t := Target(w.stack, w.executed, rank);
    if t.None? then 0 else rank(w.stack[t.value])
  }

  /** How many pops away the target is. */
  function Distance(w: Work, rank: string -> nat): nat {
    var t := Target(w.stack, w.executed, rank);
    if t.None? then |w.stack| else |w.stack| - t.value
  }

  function Unhandled(w: Work, universe: set<string>): nat {
    |universe - Names(w.executed)|
  }

  /** The lexicographic order in which every step goes down, although the stack may grow. */
  predicate Below(a: Work, b: Work, universe: set<string>, rank: string -> nat) {
    || Unhandled(a, universe) < Unhandled(b, universe)
    || (Unhandled(a, universe) == Unhandled(b, universe) && LeastRank(a, rank) < LeastRank(b, rank))
    || (Unhandled(a, universe) == Unhandled(b, universe) && LeastRank(a, rank) == LeastRank(b, rank)
        && Distance(a, rank) < Distance(b, rank))
  }

  lemma {:induction false} StepWithin(deps: Dependencies, w: Work, universe: set<string>)
    requires w.stack != [] && Within(w, universe) && Closed(deps, universe)
    ensures Within(Step(deps, w), universe)
  {
    var n := |w.stack| - 1;
    var curr, rest := w.stack[n], w.stack[..n];
    assert curr in Names(w.stack);
    MissingMembers(DepsOf(deps, curr), w.executed);
    assert Names(rest) <= Names(w.stack);
  }

  /** Handling a name leaves fewer to handle. */
  lemma {:induction false} HandledDecreases(w: Work, curr: string, universe: set<string>)
    requires curr in universe && curr !in w.executed
    ensures |universe - Names(w.executed + [curr])| < Unhandled(w, universe)
  {
    var a, b := universe - Names(w.executed + [curr]), universe - Names(w.executed);
    assert curr in b && curr !in a;
    assert a <= b - {curr} by {
      forall x | x in a
        ensures x in b && x != curr
      {
        assert x !in w.executed + [curr];
      }
    }
    SubsetSize(a, b - {curr});
  }

  /** Deferring a name either finds a name of lower rank, or brings the target nearer. */
  lemma {:induction false} DeferredDecreases(deps: Dependencies, w: Work, rank: string -> nat, universe: set<string>)
    requires w.stack != [] && Ranked(deps, universe, rank) && w.stack[|w.stack| - 1] in universe
    requires var curr := w.stack[|w.stack| - 1];
             curr !in w.executed && Missing(DepsOf(deps, curr), w.executed) != []
    ensures Below(Step(deps, w), w, universe, rank)
  {
    var n := |w.stack| - 1;
    var curr, rest := w.stack[n], w.stack[..n];
    var missing := Missing(DepsOf(deps, curr), w.executed);
    MissingMembers(DepsOf(deps, curr), w.executed);
    var next := Step(deps, w);
    var t, u := Target(w.stack, w.executed, rank), Target(next.stack, next.executed, rank);
    if t.value == n {
      assert next.stack[0] == missing[0] && missing[0] in missing;
      assert rank(missing[0]) < rank(curr);
    } else {
      var p := |missing| + 1 + t.value;
      assert next.stack[p] == w.stack[t.value];
    }
  }

  lemma {:induction false} StepDecreases(deps: Dependencies, w: Work, universe: set<string>, rank: string -> nat)
    requires w.stack != [] && Within(w, universe) && Ranked(deps, universe, rank)
    ensures Below(Step(deps, w), w, universe, rank)
  {
    var n := |w.stack| - 1;
    var curr := w.stack[n];
    assert curr in Names(w.stack);
    if curr in w.executed {
    } else if Missing(DepsOf(deps, curr), w.executed) != [] {
      DeferredDecreases(deps, w, rank, universe);
    } else {
      HandledDecreases(w, curr, universe);
    }
  }

  /** Over names that can be ranked, the worklist runs empty. */
  lemma {:induction false} RankedFinishes(deps: Dependencies, w: Work, universe: set<string>, rank: string -> nat)
    returns (k: nat)
    requires Within(w, universe) && Closed(deps, universe) && Ranked(deps, universe, rank)
    ensures Steps(deps, w, k).stack == []
    decreases Unhandled(w, universe), LeastRank(w, rank), Distance(w, rank)
  {
    hide Step, Unhandled, LeastRank, Distance, Within, Closed, Ranked;
    if w.stack == [] {
      k := 0;
    } else {
      StepDecreases(deps, w, universe, rank);
      StepWithin(deps, w, universe);
      var j := RankedFinishes(deps, Step(deps, w), universe, rank);
      k := j + 1;
    }
  }

  // ---------------------------------------------------------------------
  // Order and coverage
  // ---------------------------------------------------------------------

  /** A name is a root, or some chain of dependencies leads to it. */
  ghost predicate Reaches(deps: Dependencies, roots: seq<string>, n: string, length: nat)
    decreases length
  {
    if length == 0 then n in roots
    else exists m :: Reaches(deps, roots, m, length - 1) && n in DepsOf(deps, m)
  }

  ghost predicate Reachable(deps: Dependencies, roots: seq<string>, n: string) {
    exists k: nat :: Reaches(deps, roots, n, k)
  }

  predicate Distinct(s: seq<string>) {
    forall i, j :: 0 <= i < j < |s| ==> s[i] != s[j]
  }

  /** Every name comes after all of its dependencies. */
  predicate InOrder(deps: Dependencies, executed: seq<string>) {
    forall i, d :: 0 <= i < |executed| && d in DepsOf(deps, executed[i]) ==> d in executed[..i]
  }

  /** What holds of the worklist at every moment. */
  ghost predicate Invariant(deps: Dependencies, roots: seq<string>, w: Work) {
    && Distinct(w.executed) && InOrder(deps, w.executed)
    && (forall n | n in roots :: n in w.executed || n in w.stack)
    && (forall n | n in w.stack :: Reachable(deps, roots, n))
    && (forall n | n in w.executed :: Reachable(deps, roots, n))
  }

  lemma {:induction false} DependencyReachable(deps: Dependencies, roots: seq<string>, n: string, d: string)
    requires Reachable(deps, roots, n) && d in DepsOf(deps, n)
    ensures Reachable(deps, roots, d)
  {
    var k: nat :| Reaches(deps, roots, n, k);
    assert Reaches(deps, roots, d, k + 1);
  }

  lemma {:induction false} StepKeeps(deps: Dependencies, roots: seq<string>, w: Work)
    requires w.stack != [] && Invariant(deps, roots, w)
    ensures Invariant(deps, roots, Step(deps, w))
  {
    hide Reachable;
    var n := |w.stack| - 1;
    var curr, rest := w.stack[n], w.stack[..n];
    var missing := Missing(DepsOf(deps, curr), w.executed);
    MissingMembers(DepsOf(deps, curr), w.executed);
    assert w.stack == rest + [curr];
    forall d | d in missing
      ensures Reachable(deps, roots, d)
    {
      DependencyReachable(deps, roots, curr, d);
    }
    if curr !in w.executed && missing == [] {
      AppendInOrder(deps, w.executed, curr);
    }
  }

  lemma {:induction false} AppendInOrder(deps: Dependencies, executed: seq<string>, n: string)
    requires InOrder(deps, executed) && Distinct(executed) && n !in executed
    requires forall d | d in DepsOf(deps, n) :: d in executed
    ensures InOrder(deps, executed + [n]) && Distinct(executed + [n])
  {
    var e := executed + [n];
    forall i, d | 0 <= i < |e| && d in DepsOf(deps, e[i])
      ensures d in e[..i]
    {
      assert e[..i] == executed[..i];
    }
  }

  lemma {:induction false} StepsKeep(deps: Dependencies, roots: seq<string>, w: Work, k: nat)
    requires Invariant(deps, roots, w)
    ensures Invariant(deps, roots, Steps(deps, w, k))
    decreases k
  {
    hide Invariant, Step;
    if k > 0 && w.stack != [] {
      StepKeeps(deps, roots, w);
      StepsKeep(deps, roots, Step(deps, w), k - 1);
    }
  }

  /** A set of names in order is closed, so it holds whatever can be reached from its members. */
  lemma {:induction false} OrderCoversReachable(deps: Dependencies, roots: seq<string>, executed: seq<string>,
                                                n: string, k: nat)
    requires InOrder(deps, executed) && (forall r | r in roots :: r in executed)
    requires Reaches(deps, roots, n, k)
    ensures n in executed
    decreases k
  {
    if k > 0 {
      var m :| Reaches(deps, roots, m, k - 1) && n in DepsOf(deps, m);
      OrderCoversReachable(deps, roots, executed, m, k - 1);
      var i :| 0 <= i < |executed| && executed[i] == m;
      assert n in executed[..i];
    }
  }

  /**
   When the worklist runs empty, exactly the names reachable from the roots have
   been handled, each once and each after its dependencies.
   */
  lemma {:induction false} FinishedRun(deps: Dependencies, roots: seq<string>, executed: seq<string>)
    requires FinishesWith(deps, Work(roots, []), executed)
    ensures Distinct(executed) && InOrder(deps, executed)
    ensures forall n :: n in executed <==> Reachable(deps, roots, n)
  {
    var w := Work(roots, []);
    forall n | n in roots
      ensures Reachable(deps, roots, n)
    {
      assert Reaches(deps, roots, n, 0);
    }
    var k: nat :| Steps(deps, w, k) == Work([], executed);
    StepsKeep(deps, roots, w, k);
    forall n | Reachable(deps, roots, n)
      ensures n in executed
    {
      var j: nat :| Reaches(deps, roots, n, j);
      OrderCoversReachable(deps, roots, executed, n, j);
    }
  }

  function IndexOf(s: seq<string>, n: string): nat {
    if s == [] then 0 else if s[|s| - 1] == n then |s| - 1 else IndexOf(s[..|s| - 1], n)
  }

  lemma {:induction false} IndexOfMember(s: seq<string>, n: string)
    requires n in s
    ensures IndexOf(s, n) < |s| && s[IndexOf(s, n)] == n
  {
    if s[|s| - 1] != n {
      assert s == s[..|s| - 1] + [s[|s| - 1]];
      IndexOfMember(s[..|s| - 1], n);
    }
  }

  /** The order of handling ranks the names. */
  lemma {:induction false} OrderRanks(deps: Dependencies, executed: seq<string>)
    requires Distinct(executed) && InOrder(deps, executed)
    ensures Closed(deps, Names(executed)) && Ranked(deps, Names(executed), n => IndexOf(executed, n))
  {
    var rank := n => IndexOf(executed, n);
    forall n, d | n in Names(executed) && d in DepsOf(deps, n)
      ensures d in Names(executed) && rank(d) < rank(n)
    {
      IndexOfMember(executed, n);
      var i := IndexOf(executed, n);
      var j :| 0 <= j < i && executed[j] == d;
      IndexOfMember(executed, d);
      assert IndexOf(executed, d) == j;
    }
  }

  // ---------------------------------------------------------------------
  // Cycles
  // ---------------------------------------------------------------------

  /** No name that can be reached depends on itself, directly or through others. */
  ghost predicate NoCycle(deps: Dependencies, roots: seq<string>) {
    forall n, k: nat :: k > 0 && Reachable(deps, roots, n) ==> !Reaches(deps, [n], n, k)
  }

  /** The roots and everything they depend on can be ranked. */
  ghost predicate Rankable(deps: Dependencies, roots: seq<string>) {
    exists universe: set<string>, rank: string -> nat ::
      Names(roots) <= universe && Closed(deps, universe) && Ranked(deps, universe, rank)
  }

  lemma {:induction false} LastLink(deps: Dependencies, roots: seq<string>, n: string, k: nat) returns (m: string)
    requires k > 0 && Reaches(deps, roots, n, k)
    ensures Reaches(deps, roots, m, k - 1) && n in DepsOf(deps, m)
  {
    m :| Reaches(deps, roots, m, k - 1) && n in DepsOf(deps, m);
  }

  /** A chain of dependencies goes down at least one rank with each link. */
  lemma {:induction false} ChainDescends(deps: Dependencies, universe: set<string>, rank: string -> nat,
                                         roots: seq<string>, bound: nat, n: string, k: nat)
    requires Names(roots) <= universe && Closed(deps, universe) && Ranked(deps, universe, rank)
    requires forall r | r in roots :: rank(r) <= bound
    requires Reaches(deps, roots, n, k)
    ensures n in universe && rank(n) + k <= bound
    decreases k
  {
    if k == 0 {
      assert n in Names(roots);
    } else {
      hide Reaches, DepsOf;
      var m := LastLink(deps, roots, n, k);
      ChainDescends(deps, universe, rank, roots, bound, m, k - 1);
    }
  }

  function Highest(rank: string -> nat, names: seq<string>): (r: nat)
    ensures forall n | n in names :: rank(n) <= r
  {
    if names == [] then 0
    else
      var rest := Highest(rank, names[1..]);
      if rank(names[0]) > rest then rank(names[0]) else rest
  }

  lemma {:induction false} RankableHasNoCycle(deps: Dependencies, roots: seq<string>)
    requires Rankable(deps, roots)
    ensures NoCycle(deps, roots)
  {
    hide Closed, Ranked;
    var universe: set<string>, rank: string -> nat :|
      Names(roots) <= universe && Closed(deps, universe) && Ranked(deps, universe, rank);
    forall n, k: nat | k > 0 && Reachable(deps, roots, n)
      ensures !Reaches(deps, [n], n, k)
    {
      var j: nat :| Reaches(deps, roots, n, j);
      ChainDescends(deps, universe, rank, roots, Highest(rank, roots), n, j);
      if Reaches(deps, [n], n, k) {
        assert Names([n]) == {n};
        ChainDescends(deps, universe, rank, [n], rank(n), n, k);
      }
    }
  }

  /** Consecutive names depend on each other. */
  predicate IsChain(deps: Dependencies, chain: seq<string>) {
    var n := |chain| - 1;
    n > 0 ==> chain[n] in DepsOf(deps, chain[n - 1]) && IsChain(deps, chain[..n])
  }

  lemma {:induction false} ChainReaches(deps: Dependencies, chain: seq<string>, i: nat, j: nat)
    requires IsChain(deps, chain) && i <= j < |chain|
    ensures Reaches(deps, [chain[i]], chain[j], j - i)
    decreases |chain|
  {
    var front := chain[..|chain| - 1];
    if j < |front| {
      ChainReaches(deps, front, i, j);
    } else if i < j {
      ChainReaches(deps, front, i, j - 1);
    }
  }

  predicate DependsOnOne(deps: Dependencies, n: string, names: set<string>) {
    exists d | d in DepsOf(deps, n) :: d in names
  }

  lemma {:induction false} OneOf(deps: Dependencies, n: string, names: set<string>) returns (d: string)
    requires DependsOnOne(deps, n, names)
    ensures d in DepsOf(deps, n) && d in names
  {
    d :| d in DepsOf(deps, n) && d in names;
  }

  /** If every one of some names depends on another one of them, there are chains of any length. */
  lemma {:induction false} LongChain(deps: Dependencies, names: set<string>, k: nat) returns (chain: seq<string>)
    requires names != {}
    requires forall n | n in names :: DependsOnOne(deps, n, names)
    ensures |chain| == k + 1 && IsChain(deps, chain) && forall n | n in chain :: n in names
  {
    hide DepsOf, DependsOnOne;
    if k == 0 {
      var n :| n in names;
      chain := [n];
    } else {
      var front := LongChain(deps, names, k - 1);
      var d := OneOf(deps, front[k - 1], names);
      chain := front + [d];
      assert chain[..k] == front;
    }
  }

  lemma {:induction false} DistinctSize(s: seq<string>)
    requires Distinct(s)
    ensures |Names(s)| == |s|
  {
    if s != [] {
      var n := |s| - 1;
      DistinctSize(s[..n]);
      assert Names(s) == Names(s[..n]) + {s[n]};
    }
  }

  /** More positions than names: some name comes twice. */
  lemma {:induction false} SomeRepeat(s: seq<string>, names: set<string>) returns (i: nat, j: nat)
    requires (forall n | n in s :: n in names) && |s| > |names|
    ensures i < j < |s| && s[i] == s[j]
  {
    if Distinct(s) {
      DistinctSize(s);
      SubsetSize(Names(s), names);
      assert false;
    }
    i, j :| 0 <= i < j < |s| && s[i] == s[j];
  }

  /** Among names without a cycle, some depends on none of the others. */
  lemma {:induction false} SomeFree(deps: Dependencies, names: set<string>) returns (n: string)
    requires names != {}
    requires forall m, k: nat :: k > 0 && m in names ==> !Reaches(deps, [m], m, k)
    ensures n in names && forall d | d in DepsOf(deps, n) :: d !in names
  {
    hide Reaches, IsChain;
    if forall m | m in names :: DependsOnOne(deps, m, names) {
      var chain := LongChain(deps, names, |names|);
      var i, j := SomeRepeat(chain, names);
      assert chain[i] in names;
      ChainReaches(deps, chain, i, j);
      assert false;
    }
    n :| n in names && !DependsOnOne(deps, n, names);
  }

  /** Names without a cycle can be put in order, one free name at a time. */
  lemma {:induction false} Ordered(deps: Dependencies, universe: set<string>, done: seq<string>)
    returns (order: seq<string>)
    requires Closed(deps, universe) && Names(done) <= universe
    requires Distinct(done) && InOrder(deps, done)
    requires forall m, k: nat :: k > 0 && m in universe ==> !Reaches(deps, [m], m, k)
    ensures Distinct(order) && InOrder(deps, order) && Names(order) == universe
    decreases |universe - Names(done)|
  {
    hide Reaches, InOrder, Distinct;
    var left := universe - Names(done);
    if left == {} {
      order := done;
    } else {
      var n := SomeFree(deps, left);
      forall d | d in DepsOf(deps, n)
        ensures d in done
      {
        assert d in universe && d in Names(done);
      }
      AppendInOrder(deps, done, n);
      HandledDecreases(Work([], done), n, universe);
      assert Names(done + [n]) == Names(done) + {n};
      order := Ordered(deps, universe, done + [n]);
    }
  }

  /** Every name there is: a root, or some dependency. */
  function Mentioned(deps: Dependencies, roots: seq<string>): set<string> {
    Names(roots) + set n, d | n in deps && d in deps[n] :: d
  }

  lemma {:induction false} ReachableMentioned(deps: Dependencies, roots: seq<string>, n: string, k: nat)
    requires Reaches(deps, roots, n, k)
    ensures n in Mentioned(deps, roots)
  {
    if k > 0 {
      var m := LastLink(deps, roots, n, k);
      assert m in deps && n in deps[m];
    }
  }

  /** The reachable names are finitely many, contain the roots and all their dependencies. */
  lemma {:induction false} ReachableClosed(deps: Dependencies, roots: seq<string>) returns (universe: set<string>)
    ensures Names(roots) <= universe && Closed(deps, universe)
    ensures forall n :: n in universe <==> Reachable(deps, roots, n)
  {
    universe := set n | n in Mentioned(deps, roots) && Reachable(deps, roots, n);
    forall n | Reachable(deps, roots, n)
      ensures n in universe
    {
      var k: nat :| Reaches(deps, roots, n, k);
      ReachableMentioned(deps, roots, n, k);
    }
    forall n | n in roots
      ensures Reachable(deps, roots, n)
    {
      assert Reaches(deps, roots, n, 0);
    }
    forall n, d | n in universe && d in DepsOf(deps, n)
      ensures d in universe
    {
      DependencyReachable(deps, roots, n, d);
    }
  }

  lemma {:induction false} NoCycleIsRankable(deps: Dependencies, roots: seq<string>)
    requires NoCycle(deps, roots)
    ensures Rankable(deps, roots)
  {
    hide Reaches, Reachable;
    var universe := ReachableClosed(deps, roots);
    var order := Ordered(deps, universe, []);
    OrderRanks(deps, order);
    assert Names(roots) <= Names(order);
  }

  /** Dependencies can be ranked if and only if no cycle can be reached. */
  lemma {:induction false} RankableExactly(deps: Dependencies, roots: seq<string>)
    ensures Rankable(deps, roots) <==> NoCycle(deps, roots)
  {
    hide Rankable, NoCycle;
    if Rankable(deps, roots) {
      RankableHasNoCycle(deps, roots);
    }
    if NoCycle(deps, roots) {
      NoCycleIsRankable(deps, roots);
    }
  }

  /** The worklist runs empty if and only if no cycle can be reached from the roots. */
  lemma {:induction false} FinishesExactly(deps: Dependencies, roots: seq<string>)
    ensures (exists executed :: FinishesWith(deps, Work(roots, []), executed)) <==> NoCycle(deps, roots)
  {
    hide Steps, Closed, Ranked, Distinct, InOrder, NoCycle;
    RankableExactly(deps, roots);
    var w := Work(roots, []);
    if Rankable(deps, roots) {
      var universe: set<string>, rank: string -> nat :|
        Names(roots) <= universe && Closed(deps, universe) && Ranked(deps, universe, rank);
      var k := RankedFinishes(deps, w, universe, rank);
      assert FinishesWith(deps, w, Steps(deps, w, k).executed);
    }
    if executed :| FinishesWith(deps, w, executed) {
      FinishedRun(deps, roots, executed);
      OrderRanks(deps, executed);
      forall n | n in roots
        ensures n in executed
      {
        assert Reaches(deps, roots, n, 0);
      }
    }
  }

  /** A cycle anywhere among the dependencies of the roots is deferred for ever, whatever its length. */
  lemma {:induction false} CycleNeverFinishes(deps: Dependencies, roots: seq<string>, cycle: seq<string>,
                                              executed: seq<string>)
    requires |cycle| > 1 && IsChain(deps, cycle) && cycle[0] == cycle[|cycle| - 1]
    requires Reachable(deps, roots, cycle[0])
    ensures !FinishesWith(deps, Work(roots, []), executed)
  {
    hide Steps, Reachable;
    ChainReaches(deps, cycle, 0, |cycle| - 1);
    FinishesExactly(deps, roots);
  }

  /** Two daemons that depend on each other. */
  lemma {:induction false} PairNeverFinishes(executed: seq<string>)
    ensures !FinishesWith(map["a" := ["b"], "b" := ["a"]], Work(["a"], []), executed)
  {
    hide Steps;
    var deps: Dependencies := map["a" := ["b"], "b" := ["a"]];
    assert Reaches(deps, ["a"], "a", 0);
    assert ["a", "b", "a"][..2] == ["a", "b"] && ["a", "b"][..1] == ["a"];
    assert IsChain(deps, ["a", "b"]);
    CycleNeverFinishes(deps, ["a"], ["a", "b", "a"], executed);
  }

  // ---------------------------------------------------------------------
  // The manager
  // ---------------------------------------------------------------------

  /** What operating on a name gives: an unknown daemon fails. */
  predicate Succeeds(daemons: seq<string>, outcome: string -> bool, n: string) {
    n in daemons && outcome(n)
  }

  /** The results are those of the names handled, and no others. */
  predicate ResultsOf(results: map<string, bool>, executed: seq<string>, daemons: seq<string>,
                      outcome: string -> bool) {
    && results.Keys == Names(executed)
    && forall n | n in results :: results[n] == Succeeds(daemons, outcome, n)
  }

  class DaemonManager {
    /** Registered names in the order of registration. */
    var daemons: seq<string>
    var dependsOn: Dependencies

    ghost predicate Valid()
      reads this
    {
      Distinct(daemons) && forall n | n in daemons :: n != "all"
    }

    constructor ()
      ensures Valid() && daemons == [] && dependsOn == map[]
    {
      daemons := [];
      dependsOn := map[];
    }

    /** A name can be registered once. */
    method AddDaemon(name: string, deps: seq<string>) returns (ok: bool)
      requires Valid() && name != "all"
      modifies this
      ensures Valid() && (ok <==> name !in old(daemons))
      ensures ok ==> daemons == old(daemons) + [name] && dependsOn == old(dependsOn)[name := deps]
      ensures !ok ==> unchanged(this)
    {
      if name in daemons {
        return false;
      }
      daemons := daemons + [name];
      dependsOn := dependsOn[name := deps];
      return true;
    }

    /** `outcome` is what each daemon's own operation returns. */
    method Perform(name: string, outcome: string -> bool) returns (ok: bool)
      ensures name !in daemons ==> !ok
      ensures name in daemons ==> ok == outcome(name)
    {
      if name !in daemons {
        return false;
      }
      ok := outcome(name);
    }

    method MissingDependencies(name: string, executed: seq<string>) returns (toExecute: seq<string>)
      ensures toExecute == Missing(DepsOf(dependsOn, name), executed)
    {
      var ds := DepsOf(dependsOn, name);
      toExecute := [];
      for i := 0 to |ds|
        invariant toExecute == Missing(ds[..i], executed)
      {
        assert ds[..i + 1][..i] == ds[..i];
        if ds[i] !in executed {
          toExecute := toExecute + [ds[i]];
        }
      }
      assert ds[..|ds|] == ds;
    }

    /** One call per name handled, until the stack is empty; it ends although the stack may grow. */
    method PerformStack(stack: seq<string>, executed: seq<string>, results: map<string, bool>, outcome: string -> bool,
                        ghost universe: set<string>, ghost rank: string -> nat)
      returns (executed': seq<string>, results': map<string, bool>)
      requires Within(Work(stack, executed), universe) && Closed(dependsOn, universe)
               && Ranked(dependsOn, universe, rank)
      requires ResultsOf(results, executed, daemons, outcome)
      ensures FinishesWith(dependsOn, Work(stack, executed), executed')
      ensures ResultsOf(results', executed', daemons, outcome)
      decreases Unhandled(Work(stack, executed), universe), LeastRank(Work(stack, executed), rank),
                Distance(Work(stack, executed), rank)
    {
      hide Unhandled, LeastRank, Distance, Within, Closed, Ranked, Missing, Steps;
      ghost var w := Work(stack, executed);
      if stack == [] {
        Finished(dependsOn, w);
        return executed, results;
      }
      StepDecreases(dependsOn, w, universe, rank);
      StepWithin(dependsOn, w, universe);
      var curr := stack[|stack| - 1];
      var rest, done, all := stack[..|stack| - 1], executed, results;
      if curr !in executed {
        var toExecute := MissingDependencies(curr, executed);
        if toExecute != [] {
          rest := toExecute + [curr] + rest;
        } else {
          var ok := Perform(curr, outcome);
          all := results[curr := ok];
          done := executed + [curr];
          assert Names(done) == Names(executed) + {curr};
        }
      }
      assert Work(rest, done) == Step(dependsOn, w);
      executed', results' := PerformStack(rest, done, all, outcome, universe, rank);
      OneStepMore(dependsOn, w, executed');
    }

    /** Every registered daemon and all they depend on are operated on once, in order; all must succeed. */
    method PerformAll(outcome: string -> bool) returns (ok: bool, ghost executed: seq<string>)
      requires NoCycle(dependsOn, daemons)
      ensures Distinct(executed) && InOrder(dependsOn, executed)
      ensures forall n :: n in executed <==> Reachable(dependsOn, daemons, n)
      ensures ok <==> forall n | Reachable(dependsOn, daemons, n) :: n in daemons && outcome(n)
    {
      hide Unhandled, LeastRank, Distance, Closed, Ranked, Missing, Steps, Distinct, InOrder, Reachable,
        NoCycle;
      RankableExactly(dependsOn, daemons);
      ghost var universe: set<string>, rank: string -> nat :|
        Names(daemons) <= universe && Closed(dependsOn, universe) && Ranked(dependsOn, universe, rank);
      var done, results := PerformStack(daemons, [], map[], outcome, universe, rank);
      executed := done;
      FinishedRun(dependsOn, daemons, done);
      var failures := 0;
      var keys := results.Keys;
      while keys != {}
        invariant keys <= results.Keys && 0 <= failures
        invariant failures == 0 <==> forall n | n in results && n !in keys :: results[n]
        decreases keys
      {
        var n :| n in keys;
        if !results[n] {
          failures := failures + 1;
        }
        keys := keys - {n};
      }
      ok := failures == 0;
      assert forall n | Reachable(dependsOn, daemons, n) :: n in results;
      assert forall n | n in results :: results[n] == (n in daemons && outcome(n));
    }
  }

  lemma {:induction false} Finished(deps: Dependencies, w: Work)
    requires w.stack == []
    ensures FinishesWith(deps, w, w.executed)
  {
    assert Steps(deps, w, 0) == w;
  }

  function Reversed(s: seq<string>): seq<string> {
    if s == [] then [] else [s[|s| - 1]] + Reversed(s[..|s| - 1])
  }

  /** Names without dependencies are handled from the back of the stack. */
  lemma {:induction false} IndependentFrom(deps: Dependencies, w: Work)
    requires Distinct(w.executed + w.stack) && forall n | n in w.stack :: DepsOf(deps, n) == []
    ensures FinishesWith(deps, w, w.executed + Reversed(w.stack))
    decreases |w.stack|
  {
    hide FinishesWith;
    if w.stack == [] {
      Finished(deps, w);
      assert w.executed + Reversed(w.stack) == w.executed;
    } else {
      var n := |w.stack| - 1;
      var curr, rest := w.stack[n], w.stack[..n];
      var all := w.executed + w.stack;
      forall i | 0 <= i < |w.executed|
        ensures w.executed[i] != curr
      {
        assert all[i] != all[|w.executed| + n];
      }
      var next := Work(rest, w.executed + [curr]);
      assert w.stack == rest + [curr];
      assert Step(deps, w) == next;
      DistinctMoved(w.executed, rest, curr);
      IndependentFrom(deps, next);
      OneStepMore(deps, w, next.executed + Reversed(rest));
      assert w.executed + Reversed(w.stack) == next.executed + Reversed(rest);
    }
  }

  lemma {:induction false} DistinctMoved(executed: seq<string>, rest: seq<string>, curr: string)
    requires Distinct(executed + (rest + [curr]))
    ensures Distinct(executed + [curr] + rest)
  {
    var a, b := executed + (rest + [curr]), executed + [curr] + rest;
    forall i, j | 0 <= i < j < |b|
      ensures b[i] != b[j]
    {
      var m := |executed|;
      var p := if i < m then i else if i == m then |a| - 1 else i - 1;
      var q := if j < m then j else if j == m then |a| - 1 else j - 1;
      assert a[p] == b[i] && a[q] == b[j] && p != q;
    }
  }

  /** Daemons that depend on nothing are handled in the reverse order of their registration. */
  lemma {:induction false} IndependentReversed(deps: Dependencies, roots: seq<string>)
    requires Distinct(roots) && forall n | n in roots :: DepsOf(deps, n) == []
    ensures FinishesWith(deps, Work(roots, []), Reversed(roots))
  {
    assert [] + roots == roots && [] + Reversed(roots) == Reversed(roots);
    IndependentFrom(deps, Work(roots, []));
  }

  lemma {:induction false} OneStepMore(deps: Dependencies, w: Work, executed: seq<string>)
    requires w.stack != [] && FinishesWith(deps, Step(deps, w), executed)
    ensures FinishesWith(deps, w, executed)
  {
    hide Step;
    var k: nat :| Steps(deps, Step(deps, w), k) == Work([], executed);
    assert Steps(deps, w, k + 1) == Work([], executed);
  }
}
