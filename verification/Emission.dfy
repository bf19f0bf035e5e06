/** How often a channel is emitted (vtelem/channel/__init__.py). */
module Emission {
  import opened Channels

  function AfterEmit(c: Snapshot, time: real): Snapshot {
    if Emits(c, time) then c.(lastEmitted := time) else c
  }

  /** The times at which a channel emits, among the times at which it is asked to. */
  function EmissionTimes(c: Snapshot, times: seq<real>): seq<real>
    decreases |times|
  {
    if times == [] then []
    else (if Emits(c, times[0]) then [times[0]] else []) + EmissionTimes(AfterEmit(c, times[0]), times[1..])
  }

  function Periods(k: nat, rate: real): real {
    if k == 0 then 0.0 else Periods(k - 1, rate) + rate
  }

  lemma {:induction false} PeriodsProduct(k: nat, rate: real)
    ensures Periods(k, rate) == k as real * rate
  {
    if k > 0 {
      PeriodsProduct(k - 1, rate);
      assert (k - 1) as real * rate + rate == k as real * rate;
    }
  }

  /** Each emission is at least a period after the one before, so the k-th is at least k periods after `last`. */
  predicate Spaced(last: real, rate: real, es: seq<real>) {
    && (forall k :: 0 <= k < |es| ==> es[k] >= last + Periods(k + 1, rate))
    && (forall k :: 0 < k < |es| ==> es[k] >= es[k - 1] + rate)
  }

  lemma {:induction false} SpacedCons(last: real, rate: real, t: real, es: seq<real>)
    requires Spaced(t, rate, es) && t >= last + rate
    ensures Spaced(last, rate, [t] + es)
  {
    var all := [t] + es;
    assert Periods(1, rate) == Periods(0, rate) + rate;
    forall k | 0 < k < |all|
      ensures all[k] >= last + Periods(k + 1, rate) && all[k] >= all[k - 1] + rate
    {
      assert all[k] == es[k - 1] >= t + Periods(k, rate);
    }
  }

  /** Emissions are at least the rate apart, and the k-th comes no earlier than k periods in. */
  lemma {:induction false} EmissionSpacing(c: Snapshot, times: seq<real>)
    requires c.rate >= 0.0
    ensures Spaced(c.lastEmitted, c.rate, EmissionTimes(c, times))
    ensures forall t | t in EmissionTimes(c, times) :: t in times
    decreases |times|
  {
    if times != [] {
      var next := AfterEmit(c, times[0]);
      EmissionSpacing(next, times[1..]);
      var rest := EmissionTimes(next, times[1..]);
      if Emits(c, times[0]) {
        SpacedCons(c.lastEmitted, c.rate, times[0], rest);
      } else {
        assert EmissionTimes(c, times) == rest;
      }
    }
  }

  /** Up to any time, a channel contributes at most as many elements as whole periods have passed. */
  lemma {:induction false} EmissionBound(c: Snapshot, times: seq<real>, until: real)
    requires c.rate > 0.0 && c.lastEmitted == 0.0
    requires forall t | t in times :: t <= until
    ensures EmissionTimes(c, times) != [] ==> |EmissionTimes(c, times)| <= (until / c.rate).Floor
  {
    EmissionSpacing(c, times);
    var es := EmissionTimes(c, times);
    if es != [] {
      var n := |es|;
      PeriodsProduct(n, c.rate);
      assert es[n - 1] in times;
      WholePeriods(n, c.rate, until);
    }
  }

  lemma {:induction false} WholePeriods(n: nat, rate: real, until: real)
    requires rate > 0.0 && n as real * rate <= until
    ensures n <= (until / rate).Floor
  {
    var whole := n as real * rate;
    assert whole / rate == n as real;
    assert (until - whole) / rate >= 0.0;
    assert until / rate == whole / rate + (until - whole) / rate;
  }

  // ---------------------------------------------------------------------
  // No emission is missed
  // ---------------------------------------------------------------------

  /** The times that are marked. */
  function Selected(times: seq<real>, marks: seq<bool>): seq<real>
    requires |marks| == |times|
  {
    if times == [] then [] else (if marks[0] then [times[0]] else []) + Selected(times[1..], marks[1..])
  }

  /** The last marked time before position `i`, or `last` if there is none. */
  function LastBefore(last: real, times: seq<real>, marks: seq<bool>, i: nat): real
    requires i <= |times| == |marks|
  {
    if i == 0 then last else if marks[i - 1] then times[i - 1] else LastBefore(last, times, marks, i - 1)
  }

  lemma {:induction false} LastBeforeCons(last: real, times: seq<real>, marks: seq<bool>, i: nat)
    requires 0 < i <= |times| == |marks|
    ensures LastBefore(last, times, marks, i) ==
            LastBefore(if marks[0] then times[0] else last, times[1..], marks[1..], i - 1)
  {
    if i > 1 {
      LastBeforeCons(last, times, marks, i - 1);
    }
  }

  /** The channel is emitted at a time exactly if that is at least one rate after the last time it was emitted. */
  predicate Prompt(last: real, rate: real, times: seq<real>, marks: seq<bool>)
    requires |marks| == |times|
  {
    forall i :: 0 <= i < |times| ==> (marks[i] <==> times[i] - LastBefore(last, times, marks, i) >= rate)
  }

  /** Over any times at which it is asked to, a channel is emitted exactly when its rate has elapsed. */
  lemma {:induction false} EmissionsExactly(c: Snapshot, times: seq<real>) returns (marks: seq<bool>)
    ensures |marks| == |times| && EmissionTimes(c, times) == Selected(times, marks)
    ensures Prompt(c.lastEmitted, c.rate, times, marks)
    decreases |times|
  {
    if times == [] {
      marks := [];
    } else {
      var next, emits := AfterEmit(c, times[0]), times[0] - c.lastEmitted >= c.rate;
      var rest := EmissionsExactly(next, times[1..]);
      marks := [emits] + rest;
      assert marks[1..] == rest;
      forall i | 0 <= i < |times|
        ensures marks[i] <==> times[i] - LastBefore(c.lastEmitted, times, marks, i) >= c.rate
      {
        if i > 0 {
          LastBeforeCons(c.lastEmitted, times, marks, i);
          assert marks[i] == rest[i - 1] && times[i] == times[1..][i - 1];
        }
      }
    }
  }

  /** A time after each period. */
  function EveryPeriod(last: real, rate: real, k: nat): (times: seq<real>)
    ensures |times| == k
    decreases k
  {
    if k == 0 then [] else [last + rate] + EveryPeriod(last + rate, rate, k - 1)
  }

  /** Asked once in every period, a channel is emitted every time. */
  lemma {:induction false} FullRate(c: Snapshot, k: nat)
    ensures EmissionTimes(c, EveryPeriod(c.lastEmitted, c.rate, k)) == EveryPeriod(c.lastEmitted, c.rate, k)
    decreases k
  {
    if k > 0 {
      var times := EveryPeriod(c.lastEmitted, c.rate, k);
      var next := c.(lastEmitted := c.lastEmitted + c.rate);
      assert times[1..] == EveryPeriod(next.lastEmitted, c.rate, k - 1);
      FullRate(next, k - 1);
      assert AfterEmit(c, times[0]) == next;
    }
  }

  lemma {:induction false} EveryPeriodIs(last: real, rate: real, k: nat, i: nat)
    requires i < k
    ensures EveryPeriod(last, rate, k)[i] == last + (i + 1) as real * rate
    decreases k
  {
    if i > 0 {
      EveryPeriodIs(last + rate, rate, k - 1, i - 1);
      assert i as real * rate + rate == (i + 1) as real * rate;
    }
  }

  /** Asked at every multiple of its rate up to some time, it is emitted as often as whole periods have passed. */
  lemma {:induction false} EmissionBoundMet(c: Snapshot, until: real)
    requires c.rate > 0.0 && c.lastEmitted == 0.0 && until >= 0.0
    ensures (until / c.rate).Floor >= 0
    ensures var k := (until / c.rate).Floor;
            var times := EveryPeriod(0.0, c.rate, k);
            && (forall i :: 0 <= i < k ==> times[i] == (i + 1) as real * c.rate)
            && k as real * c.rate <= until < (k + 1) as real * c.rate
            && |EmissionTimes(c, times)| == k
  {
    hide EmissionTimes, EveryPeriod;
    WholePeriodsExactly(until, c.rate);
    var k := (until / c.rate).Floor;
    FullRate(c, k);
    forall i | 0 <= i < k
      ensures EveryPeriod(0.0, c.rate, k)[i] == (i + 1) as real * c.rate
    {
      EveryPeriodIs(0.0, c.rate, k, i);
    }
  }

  lemma {:induction false} WholePeriodsExactly(until: real, rate: real)
    requires rate > 0.0 && until >= 0.0
    ensures var k := (until / rate).Floor; k >= 0 && k as real * rate <= until < (k + 1) as real * rate
  {
    var q := until / rate;
    assert q >= 0.0 && q * rate == until;
    var k := q.Floor;
    Scaled(k as real, q, rate);
    if (k + 1) as real * rate <= until {
      WholePeriods(k + 1, rate, until);
    }
  }

  lemma {:induction false} Scaled(x: real, y: real, rate: real)
    requires rate > 0.0 && x <= y
    ensures x * rate <= y * rate
  {
  }
}
