/** What every builder of frames shares (vtelem/frame/framer.py, `time_to_int` of vtelem/frame/__init__.py). */
module Framers {
  import opened Wrappers
  import opened Primitives
  import opened Frames

  /** The whole part of a time, towards zero. */
  function Truncated(time: real): int {
    if time >= 0.0 then time.Floor else -((-time).Floor)
  }

  /** A time in thousandths, computed from its whole and fractional parts. */
  function TimeToInt(time: real): int {
    var whole := Truncated(time);
    whole * 1000 + ((time - whole as real) * 1000.0).Floor
  }

  /** The two parts together round down, for negative times too. */
  lemma {:induction false} TimeToIntRoundsDown(time: real)
    ensures TimeToInt(time) == (time * 1000.0).Floor
  {
    var whole := Truncated(time);
    assert (time - whole as real) * 1000.0 == time * 1000.0 - (whole * 1000) as real;
  }

  class Framer {
    const mtu: nat
    const appId: int
    const useCrc: bool
    var timestamps: map<FrameType, int>

    ghost predicate Valid()
      reads this
    {
      && Overhead(useCrc) < mtu && IntegerCanHold(UInt32, mtu) && IntegerCanHold(UInt16, appId)
      && timestamps.Keys == {InvalidFrame, DataFrame, EventFrame, MessageFrameType, StreamFrame}
      && forall t | t in timestamps :: IntegerCanHold(UInt64, timestamps[t])
    }

    /** Any MTU is taken; frames can be made if it leaves room for something and counts fit their fields. */
    constructor (mtu: nat, appId: int, useCrc: bool)
      requires IntegerCanHold(UInt16, appId)
      ensures Valid() <==> Overhead(useCrc) < mtu && IntegerCanHold(UInt32, mtu)
      ensures forall t | t in timestamps :: timestamps[t] == 0
      ensures this.mtu == mtu && this.appId == appId && this.useCrc == useCrc
    {
      this.mtu := mtu;
      this.appId := appId;
      this.useCrc := useCrc;
      UnitHeld(UInt64);
      hide IntegerBounds;
      timestamps := map[InvalidFrame := 0, DataFrame := 0, EventFrame := 0, MessageFrameType := 0, StreamFrame := 0];
    }

    /** The header of a new frame: each type keeps its last timestamp until it is given a new one. */
    method NewOrigin(t: FrameType, time: Option<real>) returns (o: Origin)
      requires Valid()
      requires time.Some? ==> IntegerCanHold(UInt64, TimeToInt(time.value))
      modifies this
      ensures Valid()
      ensures t in old(timestamps) && t in timestamps
      ensures timestamps == if time.Some? then old(timestamps)[t := TimeToInt(time.value)] else old(timestamps)
      ensures o == Origin(appId, t, timestamps[t])
    {
      hide IntegerBounds;
      assert t in timestamps by { match t case _ => }
      if time.Some? {
        timestamps := timestamps[t := TimeToInt(time.value)];
      }
      o := Origin(appId, t, timestamps[t]);
    }
  }
}
