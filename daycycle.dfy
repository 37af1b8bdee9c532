/** The day/night cycle: a clock that runs 20 seconds of day and 20 of night, then
    restarts from zero. */
module DayCycle {
  const DAY_LENGTH: real := 20.0
  const CYCLE_LENGTH: real := 40.0

  datatype Cycle = Cycle(time: real, isDay: bool)

  /** One update of the clock by `dt`. On the tick that reaches the end of the cycle the
      clock restarts and the phase is left as it was. */
  function DayStep(c: Cycle, dt: real): (r: Cycle)
    ensures r.time == (if c.time + dt < CYCLE_LENGTH then c.time + dt else 0.0)
    ensures c.time + dt < DAY_LENGTH ==> r.isDay
    ensures DAY_LENGTH <= c.time + dt < CYCLE_LENGTH ==> !r.isDay
    ensures c.time + dt >= CYCLE_LENGTH ==> r.isDay == c.isDay
  {
    var t := c.time + dt;
    if t < DAY_LENGTH then Cycle(t, true)
    else if t < CYCLE_LENGTH then Cycle(t, false)
    else Cycle(0.0, c.isDay)
  }

  /** From any non-negative time, moving forward puts the clock inside [0, 40). */
  lemma DayStepInCycle(c: Cycle, dt: real)
    requires 0.0 <= c.time && dt >= 0.0
    ensures 0.0 <= DayStep(c, dt).time < CYCLE_LENGTH
  {
  }

  /** One update after another. */
  function Run(c: Cycle, dts: seq<real>): Cycle
    decreases |dts|
  {
    if dts == [] then c else Run(DayStep(c, dts[0]), dts[1..])
  }

  predicate AllNonNegative(dts: seq<real>)
  {
    forall i :: 0 <= i < |dts| ==> dts[i] >= 0.0
  }

  /** Over any run of non-negative frame times the clock stays inside [0, 40). */
  lemma {:induction false} RunInCycle(c: Cycle, dts: seq<real>)
    requires 0.0 <= c.time < CYCLE_LENGTH && AllNonNegative(dts)
    ensures 0.0 <= Run(c, dts).time < CYCLE_LENGTH
    decreases |dts|
  {
    if dts != [] {
      DayStepInCycle(c, dts[0]);
      assert AllNonNegative(dts[1..]) by {
        forall i | 0 <= i < |dts[1..]|
          ensures dts[1..][i] >= 0.0
        {
          assert dts[1..][i] == dts[i + 1];
        }
      }
      RunInCycle(DayStep(c, dts[0]), dts[1..]);
    }
  }

  /** The `DayCycle` resource. */
  class DayCycleResource {
    var time: real
    var isDay: bool

    constructor (time0: real, isDay0: bool)
      ensures time == time0 && isDay == isDay0
    {
      time := time0;
      isDay := isDay0;
    }

    /** `update_daycycle`. */
    method UpdateDaycycle(dt: real)
      modifies this
      ensures Cycle(time, isDay) == DayStep(Cycle(old(time), old(isDay)), dt)
    {
      time := time + dt;
      var t := time;
      if t < DAY_LENGTH {
        isDay := true;
      } else if t < CYCLE_LENGTH {
        isDay := false;
      } else {
        time := 0.0;
      }
    }
  }
}
