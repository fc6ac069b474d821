/**
 * The decision logic of the browser tracker page on top of the schedule
 * engine: the Active / Past / Upcoming label of each listed period and the
 * choice of status message.  The page's DOM writes are not modelled; each
 * decision is returned as a value.
 */
module Tracker {
  import opened Wrappers
  import opened Format
  import opened Electricity

  /** How many periods the schedule list shows (`schedule.slice(0, 10)`). */
  const DISPLAYED_PERIODS: int := 10

  /** The label of one listed period. */
  datatype PeriodState = Active | Past | Upcoming

  /** The status message: available until an end time, unavailable until the next period, or left as it was. */
  datatype Status = Available(until: string) | Unavailable(next: Period) | Unchanged

  /**
   * The label of a period at `now`: Active inside `[start, end)`, Past from
   * `end` on, Upcoming otherwise.  For a period with `start < end`, exactly
   * one of `now < start`, `start <= now < end` and `now >= end` holds, and the
   * label names it.
   */
  function Classify(p: Period, now: int): (st: PeriodState)
    ensures st == Active <==> Contains(p, now)
    ensures st == Past <==> now >= p.end
    ensures p.start < p.end ==> (st == Upcoming <==> now < p.start)
  {
    var isActive := now >= p.start && now < p.end;
    var isPast := now >= p.end;
    if isActive then Active else if isPast then Past else Upcoming
  }

  /** The labels of the first ten periods of a schedule, in order. */
  function DisplayedStates(schedule: seq<Period>, now: int): (states: seq<PeriodState>)
    ensures |states| == if |schedule| < DISPLAYED_PERIODS then |schedule| else DISPLAYED_PERIODS
    ensures forall i :: 0 <= i < |states| ==> states[i] == Classify(schedule[i], now)
  {
    var shown := if |schedule| < DISPLAYED_PERIODS then schedule else schedule[..DISPLAYED_PERIODS];
    seq(|shown|, i requires 0 <= i < |shown| => Classify(shown[i], now))
  }

  /**
   * The status branch of `trackElectricity`: "available" when `now` lies in
   * a period, otherwise "not available" naming the next period, otherwise
   * the message is left unchanged.
   */
  function StatusFor(schedule: seq<Period>, now: int): (st: Status)
    ensures st.Available? <==> IsAvailable(schedule, now)
    ensures st.Available? ==> exists i :: IsFirstCurrent(schedule, now, i) && st.until == schedule[i].EndTime()
    ensures st.Unavailable? <==>
              !IsAvailable(schedule, now) && exists i :: 0 <= i < |schedule| && schedule[i].start > now
    ensures st.Unavailable? ==> exists i :: IsFirstUpcoming(schedule, now, i) && st.next == schedule[i]
  {
    var isAvailable := IsAvailable(schedule, now);
    var current := CurrentPeriod(schedule, now);
    var next := NextPeriod(schedule, now);
    if isAvailable && current.Some? then Available(current.value.EndTime())
    else if next.Some? then Unavailable(next.value)
    else Unchanged
  }

  /**
   * On a generated schedule of at least two periods exactly one message is
   * written: "available until the end of the first window" when `now` is in
   * its ON part, otherwise "not available" naming the second window.
   */
  lemma GeneratedStatus(baseStart: int, now: int, count: int, localTime: int -> Civil)
    requires count >= 2
    ensures var a := Anchor(baseStart, now);
      var s := Emitted(a, count, localTime);
      StatusFor(s, now) == if now < a + ON then Available(s[0].EndTime()) else Unavailable(s[1])
  {
    GeneratedCurrent(baseStart, now, count, localTime);
    GeneratedNext(baseStart, now, count, localTime);
  }

  /**
   * On a generated schedule the listed labels are: the anchored window Active
   * or Past, every later window Upcoming.
   */
  lemma GeneratedDisplayedStates(baseStart: int, now: int, count: int, localTime: int -> Civil)
    ensures var a := Anchor(baseStart, now);
      var states := DisplayedStates(Emitted(a, count, localTime), now);
      && (|states| > 0 ==> states[0] == if now < a + ON then Active else Past)
      && forall i :: 1 <= i < |states| ==> states[i] == Upcoming
  {
    var a := Anchor(baseStart, now);
    var s := Emitted(a, count, localTime);
    var states := DisplayedStates(s, now);
    forall i | 1 <= i < |states| ensures states[i] == Upcoming {
      assert s[i].start == a + i * CYCLE;
      assert i * CYCLE >= CYCLE;
    }
  }

  /** `displayElectricitySchedule` without its DOM writes: generate, then label the first ten periods. */
  method DisplayElectricitySchedule(baseStart: int, now: int, localTime: int -> Civil)
    returns (states: seq<PeriodState>)
    ensures |states| == DISPLAYED_PERIODS
    ensures states[0] == if now < Anchor(baseStart, now) + ON then Active else Past
    ensures forall i :: 1 <= i < |states| ==> states[i] == Upcoming
  {
    var schedule := GenerateSchedule(DEFAULT_PERIOD_COUNT, baseStart, now, localTime);
    states := DisplayedStates(schedule, now);
    GeneratedDisplayedStates(baseStart, now, DEFAULT_PERIOD_COUNT, localTime);
  }

  /**
   * `trackElectricity` without its DOM writes: generate the default 56
   * periods, choose the status message, then refresh the list.
   */
  method TrackElectricity(baseStart: int, now: int, localTime: int -> Civil)
    returns (status: Status, states: seq<PeriodState>)
    ensures var a := Anchor(baseStart, now);
      status == if now < a + ON then Available(FormatTime(localTime(a + ON)))
                else Unavailable(PeriodAt(a + CYCLE, localTime))
    ensures |states| == DISPLAYED_PERIODS
    ensures states[0] == if now < Anchor(baseStart, now) + ON then Active else Past
    ensures forall i :: 1 <= i < |states| ==> states[i] == Upcoming
  {
    var schedule := GenerateSchedule(DEFAULT_PERIOD_COUNT, baseStart, now, localTime);
    status := StatusFor(schedule, now);
    GeneratedStatus(baseStart, now, DEFAULT_PERIOD_COUNT, localTime);
    EmittedRendered(Anchor(baseStart, now), DEFAULT_PERIOD_COUNT, localTime, 0);
    EmittedRendered(Anchor(baseStart, now), DEFAULT_PERIOD_COUNT, localTime, 1);
    states := DisplayElectricitySchedule(baseStart, now, localTime);
  }
}
