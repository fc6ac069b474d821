/**
 * The electricity schedule engine: a periodic timetable of 3-hour ON windows,
 * one every 9 hours, aligned to a fixed base instant.  Instants are integer
 * milliseconds since the epoch (the value of `Date.prototype.getTime()`).
 * The ambient clock (`new Date()`), the host-local base instant
 * (`new Date(2026, 1, 7, 12, 0, 0)`) and the host time-zone conversion become
 * the parameters `now`, `baseStart` and `localTime`.
 */
module Electricity {
  import opened Wrappers
  import opened Format

  /** Length of an ON window: 3 hours (3 * 60 * 60 * 1000 ms). */
  const ON: int := 10_800_000
  /** Distance between consecutive ON starts: 3 hours ON plus 6 hours OFF (9 * 60 * 60 * 1000 ms). */
  const CYCLE: int := 32_400_000
  /** The default `periodCount` of `generateElectricitySchedule`. */
  const DEFAULT_PERIOD_COUNT: int := 56

  /**
   * One ON window `[start, end)`.  The record also carries the wall-clock
   * readings of its two boundaries, taken when it was generated; its
   * `startTime`, `endTime` and `date` strings are rendered from them.
   */
  datatype Period = Period(start: int, end: int, startClock: Civil, endClock: Civil) {
    function StartTime(): string { FormatTime(startClock) }
    function EndTime(): string { FormatTime(endClock) }
    function Date(): string { FormatDate(startClock) }
  }

  /** The half-open membership test `now >= period.start && now < period.end`. */
  predicate Contains(p: Period, now: int) {
    now >= p.start && now < p.end
  }

  // ---------------------------------------------------------------------------
  // Specification of the generator
  // ---------------------------------------------------------------------------

  /** The most recent cycle start at or before `now`, in closed form. */
  function Anchor(baseStart: int, now: int): (a: int)
    ensures a <= now < a + CYCLE
    ensures (a - baseStart) % CYCLE == 0
  {
    baseStart + (now - baseStart) / CYCLE * CYCLE
  }

  /** Every anchor in the base's residue class that brackets `now` is `Anchor`: the cycle containing `now` is unique. */
  lemma AnchorUnique(baseStart: int, now: int, a: int)
    requires (a - baseStart) % CYCLE == 0
    requires a <= now < a + CYCLE
    ensures a == Anchor(baseStart, now)
  {
    var b := Anchor(baseStart, now);
    var k := (a - baseStart) / CYCLE;
    var q := (b - baseStart) / CYCLE;
    assert a == baseStart + k * CYCLE;
    assert b == baseStart + q * CYCLE;
  }

  /** Any base in the same residue class gives the same anchor: the base is just one point of the periodic timeline. */
  lemma AnchorShiftInvariant(baseStart: int, now: int, k: int)
    ensures Anchor(baseStart + k * CYCLE, now) == Anchor(baseStart, now)
  {
    var a := Anchor(baseStart, now);
    var q := (a - baseStart) / CYCLE;
    assert a - (baseStart + k * CYCLE) == (q - k) * CYCLE;
    AnchorUnique(baseStart + k * CYCLE, now, a);
  }

  /** The record pushed for the ON window starting at `start`. */
  function PeriodAt(start: int, localTime: int -> Civil): (p: Period)
    ensures p.end - p.start == ON
  {
    Period(start, start + ON, localTime(start), localTime(start + ON))
  }

  /** The windows emitted from `anchor`: `count` of them (none for a count below one), 9 hours apart. */
  function Emitted(anchor: int, count: int, localTime: int -> Civil): (s: seq<Period>)
    ensures |s| == if count < 0 then 0 else count
    ensures forall i :: 0 <= i < |s| ==> s[i].start == anchor + i * CYCLE && s[i].end == s[i].start + ON
  {
    if count <= 0 then []
    else
      var prefix := Emitted(anchor, count - 1, localTime);
      var last := anchor + (count - 1) * CYCLE;
      var s := prefix + [PeriodAt(last, localTime)];
      assert forall i :: 0 <= i < |prefix| ==> s[i] == prefix[i];
      assert s[|prefix|].start == last;
      s
  }

  /** Emitting one more window appends the record for the next start. */
  lemma EmittedStep(anchor: int, count: nat, localTime: int -> Civil)
    ensures Emitted(anchor, count + 1, localTime) == Emitted(anchor, count, localTime) + [PeriodAt(anchor + count * CYCLE, localTime)]
  {
  }

  /** Every window of an emitted schedule is the full record for its start, rendered boundaries included. */
  lemma {:induction false} EmittedRendered(anchor: int, count: int, localTime: int -> Civil, i: int)
    requires 0 <= i < count
    ensures var s := Emitted(anchor, count, localTime);
      i < |s| && s[i] == PeriodAt(s[i].start, localTime)
  {
    var prefix := Emitted(anchor, count - 1, localTime);
    var last := PeriodAt(anchor + (count - 1) * CYCLE, localTime);
    var s := prefix + [last];
    assert Emitted(anchor, count, localTime) == s;
    if i < count - 1 {
      EmittedRendered(anchor, count - 1, localTime, i);
      assert s[i] == prefix[i];
    } else {
      assert s[i] == last;
    }
  }

  /** Emitted windows are each 3 hours long, start exactly 9 hours apart, and so are ordered and pairwise disjoint. */
  lemma EmittedShape(anchor: int, count: int, localTime: int -> Civil)
    ensures var s := Emitted(anchor, count, localTime);
      && (forall i :: 0 <= i < |s| ==> s[i].end - s[i].start == ON)
      && (forall i :: 0 <= i < |s| - 1 ==> s[i + 1].start - s[i].start == CYCLE)
      && (forall i, j :: 0 <= i < j < |s| ==> s[i].start < s[j].start && s[i].end <= s[j].start)
  {
    var s := Emitted(anchor, count, localTime);
    forall i, j | 0 <= i < j < |s|
      ensures s[i].start < s[j].start && s[i].end <= s[j].start
    {
      assert s[j].start - s[i].start == (j - i) * CYCLE;
      assert (j - i) * CYCLE >= CYCLE;
    }
  }

  // ---------------------------------------------------------------------------
  // The generator
  // ---------------------------------------------------------------------------

  /**
   * The alignment step of `generateElectricitySchedule`: starting from the
   * base, walk forward one cycle at a time while the current ON window has
   * already ended, then walk back while the candidate starts after `now`.
   */
  method FindAnchor(baseStart: int, now: int) returns (currentStart: int)
    ensures currentStart <= now < currentStart + CYCLE
    ensures (currentStart - baseStart) % CYCLE == 0
    ensures currentStart == Anchor(baseStart, now)
  {
    currentStart := baseStart;
    ghost var k: int := 0;
    while currentStart + ON <= now
      invariant currentStart == baseStart + k * CYCLE
      decreases now - currentStart
    {
      currentStart := currentStart + CYCLE;
      k := k + 1;
    }
    while currentStart > now
      invariant currentStart == baseStart + k * CYCLE
      invariant now < currentStart + CYCLE
      decreases currentStart - now
    {
      currentStart := currentStart - CYCLE;
      k := k - 1;
    }
    AnchorUnique(baseStart, now, currentStart);
  }

  /**
   * `generateElectricitySchedule(periodCount)`: align to the cycle containing
   * `now`, then push `periodCount` windows, each 3 hours long, 9 hours apart.
   */
  method GenerateSchedule(periodCount: int, baseStart: int, now: int, localTime: int -> Civil)
    returns (schedule: seq<Period>)
    ensures schedule == Emitted(Anchor(baseStart, now), periodCount, localTime)
    ensures |schedule| == if periodCount < 0 then 0 else periodCount
    ensures |schedule| > 0 ==> schedule[0].start <= now < schedule[0].start + CYCLE
    ensures |schedule| > 0 ==> (schedule[0].start - baseStart) % CYCLE == 0
  {
    schedule := [];
    var currentStart := FindAnchor(baseStart, now);
    ghost var anchor := currentStart;

    var i := 0;
    while i < periodCount
      invariant 0 <= i && (periodCount >= 0 ==> i <= periodCount) && (periodCount < 0 ==> i == 0)
      invariant currentStart == anchor + i * CYCLE
      invariant schedule == Emitted(anchor, i, localTime)
    {
      var start := currentStart;
      var end := currentStart + ON;
      var period := Period(start, end, localTime(start), localTime(end));
      EmittedStep(anchor, i, localTime);
      assert period == PeriodAt(anchor + i * CYCLE, localTime);
      schedule := schedule + [period];
      currentStart := currentStart + CYCLE;
      i := i + 1;
    }
    assert |schedule| > 0 ==> schedule[0].start == anchor;
  }

  // ---------------------------------------------------------------------------
  // Point-in-time queries
  // ---------------------------------------------------------------------------

  /** `i` is the first index whose window contains `now`. */
  ghost predicate IsFirstCurrent(schedule: seq<Period>, now: int, i: int) {
    && 0 <= i < |schedule|
    && Contains(schedule[i], now)
    && forall j :: 0 <= j < i ==> !Contains(schedule[j], now)
  }

  /** `i` is the first index whose window starts strictly after `now`. */
  ghost predicate IsFirstUpcoming(schedule: seq<Period>, now: int, i: int) {
    && 0 <= i < |schedule|
    && schedule[i].start > now
    && forall j :: 0 <= j < i ==> schedule[j].start <= now
  }

  /** `isElectricityCurrentlyAvailable`: some window contains `now` (half-open). */
  function IsAvailable(schedule: seq<Period>, now: int): (r: bool)
    ensures r <==> exists i :: 0 <= i < |schedule| && Contains(schedule[i], now)
  {
    if schedule == [] then false
    else if Contains(schedule[0], now) then true
    else
      var r := IsAvailable(schedule[1..], now);
      assert r ==> exists i :: 0 <= i < |schedule| && Contains(schedule[i], now) by {
        if r {
          var i :| 0 <= i < |schedule[1..]| && Contains(schedule[1..][i], now);
          assert Contains(schedule[i + 1], now);
        }
      }
      assert (exists i :: 0 <= i < |schedule| && Contains(schedule[i], now)) ==> r by {
        if exists i :: 0 <= i < |schedule| && Contains(schedule[i], now) {
          var i :| 0 <= i < |schedule| && Contains(schedule[i], now);
          assert i > 0 && schedule[1..][i - 1] == schedule[i];
        }
      }
      r
  }

  /** `getCurrentElectricityPeriod`: the first window containing `now`, or none. */
  function CurrentPeriod(schedule: seq<Period>, now: int): (r: Option<Period>)
    ensures r.None? <==> !IsAvailable(schedule, now)
    ensures r.Some? ==> exists i :: IsFirstCurrent(schedule, now, i) && schedule[i] == r.value
  {
    if schedule == [] then None
    else if Contains(schedule[0], now) then
      assert IsFirstCurrent(schedule, now, 0);
      Some(schedule[0])
    else
      var r := CurrentPeriod(schedule[1..], now);
      assert r.Some? ==> exists i :: IsFirstCurrent(schedule, now, i) && schedule[i] == r.value by {
        if r.Some? {
          var i :| IsFirstCurrent(schedule[1..], now, i) && schedule[1..][i] == r.value;
          assert IsFirstCurrent(schedule, now, i + 1);
        }
      }
      assert IsAvailable(schedule, now) == IsAvailable(schedule[1..], now);
      r
  }

  /** `getNextElectricityPeriod`: the first window starting strictly after `now`, or none. */
  function NextPeriod(schedule: seq<Period>, now: int): (r: Option<Period>)
    ensures r.None? <==> forall i :: 0 <= i < |schedule| ==> schedule[i].start <= now
    ensures r.Some? ==> exists i :: IsFirstUpcoming(schedule, now, i) && schedule[i] == r.value
  {
    if schedule == [] then None
    else if schedule[0].start > now then
      assert IsFirstUpcoming(schedule, now, 0);
      Some(schedule[0])
    else
      var r := NextPeriod(schedule[1..], now);
      assert r.Some? ==> exists i :: IsFirstUpcoming(schedule, now, i) && schedule[i] == r.value by {
        if r.Some? {
          var i :| IsFirstUpcoming(schedule[1..], now, i) && schedule[1..][i] == r.value;
          assert IsFirstUpcoming(schedule, now, i + 1);
        }
      }
      assert r.None? <==> forall i :: 0 <= i < |schedule| ==> schedule[i].start <= now by {
        if r.None? {
          forall i | 0 <= i < |schedule| ensures schedule[i].start <= now {
            if i > 0 { assert schedule[1..][i - 1] == schedule[i]; }
          }
        }
      }
      r
  }

  /** Availability includes a window's start instant, excludes its end instant, and is false for an empty schedule. */
  lemma HalfOpenBoundaries(p: Period, now: int)
    requires p.start < p.end
    ensures IsAvailable([p], p.start)
    ensures !IsAvailable([p], p.end)
    ensures !IsAvailable([], now)
  {
  }

  /** With two disjoint windows, `now` is available inside either one and unavailable in the gap between them. */
  lemma AvailabilityTwoWindows(p: Period, q: Period, now: int)
    requires p.end <= q.start
    ensures IsAvailable([p, q], now) <==> Contains(p, now) || Contains(q, now)
    ensures p.end <= now < q.start ==> !IsAvailable([p, q], now)
  {
  }

  // ---------------------------------------------------------------------------
  // Queries on a generated schedule
  // ---------------------------------------------------------------------------

  /**
   * In a generated schedule only the first window can contain `now`; it does
   * exactly when `now` falls in the ON part of the anchored cycle.
   */
  lemma GeneratedCurrent(baseStart: int, now: int, count: int, localTime: int -> Civil)
    ensures var a := Anchor(baseStart, now);
      var s := Emitted(a, count, localTime);
      && (forall i :: 0 < i < |s| ==> !Contains(s[i], now))
      && (IsAvailable(s, now) <==> |s| > 0 && now < a + ON)
      && CurrentPeriod(s, now) == if |s| > 0 && now < a + ON then Some(s[0]) else None
  {
    var a := Anchor(baseStart, now);
    var s := Emitted(a, count, localTime);
    forall i | 0 < i < |s| ensures !Contains(s[i], now) {
      assert s[i].start == a + i * CYCLE;
      assert i * CYCLE >= CYCLE;
    }
    if |s| > 0 && now < a + ON {
      assert Contains(s[0], now);
      var r := CurrentPeriod(s, now);
      var i :| IsFirstCurrent(s, now, i) && s[i] == r.value;
      assert i == 0;
    }
  }

  /** In a generated schedule of two or more windows, the next window is always the second one. */
  lemma GeneratedNext(baseStart: int, now: int, count: int, localTime: int -> Civil)
    ensures var s := Emitted(Anchor(baseStart, now), count, localTime);
      NextPeriod(s, now) == if |s| >= 2 then Some(s[1]) else None
  {
    var a := Anchor(baseStart, now);
    var s := Emitted(a, count, localTime);
    var r := NextPeriod(s, now);
    if |s| >= 2 {
      assert s[1].start > now;
      var i :| IsFirstUpcoming(s, now, i) && s[i] == r.value;
      assert i == 1;
    } else if |s| == 1 {
      assert s[0].start <= now;
    }
  }
}
