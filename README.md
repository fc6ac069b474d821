# Electricity schedule engine

A Dafny model of the schedule engine of the electricity tracker. Grid power follows a fixed cycle: 3 hours ON, then 6 hours OFF, repeating. The cycle is anchored to a base instant (12:00 on 7 February 2026). From that base and the current instant, the engine does three things:

- it finds the start of the cycle that contains `now`;
- it emits `periodCount` ON windows `[start, start + 3h)`, spaced 9 hours apart;
- it answers three point-in-time questions: is power available now, which window is current, and which window is next.

The tracker page builds two decisions on top of the engine: an Active / Past / Upcoming label for each listed window, and the choice of status message.

The engine appears twice in the repository, in `electricity-clock/src/utils/electricity.js` and `electricity-clock/src/scripts/electricity-tracker.js`. Lines 1-58 of the two files are identical. One Dafny module models both copies.

Files:

- `wrappers.dfy`: `Option`, the result of JavaScript's `Array.prototype.find`.
- `format.dfy` (module `Format`): `formatTime` and `formatDate`, with `String(n)` and `padStart(2, '0')` written out. Their facts are stated as lemmas, including round trips back to the numbers.
- `electricity.dfy` (module `Electricity`): the generator and the queries.
- `tracker.dfy` (module `Tracker`): the label and status decisions, and `trackElectricity` / `displayElectricitySchedule` without their DOM writes.

Modelling choices:

- Instants are `int` milliseconds, the value of `Date.prototype.getTime()`. JavaScript compares Dates and subtracts `getTime()` values exactly, so integers model them exactly.
- `new Date()` becomes the parameter `now`.
- The base `new Date(2026, 1, 7, 12, 0, 0)` becomes the parameter `baseStart`. It is built in the host's local time zone.
- Converting an instant to wall-clock fields (`getHours`, `getDate`, …) depends on the host time zone. It becomes the function parameter `localTime: int -> Civil`.
- `ON` = 3 h and `CYCLE` = 9 h are constants in milliseconds, as the code hard-codes them.
- `generateElectricitySchedule` is kept imperative. `FindAnchor` holds the two alignment loops. `GenerateSchedule` calls it and runs the `push` loop. Both are proved equal to the specification functions `Anchor` and `Emitted`.
- `Anchor` is the closed form `baseStart + floor((now - baseStart) / 9h) * 9h`. Dafny's `/` is floor division for a positive divisor.
- A period record keeps `start`, `end` and the wall-clock readings of both instants. Its `startTime`, `endTime` and `date` fields are the member functions `StartTime()`, `EndTime()` and `Date()`, which apply `formatTime` / `formatDate` to those readings. They hold the same strings the code stores.
- `periodCount` is an `int`. A count below one gives an empty schedule, as the loop `i < periodCount` does.

Where the code and its tests disagree, the model follows the code:

- `utils/electricity.test.js:21-61` passes a `config` with other ON/OFF lengths and another reference time to `generateElectricitySchedule`. The function takes no such argument. It always uses 3 h / 9 h and the fixed base.
- The loops walk one cycle at a time. The model keeps the loops and proves that they compute the closed-form anchor.

## Model

| member | source | states |
|---|---|---|
| `Electricity.Anchor` | electricity-clock/src/utils/electricity.js:9-16 | the closed-form anchor brackets `now` (`a <= now < a + 9h`) and differs from the base by a whole number of cycles, whether `now` is before or after the base |
| `Electricity.AnchorUnique` | electricity-clock/src/utils/electricity.js:9-16 | any instant congruent to the base mod 9h with `a <= now < a + 9h` is the anchor: the cycle containing `now` is unique |
| `Electricity.AnchorShiftInvariant` | electricity-clock/src/utils/electricity.test.js:50-60 | moving the base by any whole number of cycles, in either direction, leaves the anchor unchanged |
| `Electricity.FindAnchor` | electricity-clock/src/utils/electricity.js:8-16 | both alignment loops terminate; the result satisfies `a <= now < a + 9h`, is congruent to the base mod 9h, and equals `Anchor` |
| `Electricity.PeriodAt` | electricity-clock/src/utils/electricity.js:19-28 | the record pushed for a start ends exactly 3 hours later |
| `Electricity.Emitted` | electricity-clock/src/utils/electricity.js:18-32 | the emitted schedule has `periodCount` windows (none when the count is below one); window `i` starts at `anchor + i * 9h` and ends 3 h later |
| `Electricity.EmittedStep` | electricity-clock/src/utils/electricity.js:18-32 | one more turn of the loop appends exactly the record for start `anchor + count * 9h` at the back and leaves the earlier windows as they were |
| `Electricity.EmittedRendered` | electricity-clock/src/utils/electricity.js:19-28 | every emitted window is the full record for its own start, so its end and its wall-clock readings (for `startTime`, `endTime`, `date`) are those of `start` and `start + 3h` |
| `Electricity.EmittedShape` | electricity-clock/src/utils/electricity.test.js:11-18 | every emitted window lasts 3 h; consecutive starts are exactly 9 h apart; starts strictly increase, and windows are pairwise disjoint |
| `Electricity.GenerateSchedule` | electricity-clock/src/utils/electricity.js:2-35 | the returned schedule is `Emitted(Anchor(baseStart, now), periodCount)`: it has `periodCount` entries (empty for 0), and its first window starts at or before `now`, less than one cycle earlier, congruent to the base |
| `Electricity.IsAvailable` | electricity-clock/src/utils/electricity.js:45-48 | true if and only if some window has `start <= now < end` |
| `Electricity.CurrentPeriod` | electricity-clock/src/utils/electricity.js:55-58 | returns the first window containing `now` (half-open); returns none exactly when `IsAvailable` is false |
| `Electricity.NextPeriod` | electricity-clock/src/utils/electricity.js:50-53 | returns the first window with `start > now` (strict); returns none exactly when every window has already started |
| `Electricity.HalfOpenBoundaries` | electricity-clock/src/scripts/electricity-tracker.test.js:52-72 | a window counts as available at its exact start and not at its exact end; an empty schedule is never available |
| `Electricity.AvailabilityTwoWindows` | electricity-clock/src/scripts/electricity-tracker.test.js:74-88 | with two disjoint windows, availability holds inside either window and fails in the gap |
| `Electricity.GeneratedCurrent` | electricity-clock/src/scripts/electricity-tracker.js:9-58 | in a generated schedule only the first window can contain `now`; availability holds exactly when `now < anchor + 3h`, and then the current window is the first one |
| `Electricity.GeneratedNext` | electricity-clock/src/scripts/electricity-tracker.js:50-53 | in a generated schedule of two or more windows the next window is the second one; with one window there is none |
| `Format.DecimalStringShape` | electricity-clock/src/utils/electricity.js:38 | `String(n)` is a non-empty run of digits with no leading zero; it has one digit exactly below 10, and at most two exactly below 100 |
| `Format.PadStartShape` | electricity-clock/src/utils/electricity.js:38 | `padStart(width, fill)` yields `max(len, width)` characters, ends with the input, and has only fill characters before it |
| `Format.DecimalRoundTrip` | electricity-clock/src/utils/electricity.js:38 | reading back the digits `String(n)` writes gives `n` |
| `Format.TwoDigitsRoundTrip` | electricity-clock/src/utils/electricity.js:38 | for `n < 100`, `String(n).padStart(2, '0')` is exactly two digits that read back as `n` |
| `Format.FormatTimeRoundTrip` | electricity-clock/src/scripts/electricity-tracker.js:37-39 | for hours 0..23 and minutes 0..59, `formatTime` is 5 characters with ':' at index 2; the hours and minutes read back unchanged |
| `Format.FormatDateRoundTrip` | electricity-clock/src/scripts/electricity-tracker.js:41-43 | for a day in 1..31, a month in 0..11 and a non-negative year, `formatDate` has '/' at indices 2 and 5; day, month + 1 and year read back unchanged |
| `Tracker.Classify` | electricity-clock/src/scripts/electricity-tracker.js:75-83 | Active exactly when `start <= now < end`; Past exactly when `now >= end`; for a window with `start < end`, Upcoming exactly when `now < start`, so exactly one label applies |
| `Tracker.DisplayedStates` | electricity-clock/src/scripts/electricity-tracker.js:68-83 | labels the first `min(10, length)` windows in order |
| `Tracker.GeneratedDisplayedStates` | electricity-clock/src/scripts/electricity-tracker.js:60-83 | on a generated schedule the first listed window is Active (`now < anchor + 3h`) or else Past, and every later one is Upcoming |
| `Tracker.StatusFor` | electricity-clock/src/scripts/electricity-tracker.js:96-116 | the "available" branch is taken exactly when a current window exists, and it shows that window's end time; otherwise "not available" is taken exactly when some window starts after `now`, and it names the first such window |
| `Tracker.GeneratedStatus` | electricity-clock/src/scripts/electricity-tracker.js:96-116 | on a generated schedule of at least two windows exactly one message is chosen: "available until" the first window's end time when `now < anchor + 3h`, otherwise "not available" naming the second window; never unchanged |
| `Tracker.DisplayElectricitySchedule` | electricity-clock/src/scripts/electricity-tracker.js:60-93 | ten labels: the anchored window Active or Past, the other nine Upcoming |
| `Tracker.TrackElectricity` | electricity-clock/src/scripts/electricity-tracker.js:95-120 | the status of the default 56-window schedule is "available until" the wall-clock time of `anchor + 3h` when `now < anchor + 3h`, otherwise "not available" naming the window starting at `anchor + 9h`; it is never left unchanged; then the ten list labels follow |

## Left out

- DOM writes in `displayElectricitySchedule` and `trackElectricity` (`electricity-tracker.js:62-73, 85-91, 101-117`) are browser I/O. Only the decisions are modelled, as returned values.
- The React components (`App.jsx`, `Status.jsx`, `ScheduleList.jsx`) are UI with `useState`/`useEffect` and `setInterval` timers. Their decision logic repeats `electricity-tracker.js:75-83, 103-116`, which is modelled.
- `worker.js` serves static assets over the network.
- `timeUntilNext` (`Math.ceil((nextPeriod.start - new Date()) / 3600000)`) is floating-point division used only for display. The model's `Unavailable` status carries the next window but not this number.
- Converting an instant to wall-clock fields is host time-zone and daylight-saving dependent. It is the parameter `localTime`, so the rendered strings are modelled as a function of whatever fields it returns.
- Building the base with `new Date(2026, 1, 7, 12, 0, 0)` is also time-zone dependent. The base is the parameter `baseStart`.
- The code reads the clock separately in each query and for each listed period. The model uses one `now` for the whole refresh, so a tick of the clock in between is not modelled.
- `Date` values outside ±8.64e15 ms become Invalid Date, and every comparison on them is false. The model's integers are unbounded.
- A non-integer `periodCount` (for example 2.5, which runs the loop three times) is not modelled. The count is an integer.
- The `config` argument used by `utils/electricity.test.js:21-61` has no counterpart in the code, so none in the model.
- `Format.FormatDateRoundTrip`: does not cover negative years. `String` writes them with a leading '-' that the digit reader does not parse.
