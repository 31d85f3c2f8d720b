# Workout dashboard: chart series and daily streak, in Dafny

This project models the two pieces of logic in a browser dashboard for workout
spreadsheets:

- **Chart series** (`DashboardChart.dfy`, module `DashboardChart`). From the
  ordered list of uploaded rows (`Session`: total, running and cycling
  calories, running and cycling distance) the dashboard derives the x-axis
  labels `1..N`, the per-row calories, their running (cumulative) sum, a
  three-point moving average with gaps at the first two indices, the total
  distance per row, the running and cycling calorie totals of the pie chart,
  and each pie slice's percentage. Numbers are exact reals. Every sum is a
  left-to-right fold, in the same order as `reduce`. The running sum is a
  method that fills an array inside a loop with an accumulator, as the
  source does. The other series are functions.
- **Streak counter** (`StreakCounter.dfy`, module `StreakCounter`). The widget
  holds a streak count, the stored instant of the last click (`""` when there
  is none), a disabled flag and a two-key browser store (`myStreak`,
  `myLastClick`). The transitions are pure functions on a `Counter` value:
  `Load` (mount), `Evaluate` (the reset-or-disable effect) and `Click`. The
  class `StreakWidget` holds the same fields and updates them in place. Each
  of its methods is proved to produce exactly the state the matching
  function gives. The countdown under the button splits the milliseconds
  left until midnight into hours, minutes and seconds. It is written over
  exact reals in the source's shape: `Math.floor` of quotients and
  JavaScript's truncating `%`. `Pad` and `TimeLeft` format it as `hh:mm:ss`.
- `Decimal.dfy` holds integer-to-decimal conversion (`toString`) and a strict
  decimal reader. `Wrappers.dfy` holds `Option`.

Inputs that come from the environment are parameters. These are the current
instant `now`, in milliseconds, and the milliseconds left until the next
local midnight. The instant of a click is stored as its decimal numeral
(`Stamp`). This stands in for the ISO-8601 string. Reading it back
(`ReadStamp`) gives `None` where `new Date(...)` would give an invalid date.
In the source an invalid date makes both comparisons of the effect false,
which enables the button. The model does the same.

Points where the code behaves differently from what one might expect:

- The day difference is `floor((now - last) / 86400000)`. That is the number
  of whole 24-hour periods, not calendar days. It is negative when `now` is
  before `last`. A click at 23:59 followed by one at 00:01 is 0 days apart
  here, not 1.
- At the stroke of midnight the "next midnight" is a whole day ahead. So the
  countdown reads `24:00:00`, not `00:00:00`. It reads `00:00:00` only during
  the last second before midnight (`TimeLeftAtMidnight`,
  `TimeLeftSecondAfterMidnight`, `TimeLeftLastSecond`).
- A click is refused only through the disabled flag. The flag is set by a
  click and by the effect; the click handler does not look at the day
  difference itself.
- When the two pie totals sum to zero the percentage divides by zero. The
  model returns `None` there.

## Model

| member | source | states |
|---|---|---|
| `Decimal.NatToString` | src/app/components/DashboardChart.tsx:39 | `toString` of a non-negative integer gives digits only. It has a leading '0' exactly for 0, one digit exactly below 10 and two digits exactly for 10..99 |
| `Decimal.ParseIntToString` | src/app/components/StreakCounter.tsx:18-21 | Reading back any integer's decimal numeral gives that integer, so a stored count loads as the count that was written |
| `Decimal.IntToString` | src/app/components/StreakCounter.tsx:63 | `toString` of any integer is non-empty and starts with '-' exactly for a negative integer. `ParseIntToString` proves that reading it back gives the integer |
| `Decimal.ParseDecimal` | src/app/components/StreakCounter.tsx:21 | Whatever reads as a number is non-empty and either starts with '-' or is all digits. A negative result comes only from a leading '-' |
| `DashboardChart.Sum` | src/app/components/DashboardChart.tsx:190-197 | The left-to-right sum from 0 is never negative when no entry is. `SumAppend` proves it is additive over concatenation |
| `DashboardChart.SumBounds` | src/app/components/DashboardChart.tsx:190-197 | With no negative entry, the total is non-negative and at least every single entry |
| `DashboardChart.Labels` | src/app/components/DashboardChart.tsx:39 | One label per row. `LabelsAreDayNumbers` proves that label `i` reads as `i + 1` |
| `DashboardChart.TotalKcalRunning` | src/app/components/DashboardChart.tsx:190-193 | The running-calorie total is 0 for no rows and non-negative when no row is negative |
| `DashboardChart.TotalKcalCycling` | src/app/components/DashboardChart.tsx:194-197 | The cycling-calorie total is 0 for no rows and non-negative when no row is negative |
| `DashboardChart.Percentage` | src/app/components/DashboardChart.tsx:221-227 | A slice has a percentage exactly when the slices' sum is nonzero. The percentage times the sum is the value times 100 |
| `StreakCounter.Load` | src/app/components/StreakCounter.tsx:17-22 | Mounting only reads the store and does not touch the button. The last click is either kept or taken from the stored `myLastClick` |
| `StreakCounter.Evaluate` | src/app/components/StreakCounter.tsx:26-53 | The effect either changes only the disabled flag, or resets to streak 0, no last click and an enabled button |
| `StreakCounter.Click` | src/app/components/StreakCounter.tsx:56-67 | A click either changes nothing, or, on an enabled button, adds one to the streak, records a last click and disables the button |
| `StreakCounter.Truncate` | src/app/components/StreakCounter.tsx:83-84 | The integer part of a quotient, rounded toward zero as JavaScript's `%` does: at most the quotient for a non-negative one, at least it for a negative one, and less than one away |
| `StreakCounter.Rem60` | src/app/components/StreakCounter.tsx:83-84 | JavaScript's `% 60` on a real: the remainder has the sign of the dividend, is smaller than 60 in magnitude, and the dividend minus it is a whole multiple of 60 |
| `StreakCounter.FloorOfRemainder` | src/app/components/StreakCounter.tsx:83-84 | For a non-negative count of milliseconds, `Math.floor((n / u) % 60)` is the integer `(n div u) mod 60` |
| `StreakCounter.Countdown` | src/app/components/StreakCounter.tsx:82-84 | For a non-negative difference the hours are non-negative and minutes and seconds lie in 0..59. For a negative one the hours are negative and minutes and seconds lie in -60..0 |
| `StreakCounter.PadStart` | src/app/components/StreakCounter.tsx:7 | The result has the requested width, or the input's width if larger. It ends with the input and is filled before it |
| `StreakCounter.Pad` | src/app/components/StreakCounter.tsx:6-8 | The result has at least two characters and ends with the numeral of `n`. `PadDigits` gives the exact shape for 0..99 |
| `StreakCounter.TimeLeft` | src/app/components/StreakCounter.tsx:86 | The text has at least eight characters. `TimeLeftShape` gives the exact `hh:mm:ss` shape below 100 hours |
| `DashboardChart.LabelsAreDayNumbers` | src/app/components/DashboardChart.tsx:39 | There is one label per row, and label `i` is a numeral without leading zero that reads as `i + 1` |
| `DashboardChart.KcalTotal` | src/app/components/DashboardChart.tsx:43 | The per-row calorie series has one entry per row |
| `DashboardChart.CumulativeKcal` | src/app/components/DashboardChart.tsx:46-50 | Same length as the input. Entry `i` is the sum of entries `0..i` inclusive. Entry 0 is the first value, and each later entry exceeds the previous one by the value at its index |
| `DashboardChart.MovingAvg` | src/app/components/DashboardChart.tsx:53-56 | The moving average has one entry per input value |
| `DashboardChart.MovingAvgLeadingGaps` | src/app/components/DashboardChart.tsx:53-54 | Entries 0 and 1 are gaps (`None`), so an input shorter than three is all gaps |
| `DashboardChart.MovingAvgIsWindowMean` | src/app/components/DashboardChart.tsx:55 | From index 2 on, the entry is the sum of the window `i-2..i` divided by three |
| `DashboardChart.MovingAvgIsCausal` | src/app/components/DashboardChart.tsx:53-56 | Entry `i` depends only on the inputs at indices up to `i` |
| `DashboardChart.MovingAvgExample` | src/app/components/DashboardChart.tsx:53-56 | Calories 10, 20, 30 give gap, gap, 20 |
| `DashboardChart.DistRunning` | src/app/components/DashboardChart.tsx:126-128 | The running-distance series has one entry per row |
| `DashboardChart.DistCycling` | src/app/components/DashboardChart.tsx:129-131 | The cycling-distance series has one entry per row |
| `DashboardChart.TotalDistance` | src/app/components/DashboardChart.tsx:133-135 | The total-distance series has one entry per row |
| `DashboardChart.TotalDistanceSum` | src/app/components/DashboardChart.tsx:133-135 | Entry `i` is row `i`'s running plus cycling distance. Over the whole list the series sums to the running total plus the cycling total |
| `DashboardChart.KcalRunning` | src/app/components/DashboardChart.tsx:191 | The running-calorie column has one entry per row |
| `DashboardChart.KcalCycling` | src/app/components/DashboardChart.tsx:195 | The cycling-calorie column has one entry per row |
| `DashboardChart.CategoryTotalsProperties` | src/app/components/DashboardChart.tsx:190-197 | Both category totals are 0 for no rows. They add up over any split of the rows, and are non-negative when no row is negative |
| `DashboardChart.PieSlices` | src/app/components/DashboardChart.tsx:199-210 | The pie data set has exactly two slices |
| `DashboardChart.PieSlicesTotal` | src/app/components/DashboardChart.tsx:199-210 | The first slice is the running-calorie total and the second the cycling total. Together they sum to every row's running plus cycling calories |
| `DashboardChart.PercentagesOfPie` | src/app/components/DashboardChart.tsx:221-228 | For a nonzero sum both slices get a percentage, and the two add up to exactly 100. With no negative slice each lies in [0, 100] |
| `DashboardChart.PercentageExample` | src/app/components/DashboardChart.tsx:221-227 | Totals 300 and 700 give 30 and 70 |
| `StreakCounter.StampRoundTrip` | src/app/components/StreakCounter.tsx:61-64 | A stored click instant reads back as the same instant and is never the empty "no click" string |
| `StreakCounter.DayDiff` | src/app/components/StreakCounter.tsx:33-34 | The day difference `d` is the floor: `d` whole days fit in `now - last` and `d + 1` do not. It may be negative |
| `StreakCounter.LoadReadsPresentKeys` | src/app/components/StreakCounter.tsx:11-23 | Mounting sets the streak only from a present, non-empty, numeric `myStreak`. It leaves it 0 when the key is absent, empty or not a numeral. It sets the last click only from a present `myLastClick`, and otherwise leaves it "". The button stays enabled and the store is only read |
| `StreakCounter.LoadRestores` | src/app/components/StreakCounter.tsx:17-23 | Loading a reachable state's store into a fresh widget gives back its streak and last click |
| `StreakCounter.EvaluateWithoutLastClick` | src/app/components/StreakCounter.tsx:27 | With no last click the effect changes nothing |
| `StreakCounter.EvaluateResets` | src/app/components/StreakCounter.tsx:36-43 | After 4 or more whole days: streak 0, no last click, store holds `myStreak = "0"` and no `myLastClick`, button enabled. Evaluating again at any time changes nothing |
| `StreakCounter.EvaluateBelowReset` | src/app/components/StreakCounter.tsx:46-52 | Below 4 days, streak, last click and store are unchanged. The button is disabled exactly when the difference is 0, that is when `0 <= now - last < 86400000`; a negative difference enables it |
| `StreakCounter.EvaluateUnreadableLastClick` | src/app/components/StreakCounter.tsx:29-52 | A last click that does not read as an instant only enables the button: streak, last click and store stay as they are |
| `StreakCounter.EvaluateIdempotent` | src/app/components/StreakCounter.tsx:26-53 | Running the effect twice at the same instant equals running it once |
| `StreakCounter.ClickWhileDisabled` | src/app/components/StreakCounter.tsx:57 | A click on a disabled button leaves the whole state and the store unchanged |
| `StreakCounter.ClickWhileEnabled` | src/app/components/StreakCounter.tsx:56-67 | Streak becomes old + 1 and the last click reads back as `now`. The store reads back as the same two values, keeps every other key and gains no other key. The button is disabled, so a second click at any later instant changes nothing, and the effect re-run within the same day changes nothing |
| `StreakCounter.ClickRearmsNextDay` | src/app/components/StreakCounter.tsx:46-52 | One to three whole days after a click, the effect enables the button and changes nothing else |
| `StreakCounter.TransitionsKeepConsistent` | src/app/components/StreakCounter.tsx:26-67 | The effect and the click keep the invariant: streak >= 0, streak 0 exactly when there is no last click, and the store mirrors both |
| `StreakCounter.InitialConsistent` | src/app/components/StreakCounter.tsx:11-23 | The fresh widget over an empty store satisfies the invariant, and loading from that store changes nothing |
| `StreakCounter.StreakScenario` | src/app/components/StreakCounter.tsx:26-67 | Click gives 1, and a same-instant click is ignored. A day later a click gives 2. Four more days without a click reset to 0 with no last click |
| `StreakCounter.CountdownFields` | src/app/components/StreakCounter.tsx:80-84 | For `diff >= 0` the fields are `diff div 3600000`, `(diff div 60000) mod 60` and `(diff div 1000) mod 60`. Minutes and seconds lie in 0..59, and `h*3600 + m*60 + s == diff div 1000` |
| `StreakCounter.PadDigits` | src/app/components/StreakCounter.tsx:6-8 | For 0..99 the result has two digits, a leading '0' exactly below 10, and reads as `n`. From 10 on it is the plain numeral |
| `StreakCounter.TimeLeftShape` | src/app/components/StreakCounter.tsx:86 | Below 100 hours the text has 8 characters with colons at 2 and 5, and its digit pairs read as hours, minutes, seconds |
| `StreakCounter.TimeLeftAtMidnight` | src/app/components/StreakCounter.tsx:72-86 | At midnight the next midnight is a full day away: the fields are 24, 0, 0 and the text reads 24:00:00 |
| `StreakCounter.TimeLeftSecondAfterMidnight` | src/app/components/StreakCounter.tsx:72-86 | One second after midnight the fields are 23, 59, 59 and the text reads 23:59:59 |
| `StreakCounter.TimeLeftLastSecond` | src/app/components/StreakCounter.tsx:72-86 | In the last second before midnight the fields are 0, 0, 0 and the text reads 00:00:00 |
| `StreakCounter.FieldsText` | src/app/components/StreakCounter.tsx:82-86 | A difference of `h` hours, `m` minutes, `sec` seconds and `ms` milliseconds, each in range, has the fields `h`, `m`, `sec` and shows their padded numerals joined by colons |
| `StreakCounter.PadOf` | src/app/components/StreakCounter.tsx:6-8 | A value in 0..99 pads to exactly its tens digit followed by its units digit |
| `StreakCounter.StreakWidget.constructor` | src/app/components/StreakCounter.tsx:11-14 | Initial state: streak 0, no last click, enabled, empty countdown, over the given store |
| `StreakCounter.StreakWidget.LoadStored` | src/app/components/StreakCounter.tsx:17-23 | The new state is `Load` of the old one, and the countdown text is unchanged |
| `StreakCounter.StreakWidget.EvaluateAt` | src/app/components/StreakCounter.tsx:26-53 | The new state is `Evaluate` of the old one at `now`, and the countdown text is unchanged |
| `StreakCounter.StreakWidget.HandleClick` | src/app/components/StreakCounter.tsx:56-67 | The new state is `Click` of the old one at `now`, and the countdown text is unchanged |
| `StreakCounter.StreakWidget.UpdateCountdown` | src/app/components/StreakCounter.tsx:71-87 | The countdown text becomes `hh:mm:ss` of the given difference, and the streak state is unchanged |

## Left out

- File upload, spreadsheet decoding, the table markup and the error logging of the page component. These are I/O and a foreign library.
- Chart.js registration, the chart option objects and all rendering markup. These are presentation over an external library.
- `parseFloat` of cells, not-a-number propagation, IEEE rounding and `toFixed(2)`. Values are exact reals, so a malformed cell is not modelled.
- `Date` construction, ISO-8601 strings, time zones, daylight saving and the computation of the next midnight. Instants are integer milliseconds; the time to midnight is an input.
- The range of valid `Date` values: every integer is accepted as an instant.
- React's effect scheduling, `setInterval`/`clearInterval` and the timing of `setStreak` against the stored `streak + 1`. Transitions run one at a time, in the order the caller gives.
- Load: a stored `myStreak` that is not a plain decimal numeral is ignored. `parseInt` would give not-a-number, or read a leading numeral and drop the rest.
- DashboardChart.CumulativeKcal: values are exact reals, so it does not state the floating-point rounding of the running sum.
- DashboardChart.MovingAvgIsWindowMean: values are exact reals, so it does not state the rounding of the sum and the division by three.
- DashboardChart.PercentagesOfPie: values are exact reals, so the two percentages add up to exactly 100 here; in floating point they may differ from 100 by a rounding error.
- StreakCounter.CountdownFields: states the integer form only for `diff >= 0`. The time to the next midnight is always positive, and `Countdown` itself takes every integer.
