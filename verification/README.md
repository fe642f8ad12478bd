# ImPlot core and component generators, verified in Dafny

This project models the parts of the repository with the most intricate logic and proves what they
promise. It covers the vendored ImPlot v0.17 (colormaps, the time and log axes, axis limits, subplots
and alignment) and the two Python scripts that print and read back the component tuple.

| file | part |
|---|---|
| `Numbers.dfy`, `Options.dfy`, `Ranges.dfy` | C++ integer division and casts, values that may be missing, ranges |
| `Calendar.dfy`, `CalendarSteps.dfy` | the Gregorian calendar behind `gmtime`/`timegm`, and month and year steps |
| `PlotTime.dfy`, `TimeBoundaries.dfy`, `TimeRounding.dfy` | `ImPlotTime`, `AddTime`, `FloorTime`, `CeilTime`, `RoundTime` |
| `TimeTicks.dfy`, `LogTicks.dfy` | the time and logarithmic tick locators |
| `DatePicker.dfy` | the day grid of the date picker |
| `PackedColor.dfy`, `ColormapLerp.dfy`, `ColormapStore.dfy` | packed colour blending, table sampling, the colormap store |
| `Axis.dfy` | axis limits under constraints, plot and pixel coordinates |
| `Subplots.dfy`, `SubplotCells.dfy`, `Alignment.dfy` | subplot ratios, cell enumeration, padding alignment |
| `Components.dfy` | printer and parser of the `ComponentDirectory` tuple |

Operations that change state are methods of classes with the source's fields. Each is proved against a
function of its arguments or of the old state, and the lemmas speak of those functions.

How quantities are modelled:

- Floating-point values are reals. `log10` is any function that finds the right decade.
- 32-bit and 64-bit words are natural numbers. `&` and `|` are defined bit by bit, and arithmetic on
  words wraps explicitly.
- `gmtime_r` and `timegm` are defined from the code's own `IsLeapYear` and `GetDaysInMonth` and proved
  equal to section 4.16 (Seconds Since the Epoch) of the POSIX.1-2017 Base Definitions.
- Label widths, label formatters, natural paddings, mouse input and the name hash are inputs.

Where the code does not do what its comments say, the model follows the code. The exact condition
under which the promise holds is proved, beside a concrete input that breaks it:

- `RoundTime` is documented to round to the nearest unit, but always rounds down to a second, rounds down
  to a millisecond in the last millisecond of a second, and for units from the minute up moves every time
  before the epoch to the epoch, which is the nearest boundary only within half a unit of it
  (`RoundExact`, `RoundingFails`, `RoundingBeforeEpochFails`).
- `CeilTime` is documented to round up, but moves a time already on a boundary to the next boundary, and
  before the epoch skips the epoch for units from the minute up (`CeilRoundsUpIff`, `CeilIsNext`, `CeilFails`).
- `FloorTime` moves times before the epoch up to the epoch for units from the minute up
  (`FloorIsLastIff`, `FloorFails`).
- `AddTime` by n months keeps the day of the month exactly when every month on the way has that day, and
  otherwise ends up one month late on day 1 to 3 (`AddMonthsExact`, `MonthEndFails`). By n years it keeps
  the date exactly when the date exists in the other year, from March on both years are equally long, and
  the date is not day 366 of its year (`AddYearsExact`, `LeapYearFails`, `LastOfLeapYearFails`).
- The arrows of the date picker step from the selected day: "down" skips a month without that day, and "up"
  then stays in the same month (`ArrowMoves`, `ArrowsFail`).
- `AddTime` by a negative number of microseconds or milliseconds can return a time with negative
  microseconds, and so can `operator-` (`AddKeepsNormalIff`, `AddNormalFails`, `PlusMinusExact`,
  `MinusNormalFails`).
- `FromDouble` is a second late for negative times with a fraction (`FromDoubleExact`, `FromDoubleFails`).
- `Constrain` can leave the range limits when it has to widen a range, and is then not idempotent
  (`ConstrainedInsideIff`, `ConstrainIdempotentIff`, `ConstrainFails`).
- A frame of a subplot keeps the sum of the ratios exactly when the drag is measured from remembered sizes
  that make up the dragged pair. A hold that goes on while the number of rows changes breaks this
  (`FrameWholeIff`, `RunWholeIff`, `StaleSizesFail`).

## Model

| member | source | states |
|---|---|---|
| Calendar.MonthLengthsAlternate | andromeda/bindings/implot/implot_internal.h:1566-1573 | Month lengths without the table: February has 28 or 29 days by the Gregorian rule, and the others alternate between 31 and 30 from January and again from August. |
| Calendar.DaysBeforeMonthIs | andromeda/bindings/implot/implot_internal.h:1570-1573 | The days before each month without the table: five months from March on have 153 days. |
| Calendar.MonthsFillYear | andromeda/bindings/implot/implot_internal.h:1566-1573 | The month table sums to 365 or 366 days, as `IsLeapYear` says, for every year. |
| Calendar.YearsArePosix | andromeda/bindings/implot/implot_internal.h:1566-1568 | The days counted with `IsLeapYear` are those of the POSIX year terms, for every year. |
| Calendar.TimeGmOfGmTime | andromeda/bindings/implot/implot.cpp:916-939 | Breaking any second count down gives fields that are in range and agree with each other, and `timegm` puts them together to the same count. |
| Calendar.GmTimeOfTimeGm | andromeda/bindings/implot/implot.cpp:916-939 | The other direction: every valid broken-down time comes back from its second count. |
| Calendar.GmTimeIsPosixInverse | andromeda/bindings/implot/implot.cpp:916-939 | A valid broken-down time satisfies the POSIX formula for a second count exactly when it is what `gmtime` returns for it. |
| PlotTime.TimeContext.AddTime | andromeda/bindings/implot/implot.cpp:994-1024 | The loops over the shared broken-down time compute `Added`, and what they leave in the shared time. |
| PlotTime.TimeContext.FloorTime | andromeda/bindings/implot/implot.cpp:1026-1041 | The fall-through switch over the shared broken-down time computes `Floored`, and what it leaves in the shared time. |
| CalendarSteps.AddMonthsKeepsDay | andromeda/bindings/implot/implot.cpp:1004-1011 | From days 1 to 28, adding any number of months of either sign keeps the day and the time of day, that many months away. |
| CalendarSteps.AddMonthsRoundTrip | andromeda/bindings/implot/implot.cpp:1004-1011 | From days 1 to 28, adding n months and then -n months is the identity. |
| CalendarSteps.AddMonthsExact | andromeda/bindings/implot/implot.cpp:1004-1011 | For every date and any number of months of either sign, the day of the month and the time of day are kept exactly when every month on the way has that day; otherwise the result lies on day 1 to 3 of the month after the intended one. |
| CalendarSteps.AddMonthExact | andromeda/bindings/implot/implot.cpp:1004-1011 | The case of one month: the neighbouring month has that day. |
| CalendarSteps.MonthEndFails | andromeda/bindings/implot/implot.cpp:1004-1011 | A month after 31 January 1970 is 3 March 1970. |
| CalendarSteps.AddYearsKeepsDate | andromeda/bindings/implot/implot.cpp:1013-1020 | From 1 January to 28 February, adding any number of years of either sign keeps the date and the time of day. |
| CalendarSteps.AddYearsRoundTrip | andromeda/bindings/implot/implot.cpp:1013-1020 | From 1 January to 28 February, adding n years and then -n years is the identity. |
| CalendarSteps.AddYearsExact | andromeda/bindings/implot/implot.cpp:1013-1020 | For every date and any number of years of either sign, the date and the time of day are kept exactly when the date exists in the other year, from March on both years are equally long, and the date is not day 366 (or nothing is added). |
| CalendarSteps.LeapYearFails | andromeda/bindings/implot/implot.cpp:1013-1020 | A year after 1 March 1972 is 2 March 1973. |
| CalendarSteps.LastOfLeapYearFails | andromeda/bindings/implot/implot.cpp:1013-1020 | A year after 31 December 1972 is 1 January 1974. |
| TimeBoundaries.BoundaryIffAt | andromeda/bindings/implot/implot.cpp:1029-1039 | The instants whose finer calendar fields are clear are exactly the numbered boundaries `At(unit, k)`. |
| TimeRounding.AddedAtIff | andromeda/bindings/implot/implot.cpp:997-1020 | Adding n units, forward or back, to the k-th boundary gives boundary k + n, for every unit from the second up always, and for microseconds and milliseconds exactly when the microseconds do not go below zero or reach a whole second. |
| TimeRounding.FloorIsLastIff | andromeda/bindings/implot/implot.cpp:1026-1041 | `FloorTime` gives the last boundary not after t exactly when t is not before the epoch or the unit is a second or finer; otherwise it gives the epoch. |
| TimeRounding.FloorFails | andromeda/bindings/implot/implot.cpp:1026-1041 | A minute before the epoch, itself a boundary, is floored up to the epoch. |
| TimeRounding.CeilIsNext | andromeda/bindings/implot/implot.cpp:1043-1045 | `CeilTime` gives the first boundary after t exactly when t is not before the epoch or the unit is a second or finer. |
| TimeRounding.CeilBeforeEpoch | andromeda/bindings/implot/implot.cpp:1043-1045 | Otherwise it gives the boundary after the epoch, although the epoch itself is a boundary after t. |
| TimeRounding.CeilRoundsUpIff | andromeda/bindings/implot/implot.cpp:1043-1045 | `CeilTime` rounds up, to the first boundary not before t, exactly when in addition t is not a boundary itself. |
| TimeRounding.CeilFails | andromeda/bindings/implot/implot.cpp:1043-1045 | One minute after the epoch is rounded up to two minutes, one minute before it to one minute after it. |
| TimeRounding.CeilOfBoundary | andromeda/bindings/implot/implot.cpp:1043-1045 | A time on a boundary is its own floor exactly when it is not before the epoch or the unit is a second or finer, and its ceiling is then the next boundary. |
| TimeRounding.FloorIdempotent | andromeda/bindings/implot/implot.cpp:1026-1041 | Flooring twice is flooring once, before the epoch too. |
| TimeRounding.FloorOfFloor | andromeda/bindings/implot/implot.cpp:1026-1041 | Flooring to a finer and then to a coarser unit is flooring to the coarser one, before the epoch too. |
| TimeRounding.FloorMonotone | andromeda/bindings/implot/implot.cpp:1026-1041 | Flooring keeps the order of times, before the epoch too. |
| TimeRounding.FloorCeilBracket | andromeda/bindings/implot/implot.cpp:1026-1045 | The floor is not after t and the ceiling is after t exactly when t is not before the epoch or the unit is a second or finer; no boundary ever lies strictly between the two. |
| TimeRounding.RoundExact | andromeda/bindings/implot/implot.cpp:1047-1053 | For every normal time and unit, `RoundTime` returns the boundary nearest in microseconds among all boundaries, ties going up, exactly when the unit is not S with half a second or more, nor Ms with half a millisecond or more in the last millisecond of a second, nor from the minute up with a time further before the epoch than half the last unit before it. |
| TimeRounding.NearestIff | andromeda/bindings/implot/implot.cpp:1047-1053 | The nearest of all boundaries is the nearer of the two around t, and no other time. |
| TimeRounding.RoundBeforeEpoch | andromeda/bindings/implot/implot.cpp:1047-1053 | Every time before the epoch is rounded to the epoch for units from the minute up. |
| TimeRounding.RoundingBeforeEpochFails | andromeda/bindings/implot/implot.cpp:1047-1053 | An hour before the epoch, itself a whole minute, is rounded to the epoch. |
| TimeRounding.RoundingFails | andromeda/bindings/implot/implot.cpp:1047-1053 | 0.7 s is rounded down to the second, and 0.9999 s down to 0.999 s. |
| TimeRounding.AddFixed | andromeda/bindings/implot/implot.cpp:998-1003 | Adding units up to the day adds exactly that many microseconds, for every time, normal or not. |
| TimeRounding.AddKeepsNormalIff | andromeda/bindings/implot/implot_internal.h:299 | Rolling over keeps a normal time normal exactly when the microseconds do not go below zero or reach a whole second. |
| TimeRounding.PlusMinusExact | andromeda/bindings/implot/implot_internal.h:304-307 | Sums and differences are exact in microseconds; a difference is normal exactly when it does not borrow. |
| TimeRounding.MinusNormalFails | andromeda/bindings/implot/implot_internal.h:306-307 | A whole second less one microsecond comes out with a negative microsecond. |
| TimeRounding.ToDoubleIsMicros | andromeda/bindings/implot/implot_internal.h:300 | `ToDouble` is the microsecond count over a million, so tick positions are in the order of the times. |
| TimeRounding.FromDoubleExact | andromeda/bindings/implot/implot_internal.h:301 | `FromDouble` keeps the whole microseconds exactly for times from zero on and whole seconds; other negative times come out one second late. |
| TimeTicks.GetTimeStep | andromeda/bindings/implot/implot.cpp:866-914 | The table search returns the step of the last table entry not above the requested density, or 0. |
| TimeTicks.StepIsSmallest | andromeda/bindings/implot/implot.cpp:866-914 | For every unit and density the step is the smallest of those on offer that cuts the whole span (for days that of the shortest month) into no more parts than wanted, and 0 if fewer than two are wanted. |
| TimeTicks.StepFillsSpan | andromeda/bindings/implot/implot.cpp:877-914 | For all units but the day, step times division count is the whole span, and the division count is the largest table entry not above the density. |
| TimeTicks.LabelsFit | andromeda/bindings/implot/implot.cpp:1245-1252 | The minor density is the largest whole number of labels that fill at most half of a nominal division. |
| TimeTicks.SpansAre | andromeda/bindings/implot/implot.cpp:857-866 | The unit spans are the lengths of the units in seconds; a year is 365.25 days and a month a twelfth of it. |
| TimeTicks.PixelsBetweenIs | andromeda/bindings/implot/implot.cpp:1277 | The pixel distance that decides on a minor label is proportional to the microseconds between the times, normal or not. |
| TimeTicks.DivisionsBetweenMajors | andromeda/bindings/implot/implot.cpp:1274-1289 | For all units but the day, the minor positions inside a division are exactly those at 1 to divs - 1 steps. |
| TimeTicks.TimeTicker.Locate | andromeda/bindings/implot/implot.cpp:1244-1292 | The nested loops end and add, behind whatever ticks there were, exactly the specified ticks with their texts in order: level 0 strictly increases inside the range, its major ticks are exactly the boundaries b of the coarser unit with t_min <= b < t_max (from the epoch on, for the units `FloorTime` clamps), level 1 has one tick for each of them after the early one if there is any, the first in its own format, and hides exactly the labels that repeat the one before. |
| TimeTicks.MajorTickIff | andromeda/bindings/implot/implot.cpp:1234-1271 | In terms of the axis limits: b has a labelled major tick exactly when it is a boundary of the next coarser unit, not before the epoch for units from the second up, and its microseconds are at least those of the lower limit and below those of the upper one. |
| TimeTicks.MinorTickIff | andromeda/bindings/implot/implot.cpp:1274-1289 | In the same terms: boundary m of a division has a minor tick exactly when more than one label fits a division, m lies a whole positive number of steps after its start, and it is inside the limits; its label is shown exactly when it is no wider than the pixels to the next major boundary. |
| TimeTicks.EveryTickIs | andromeda/bindings/implot/implot.cpp:1257-1290 | There are no other level 0 ticks, and all of them lie between the limits. |
| TimeTicks.HasRoomIff | andromeda/bindings/implot/implot.cpp:1282 | A minor tick can carry the early level 1 label exactly when its own label, and half of both level 1 formats, fit before the next major boundary. |
| TimeTicks.LabelSameIff | andromeda/bindings/implot/implot.cpp:1164-1169 | Two labels count as the same exactly when one is the end of the other. |
| TimeTicks.LabelsFollow | andromeda/bindings/implot/implot.cpp:1262-1288 | Each level 1 tick comes right behind a level 0 tick at the same time. |
| TimeTicks.TickAtTenHours | andromeda/bindings/implot/implot.cpp:1257-1271 | On an axis from 0 to 12 hours there is a major tick at 10 hours. |
| TimeTicks.AreLocated | andromeda/bindings/implot/implot.cpp:1244-1292 | The specified ticks have all these properties, for every range and every unit below the year. |
| TimeTicks.LevelOneTimes | andromeda/bindings/implot/implot.cpp:1262-1288 | The level 1 ticks lie at the first minor tick with room for a label before any major one, if there is one, and at all major ticks, in this order. |
| TimeTicks.EarlyIff | andromeda/bindings/implot/implot.cpp:1282-1287 | The early tick is the first one with room for a label, if no major tick comes before it. |
| TimeTicks.LabelsAre | andromeda/bindings/implot/implot.cpp:1262-1288 | The first level 1 label is shown in its own format; each later one is hidden exactly when it and the one before end alike. |
| TimeTicks.MajorTicksAre | andromeda/bindings/implot/implot.cpp:1257-1271 | The specified ticks contain a major tick at b exactly when b is such a boundary, for every range, also one that starts before the epoch. |
| TimeTicks.MinorTicksAreSteps | andromeda/bindings/implot/implot.cpp:1274-1289 | The minor ticks are exactly the shown boundaries a positive whole number of steps after the start of their division and before its end, if that division is reached. |
| TimeTicks.TicksIncrease | andromeda/bindings/implot/implot.cpp:1257-1290 | The specified level 0 ticks strictly increase and lie in the range. |
| LogTicks.RawStepIsLargest | andromeda/bindings/implot/implot.cpp:765-770 | Before adjustment the step is the largest number of decades that fits into the range as often as labels are wanted, and at least one. |
| LogTicks.AdjustExponents | andromeda/bindings/implot/implot.cpp:774-777 | Both adjustment loops end: the step is the next multiple of three and the smallest exponent the next multiple of the step downwards. |
| LogTicks.LogTicker.AddTicksLogarithmic | andromeda/bindings/implot/implot.cpp:783-803 | The three nested loops emit one tick for each position of the log grid in range, decade by decade, major exactly at every step-th decade. |
| LogTicks.EveryValueHasTick | andromeda/bindings/implot/implot.cpp:763-809 | Every value m * 10^k of a range on one side of zero with 1 <= m <= 9 has its tick, labelled as a major exactly when m is 1 and k a multiple of the step. |
| LogTicks.ValueHasTick | andromeda/bindings/implot/implot.cpp:763-809 | The same with the value written out, for ranges on either side of zero. |
| LogTicks.EveryTickIsValue | andromeda/bindings/implot/implot.cpp:763-809 | Every tick is such a value, within the tolerance of the range test. |
| LogTicks.NoTickTwice | andromeda/bindings/implot/implot.cpp:783-809 | The sizes of the ticks strictly increase, so no value has two. |
| DatePicker.DayGrid | andromeda/bindings/implot/implot.cpp:5492-5572 | The 42 cells are the days from the Sunday on or before the first of the shown month, greyed exactly outside it; the shown month is that of t, or of the epoch for earlier times. |
| DatePicker.GridIsConsecutive | andromeda/bindings/implot/implot.cpp:5528-5572 | Neighbouring cells are consecutive dates by the calendar's own rule, over month and year ends. |
| DatePicker.ColumnsAreWeekdays | andromeda/bindings/implot/implot.cpp:5528-5572 | Column j always holds weekday j. |
| DatePicker.MonthShownOnce | andromeda/bindings/implot/implot.cpp:5528-5572 | Every day of the shown month has a cell, no date has two cells, and the greyed cells are exactly those of other months. |
| DatePicker.ArrowMoves | andromeda/bindings/implot/implot.cpp:5493-5519 | The arrow buttons show the next or last month exactly when it has the selected day; otherwise "down" skips it and "up" stays. |
| DatePicker.ArrowKeepsDay | andromeda/bindings/implot/implot.cpp:5493-5519 | An arrow keeps the selected day, at midnight, where the month has it; otherwise the day becomes the 1st to the 3rd. |
| DatePicker.ArrowsFail | andromeda/bindings/implot/implot.cpp:5493-5519 | From 31 January 1970 "down" shows March, and from 31 March "up" shows March again. |
| DatePicker.ClickSelectsDate | andromeda/bindings/implot/implot.cpp:959-980 | A click on a cell from 1970 on selects midnight of its date. |
| PackedColor.MixFormsAgree | andromeda/bindings/implot/implot_internal.h:181-200 | The 32-bit and the 64-bit form of the blend are equal for all colours and weights up to 256, with no carry between lanes and no overflow. |
| PackedColor.MixExact | andromeda/bindings/implot/implot_internal.h:181-200 | Each channel of the blend is the floor of the weighted mean of the channels. |
| ColormapLerp.LerpIndexInside | andromeda/bindings/implot/implot_internal.h:413-418 | For t in [0, 1] the sampled index lies inside the table of its own map. |
| ColormapLerp.ContinuousKeys | andromeda/bindings/implot/implot_internal.h:353-390 | A continuous map gives its i-th key exactly at t = i / (n - 1). |
| ColormapLerp.QualitativeKeys | andromeda/bindings/implot/implot_internal.h:413-418 | A qualitative map of n keys gives key i exactly on its part of [0, 1], from i / n up to (i + 1) / n, and the last key at 1. |
| ColormapLerp.ContinuousNearest | andromeda/bindings/implot/implot_internal.h:413-418 | A continuous map gives the nearest entry of its table. |
| ColormapLerp.QualitativeEnds | andromeda/bindings/implot/implot_internal.h:413-418 | A qualitative map gives its first key at 0 and its last key at 1. |
| ColormapLerp.LerpAtKey | andromeda/bindings/implot/implot_internal.h:203-213 | Direct interpolation at t = i / (n - 1) gives the i-th key. |
| ColormapLerp.TableNearLerp | andromeda/bindings/implot/implot_internal.h:203-213 | For every continuous map and every t in [0, 1], sampling the table differs from direct interpolation by at most one in each channel. |
| ColormapStore.ColormapData.Append | andromeda/bindings/implot/implot_internal.h:335-351 | Adding a map keeps all arrays, the name text and the index what the lists of maps and names determine; a name whose hash is that of a name held is refused and changes nothing. |
| ColormapStore.ColormapData.GetName | andromeda/bindings/implot/implot_internal.h:401 | The text read from the offset of a map up to the terminator is the name the map was added under. |
| ColormapStore.ColormapData.NamesAndIndices | andromeda/bindings/implot/implot_internal.h:401-402 | Every map is found by its name, and a name is found exactly when its hash is that of a name held. |
| ColormapStore.ColormapData.AppendTable | andromeda/bindings/implot/implot_internal.h:353-390 | Pushing the entries of one more map extends the tables of the first n maps to those of the first n + 1. |
| ColormapStore.ColormapData.RebuildTables | andromeda/bindings/implot/implot_internal.h:392-398 | Rebuilding gives the tables the keys determine, and changes nothing if they were there already. |
| ColormapStore.ColormapData.SetKeyColor | andromeda/bindings/implot/implot_internal.h:407 | Exactly the one key changes, and the tables follow it. |
| ColormapStore.ColormapData.LerpTable | andromeda/bindings/implot/implot_internal.h:413-418 | Reading the flattened tables at the offset of a map gives a sample of the table its own keys determine. |
| ColormapStore.OffsetsArePrefixSums | andromeda/bindings/implot/implot_internal.h:338-339 | The offsets of a layout start at zero and grow by the sizes, up to the total length. |
| Axis.ConstrainedIs | andromeda/bindings/implot/implot_internal.h:806-826 | Limits and center on each path: a limit outside the range limits moves to them and the other stays; a size outside the zoom limits becomes the nearest allowed one around the same center. |
| Axis.ConstrainedZoom | andromeda/bindings/implot/implot_internal.h:806-826 | Every path through `Constrain` ends with the size inside the zoom limits. |
| Axis.ConstrainedInsideIff | andromeda/bindings/implot/implot_internal.h:806-826 | The result stays inside the range limits exactly when the clamped range is large enough or can be widened around its center. |
| Axis.ConstrainIdempotentIff | andromeda/bindings/implot/implot_internal.h:806-826 | Constraining twice is constraining once exactly in those cases or when the clamped range is centered in the limits. |
| Axis.AllowedIsFixed | andromeda/bindings/implot/implot_internal.h:806-826 | A range that satisfies the constraints is left alone. |
| Axis.ConstrainFails | andromeda/bindings/implot/implot_internal.h:806-826 | A range at the edge of its limits that leaves them and is moved again by a second call. |
| Axis.PlotAxis.SetMin | andromeda/bindings/implot/implot_internal.h:738-754 | Fails only if locked; otherwise the limit is the requested one, moved only as far as the constraints need, the cache is current, and an allowed range stays allowed. |
| Axis.PlotAxis.MinForIff | andromeda/bindings/implot/implot_internal.h:742-751 | The settled limit is, of all the zoom limits allow, the one nearest to the requested value moved inside the range limits. |
| Axis.PlotAxis.SetMax | andromeda/bindings/implot/implot_internal.h:756-772 | The same for the upper limit. |
| Axis.PlotAxis.MaxForIff | andromeda/bindings/implot/implot_internal.h:760-769 | The same for the upper limit. |
| Axis.PlotAxis.SetRange | andromeda/bindings/implot/implot_internal.h:774-781 | The range is the constrained one, in order, with the size inside the zoom limits and the cache current. |
| Axis.PlotAxis.SetAspect | andromeda/bindings/implot/implot_internal.h:787-798 | Constrains a range of exactly the size the aspect needs; if the constraints allow it, a locked limit is kept, or else the center, and with both locked nothing moves. |
| Axis.PlotAxis.ApplyFit | andromeda/bindings/implot/implot_internal.h:876-890 | Constrains the padded extents at the limits that are not locked, with the cache current; where the constraints allow the target, a locked limit is kept and a free one is the extent with its share of padding. |
| Axis.TightFit | andromeda/bindings/implot/implot_internal.h:860-890 | Without padding the free limits are the least and the greatest fitted value inside the range limits. |
| Axis.LockedFit | andromeda/bindings/implot/implot_internal.h:876-890 | With the minimum locked, fitting 2 and 5 into [0, 10] gives [0, 5]. |
| Axis.AlmostEqualIff | andromeda/bindings/implot/implot_internal.h:136 | The comparison that widens a fit, without the names of its constants. |
| Axis.PaddedGrows | andromeda/bindings/implot/implot_internal.h:877-879 | The padding enlarges the extents by its share around the same center. |
| Axis.SingleValueFit | andromeda/bindings/implot/implot_internal.h:884-887 | A single fitted value is aimed at in the middle of a range of size one. |
| Axis.FittedToIs | andromeda/bindings/implot/implot_internal.h:860-865 | After any number of values the extents are the least and the greatest of those inside the range limits, if there is any. |
| Axis.PlotAxis.ExtendFit | andromeda/bindings/implot/implot_internal.h:860-865 | One more value extends the extents, unless it is outside the range limits. |
| Axis.FitShowsValuesIff | andromeda/bindings/implot/implot_internal.h:860-890 | With nothing locked, all fitted values inside the range limits are shown exactly when the largest zoom does not cut into them; padding that overhangs the limits does no harm. |
| Axis.FitShowsValues | andromeda/bindings/implot/implot_internal.h:860-890 | In particular all are shown if the clamped target is within the largest zoom. |
| Axis.LinearIsBijective | andromeda/bindings/implot/implot_internal.h:828-838 | An axis without transforms has a scale of the kind the round trips ask for. |
| Axis.PlotAxis.PlotProportion | andromeda/bindings/implot/implot_internal.h:840-847 | Pixels are to the length of the axis as the transformed value is to the transformed range. |
| Axis.PlotAxis.PlotRoundTrip | andromeda/bindings/implot/implot_internal.h:840-858 | Plot to pixels and back is the identity on the values the scale accepts, for linear and bijective scales. |
| Axis.PlotAxis.PixelRoundTrip | andromeda/bindings/implot/implot_internal.h:840-858 | Pixels to plot and back is the identity on all pixels. |
| Axis.PlotAxis.LimitsAtEnds | andromeda/bindings/implot/implot_internal.h:828-858 | The limits of the range map to the ends of the axis, and back. |
| Axis.PlotAxis.PlotMonotone | andromeda/bindings/implot/implot_internal.h:840-847 | Plot to pixels is strictly monotone, in the direction of the pixels. |
| Subplots.SeparateKeepsSumIff | andromeda/bindings/implot/implot.cpp:3458-3474 | One separator step keeps the sum of the ratios exactly unless it accepts a drag from remembered sizes that do not belong to the pair. |
| Subplots.StaleSizesFail | andromeda/bindings/implot/implot.cpp:3367-3476 | A click in a grid of three rows and a hold that goes on in a grid of two: each frame is a legal call, and the second leaves shares that sum to 0.8. |
| Subplots.SeparatePair | andromeda/bindings/implot/implot.cpp:3458-3474 | A pair above 0.1 stays above 0.1, a drag accepted from the sizes then remembered leaves it above 0.1, also in the frame of a click or double click, and all other ratios are left alone. |
| Subplots.DragBackRestores | andromeda/bindings/implot/implot.cpp:3464-3474 | Dragging a separator back to where the drag began restores every ratio. |
| Subplots.LastDragDecides | andromeda/bindings/implot/implot.cpp:3468-3474 | Of several drags after one click only the last accepted one decides. |
| Subplots.Subplot.BeginSubplots | andromeda/bindings/implot/implot.cpp:3367-3522 | One call, for every input: layout, both separator loops over the shared remembered sizes and the outgoing sizes give exactly the new state `Stepped`, the function the following rows are about, and hand back the ratios times the incoming sums. |
| Subplots.LayoutIs | andromeda/bindings/implot/implot.cpp:3367-3398 | A new number of rows or of columns makes the shares of both axes equal as far as no sizes are passed, otherwise they stay; sizes passed in replace them in proportion. |
| Subplots.NewColumnResetsRows | andromeda/bindings/implot/implot.cpp:3367-3385 | One more column resets rows of unequal height. |
| Subplots.FrameActs | andromeda/bindings/implot/implot.cpp:3452-3511 | With one separator touched, a frame does to its pair what the separator step does with its click, double click or drag, and leaves the other axis as the layout part made it. |
| Subplots.FramePair | andromeda/bindings/implot/implot.cpp:3458-3474 | A drag that leaves both sizes above 0.1 moves the border by the drag from where it was remembered; any other leaves the pair as the layout part, or the click, made it. |
| Subplots.FrameRemembers | andromeda/bindings/implot/implot.cpp:3460-3467 | A click remembers the pair, a double click its mean on both sides, and without one the remembered sizes stay. |
| Subplots.FrameWholeIff | andromeda/bindings/implot/implot.cpp:3367-3522 | With one separator touched, a frame keeps the ratios of both axes summing to 1 exactly when no drag is accepted from remembered sizes that do not make up the pair. |
| Subplots.RunWholeIff | andromeda/bindings/implot/implot.cpp:3367-3522 | Over every run with one separator touched at a time, the ratios sum to 1 after all frames exactly when that condition holds in all frames. |
| Subplots.RunKeeps | andromeda/bindings/implot/implot.cpp:3367-3522 | Over every run with a steady caller, after every frame the ratios sum to 1, the outgoing sizes sum to the incoming ones, and the held pair is above 0.1 if the sizes remembered at its click are. |
| Subplots.DragStaysWide | andromeda/bindings/implot/implot.cpp:3367-3522 | Through a whole drag of a pair above 0.1, by callers that pass no sizes, pass back those they were handed, or pass the same ones in every frame, after every frame the ratios sum to 1, the outgoing sizes sum to the incoming ones and the pair is above 0.1, whatever the mouse does. |
| Subplots.FrameWide | andromeda/bindings/implot/implot.cpp:3452-3511 | If all shares of an axis are above 0.1 after the layout part, they are after the frame, for any touches and any remembered sizes. |
| Subplots.RunStaysWide | andromeda/bindings/implot/implot.cpp:3367-3522 | Over every run whose callers ask for no share of 0.1 or less, all shares stay above 0.1, for any touches of any separators. |
| Subplots.ScaledSumIff | andromeda/bindings/implot/implot.cpp:3514-3522 | The outgoing sizes sum to the incoming ones exactly when the ratios sum to 1, and passed back they then give the same ratios. |
| SubplotCells.IndexOfCell | andromeda/bindings/implot/implot.cpp:3314-3334 | Number to cell to number is the identity, in row-major and column-major order. |
| SubplotCells.CellGrid.NextCellIs | andromeda/bindings/implot/implot.cpp:3318-3334 | In row-major order the next cell lies to the right or at the start of the next row, in column-major order below or at the top of the next column. |
| SubplotCells.CellGrid.NextCell | andromeda/bindings/implot/implot.cpp:3336-3340 | Going on moves to the next numbered cell, and past the last cell stays at it. |
| SubplotCells.CellGrid.VisitAll | andromeda/bindings/implot/implot.cpp:3278-3340 | Setting the first cell and going on cell by cell moves to the cells in the order of their numbers, all of them, and each time puts the cursor at the start of that cell and sets its size. |
| SubplotCells.CellGrid.EachVisitedOnce | andromeda/bindings/implot/implot.cpp:3278-3340 | Going from the first cell on visits every cell exactly once, in either order. |
| SubplotCells.CellGrid.PlacedNear | andromeda/bindings/implot/implot.cpp:3283-3296 | Cursor and cell size are the exact place and size, rounded to the nearest pixel, halves going up (below -1/2 one further up). |
| SubplotCells.CellGrid.GridEnds | andromeda/bindings/implot/implot.cpp:3283-3292 | With ratios that sum to 1 the first cell starts at the start of the grid and the last one leads to its end. |
| SubplotCells.CellGrid.CellsAdjoin | andromeda/bindings/implot/implot.cpp:3283-3296 | With shares that are not negative each rounded cell ends within two pixels of where the next one starts, across and down, and within one along an axis on which the grid does not start before the origin. |
| SubplotCells.CellsAdjoinFails | andromeda/bindings/implot/implot.cpp:3283-3296 | Halves of a grid of length 3 that starts at -1.4 are two pixels apart. |
| Alignment.AlignmentData.Frame | andromeda/bindings/implot/implot_internal.h:938-958 | After a frame the stored padding is the largest natural padding of that frame, whatever was stored before; deltas account for what each plot gained. |
| Alignment.AlignmentData.TwoFrames | andromeda/bindings/implot/implot_internal.h:938-958 | With equal natural paddings in two frames, in the second one every plot gets exactly the group maximum on each side. |
| Alignment.AlignedIff | andromeda/bindings/implot/implot_internal.h:949-956 | A frame comes out aligned exactly when, on each side, the stored padding is the group maximum already, or is not larger and all natural paddings are equal to it. |
| Alignment.GroupMaxIsLeast | andromeda/bindings/implot/implot_internal.h:951-952 | The group maximum is the least padding that is at least zero and no smaller than any natural one. |
| Components.Print | andromeda/metaData/gen_components.py:43-51 | The writes of the generator produce `Printed`. |
| Components.PrintedLines | andromeda/metaData/gen_components.py:43-51 | The file line by line: the header, one declaration for each name in order, and after them the tuple with each name on its line. |
| Components.StripIs | andromeda/metaData/gen_components_name.py:31 | Stripping takes away white space on both sides, and all of it. |
| Components.IdentifiersAreNames | andromeda/metaData/gen_components.py:22 | Every identifier is a name in the sense of the round trip. |
| Components.ParseOfPrinted | andromeda/metaData/gen_components_name.py:28-31 | Finding the tuple in the printed file, splitting and stripping gives back exactly the printed list, empty or not. |

## Left out

- Drawing, widgets, mouse and keyboard handling, popups and text measurement; their results are inputs.
- IEEE rounding, NaN and infinities of floating-point values, except that axis constraints may be infinite.
- Local time (`UseLocalTime`): the time zone rules are not part of this model.
- Overflow of `int` in `AddTime` counts and of `time_t`.
- The year branch of `Locator_Time` and `Locator_Default`, which rest on `NiceNum`, and the choice of the unit from the range; `Locate` holds for every unit below the year.
- The label sizes kept by the ticker, and its text buffer: a tick carries its text. What the formatters write is an input.
- TimeTicks.DivisionsBetweenMajors: says nothing for days, whose months differ in length.
- `Locator_SymLog` and its use of one step for two ranges.
- LogTicks.EveryTickIsValue: the tolerance of the range test lets values up to `DBL_EPSILON` outside the range through, as the code does.
- Subplots.Subplot.BeginSubplots: sizes passed in that sum to zero, for which the code divides by zero, are left out.
- The hit testing of separators; `BeginSubplots` takes what the user does to each separator as input.
- The terminator that `ImGuiTextBuffer` keeps behind its last character; the hash of a colormap name is an arbitrary function.
- Axis links (`PushLinks`, `PullLinks`), pan locking and the axis flags that only concern drawing.
- The pattern that finds component names, the undo commands and the dispatch table of the first generator, and file walking; `Print` takes the sorted names as given.
