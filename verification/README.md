# ElectricityDisplay daily aggregation, in Dafny

The ElectricityDisplay firmware listens for power telemetry over MQTT. Each
message carries a wattage, a pulse count and a duration in milliseconds. For
each message, `show_watts` (src/main.cpp) updates a per-day summary kept in
process-wide statics:

- the day-of-year the summary belongs to;
- the day's minimum wattage;
- a `uint16_t` pulse total;
- an `unsigned long` duration total;
- a 20-slot histogram of pulses by 100-watt band.

It then prints the minimum, the total and the average, and draws the
histogram as bars scaled by its tallest slot.

This project models that aggregation as pure functions over an immutable
state:

- `machine.dfy` (module `Machine`): the C integer widths. `uint16_t` wraps
  modulo 2^16. `unsigned long` is 32 bits on the firmware's targets and wraps
  modulo 2^32. A `double` stored into an `int` truncates toward zero, as the
  slot index does. The module also holds the congruence facts the other
  modules use.
- `histogram.dfy` (module `Histogram`): the slot index, the deposit into a
  slot, the peak scan and the bar heights.
- `aggregator.dfy` (module `Aggregator`): the state, `Ingest` (one call of
  `show_watts` up to the drawing), the average, and the report values.
- `history.dfy` (module `History`): runs of many samples, and a reference
  `Summary` computed directly from the current day's samples. The main lemma
  shows that feeding the samples through `Ingest` one at a time, from boot or
  from a state on a day other than the first sample's, ends in that summary.

The clock reading (`time`/`localtime`) becomes the `today` argument of
`Ingest`, of type `DayOfYear` (0..365). The boot value of `day` is -1, which
is no day of the year.

Where the firmware's intended behaviour and its code differ, the model keeps
the code as written and adds a corrected definition next to it. There are
three such places; see "## Findings":

- the slot index is clamped only at the top;
- the bar heights divide by the peak without a guard;
- the average divides by the duration total without a guard.

The day total is a `uint16_t`. So it agrees with the histogram's sum only
modulo 2^16, not exactly, and the model proves that weaker agreement.

## Model

| member | source | states |
|---|---|---|
| Histogram.BucketIndexAsWritten | src/main.cpp:53-54 | the source's index is at most 19 always, is non-negative exactly when the wattage is above -100, and for non-negative wattage is the 100-watt band, capped at 19 |
| Histogram.BucketIndex | src/main.cpp:53-54 | the corrected index lies in 0..19; it is 0 exactly below 100 watts and 19 exactly from 1900 watts; between them it is the band holding the wattage; it equals the source's index for every wattage above -100 |
| Histogram.AsWrittenIndexLeavesHistogram | src/main.cpp:53-55 | wattage -100 makes the source write to index -1, while the corrected index is 0 |
| Histogram.Deposit | src/main.cpp:55 | adding pulses changes exactly one slot, by the pulses modulo 2^32, and leaves every other slot unchanged |
| Histogram.DepositMovesSum | src/main.cpp:55 | a deposit moves the histogram's sum by the pulses modulo 2^32 |
| Histogram.Peak | src/main.cpp:77-81 | the peak is at least every slot and equal to some slot |
| Histogram.FindPeak | src/main.cpp:77-81 | the source's scan from slot 0 returns a value at least every slot and equal to some slot, namely `Peak` |
| Histogram.BarHeightFacts | src/main.cpp:85 | one bar, computed in wrapping `unsigned long`, is never taller than the drawing area; an empty slot draws nothing; without wrap, a taller slot never draws a shorter bar and a slot equal to the denominator fills the area |
| Histogram.BarHeightsAsWritten | src/main.cpp:83-85 | the source's bars exist only when the peak is positive; there are 20 of them, each no taller than the area |
| Histogram.BarHeights | src/main.cpp:83-85 | with the denominator held at 1 or more, there are always 20 bars, each no taller than the area; empty slots draw nothing; the bars equal the source's whenever the peak is positive; without wrap, a slot no larger than another never draws a taller bar, and, when the peak is positive, the peak slot fills the area |
| Aggregator.Ingest | src/main.cpp:41-57 | the day becomes today and the minimum is at most the sample's wattage; on a new day nothing from before survives: minimum = the wattage, both totals and one slot hold just this sample, the other slots are 0; on the same day the minimum is the old one or the new wattage, whichever is lower, both totals and one slot move by the sample modulo their widths, and every other slot is unchanged |
| Aggregator.FirstIngestRollsOver | src/main.cpp:19-43 | the boot day -1 equals no day of the year, so the first sample always takes the reset branch |
| Aggregator.InitialTotalsAgree | src/main.cpp:18-22 | at boot the day total equals the histogram's sum modulo 2^16 |
| Aggregator.IngestKeepsTotalsAgree | src/main.cpp:41-57 | every ingest leaves the `uint16_t` day total equal to the histogram's sum modulo 2^16, for pulses of either sign |
| Aggregator.FreshDayPeakIsZeroIffNoPulses | src/main.cpp:41-85 | after the first sample of a day the histogram's peak is zero exactly when that sample had no pulses; the source then divides by zero when it scales the bars |
| Aggregator.AverageAsWritten | src/main.cpp:58 | the source's average is finite exactly when the duration total is positive, and then it is the floor of total × 3600000 / duration; it is NaN exactly when both totals are zero |
| Aggregator.Average | src/main.cpp:58 | the guarded average is 0 on a zero duration total and equals the source's finite quotient otherwise |
| Aggregator.ZeroDurationFirstSampleHasNoAverage | src/main.cpp:44-58 | a day whose first sample has duration 0 leaves the source with no finite average, and the guarded average is 0 |
| Aggregator.MakeReport | src/main.cpp:58-85 | the report shows the sample's wattage, the day's minimum and total, and the floor average (0 when no time has passed); its bars are the guarded bar heights of the day's histogram: 20 of them, each no taller than the area, empty slots drawing nothing, ordered like the slots and with a full-height peak slot as `Histogram.BarHeights` states |
| History.CurrentDay | src/main.cpp:41-50 | the current day's samples are the longest non-empty suffix of the events whose days all equal the last event's day |
| History.MinWatts | src/main.cpp:43-52 | the running minimum of a list of samples is at most each wattage and equal to one of them |
| History.FirstSampleIsSummary | src/main.cpp:41-57 | the first sample of a day, on any state from another day, gives exactly the summary of that one sample |
| History.NextSampleExtendsSummary | src/main.cpp:52-57 | a further same-day sample turns the summary of the earlier samples into the summary of them all |
| History.RunIsSummaryOfCurrentDay | src/main.cpp:41-57 | after any events from boot, or from a state on a day other than the first event's, the state is the summary of the current day's samples: rollovers discard earlier days, and no sample of the current day is lost |
| History.RunMinimumIsTodaysLeast | src/main.cpp:43-52 | after any events since boot, the minimum is at most every wattage since the last rollover and equals one of them |
| History.RunKeepsTotalsAgree | src/main.cpp:44-56 | agreement of the day total with the histogram's sum modulo 2^16 survives any run of events |
| History.TotalsAgreeSinceBoot | src/main.cpp:18-57 | from boot, the day total equals the histogram's sum modulo 2^16 after every sequence of events |
| History.Run | src/main.cpp:37-57 | the stream of `show_watts` calls: after a non-empty run of events the stored day is the last event's day |
| History.RunAppend | src/main.cpp:37-57 | one more event is one more call of `Ingest` on the state so far |
| History.DayOneScenario | src/main.cpp:41-57 | samples (500 W, 2 pulses) and (200 W, 1 pulse) on one day leave minimum 200, total 3, slot 5 = 2 and slot 2 = 1 |
| History.DayOneFirstSample | src/main.cpp:41-57 | the first sample (500 W, 2 pulses, 1000 ms) after boot leaves day 1, minimum 500, total 2, duration 1000, slot 5 = 2 and slot 2 = 0 |
| History.DayTwoScenario | src/main.cpp:41-57 | a next-day sample (800 W, 5 pulses) resets: minimum 800, total 5, duration 1000, slot 8 = 5, every other slot 0 |

## Findings

| source | as written | input that shows it | evidently intended | confidence | as-written member | corrected member |
|---|---|---|---|---|---|---|
| src/main.cpp:53-55 | the slot index is truncated toward zero and clamped only at the top | a sample with wattage -100 (or lower) gives index -1 (or lower), and `buckets[bucket] += pulses` writes before the array | the index clamped into 0..19 at both ends | medium (negative wattage needs a meter that reports export); not executed | Histogram.BucketIndexAsWritten | Histogram.BucketIndex |
| src/main.cpp:77-85 | `height * buckets[i] / max` divides by the peak without a guard | the first message of a new day with `pulses: 0` leaves every slot 0, so the peak is 0 and the `unsigned long` division divides by zero | a denominator of at least 1, so an empty histogram draws empty bars | high; not executed | Aggregator.FreshDayPeakIsZeroIffNoPulses | Histogram.BarHeights |
| src/main.cpp:58 | `dayTotal * 3600000.0 / durationTotal` divides by the day's duration without a guard | the first message of a new day with `duration: 0` makes the duration total 0, so the average printed is NaN (no pulses) or infinity | average 0 while no time has been recorded | medium; not executed | Aggregator.ZeroDurationFirstSampleHasNoAverage | Aggregator.Average |

`Histogram.BucketIndexAsWritten`, `Histogram.BarHeightsAsWritten` and
`Aggregator.AverageAsWritten` are the source's formulas themselves. For the
slot index, the as-written function's own contract shows the negative index
(from -100 watts down), and `Histogram.AsWrittenIndexLeavesHistogram` pins
the case -100; that input needs a meter that reports a negative wattage. For
the bars and the average, the lemmas in the as-written column show that an
ordinary message (the day's first, with no pulses or no duration) reaches
the undefined case. `Aggregator.MakeReport`
uses the corrected definitions, and `Aggregator.Ingest` uses the corrected
slot index.

## Left out

- MQTT: the subscription (`sub`) and the CONNACK/SUBACK/PUBLISH dispatch and PUBACK in `ev_handler` (src/main.cpp:24-35, 99-140). These are network plumbing over mongoose-os libraries.
- JSON decoding with `json_scanf` (src/main.cpp:132-133) is a foreign library call. Messages that fail to decode never reach `show_watts`. The three decoded `int`s are the `Sample` fields, typed as 32-bit integers.
- `time`/`localtime` (src/main.cpp:39-40) is wall-clock I/O. The day-of-year is the `today` argument. The hour and minute printed on line 73 are not modelled.
- All drawing and text layout: `clearDisplay`, `printf`, `drawRect`, the text-size choice, `display` and `show_text` (src/main.cpp:60-73, 86-97). These go through the SSD1306 driver. `MakeReport` gathers the values printed and the bar heights, not their placement.
- The cost estimate `0.15e-3 * average * 24` (src/main.cpp:59) is double arithmetic and is not modelled.
- Aggregator.AverageAsWritten: keeps only the integer part of the double quotient. The firmware prints the double rounded to nearest with `%.0f`, so a printed value can be one higher.
- Aggregator.Ingest: `dayTotal += pulses` promotes the `uint16_t` to `int` and adds in `int`, which overflows (undefined behaviour in C++) when `pulses > 2147483647 - dayTotal`; the model takes the two's-complement wrap there, which is what the store into `uint16_t` then keeps modulo 2^16.
- Aggregator.Ingest: uses the corrected slot index. For wattages of -100 or less the source writes outside `buckets`, which is undefined behaviour in C++ and cannot be modelled; the model clamps to slot 0 instead.
- Aggregator.MakeReport: the drawing height is a non-negative parameter. The source computes it from the display height and the text cursor, and it could in principle come out negative; that case is not modelled.
- `setup`/`loop` (src/main.cpp:142-163) only boot the firmware and are not modelled.
- `unsigned long` is taken as 32 bits. The histogram/total agreement modulo 2^16 holds for any width that is a multiple of 16 bits.
