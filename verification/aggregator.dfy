/** The daily aggregation performed by `show_watts` (src/main.cpp) for each
    decoded telemetry sample: the day-of-year rollover, the running minimum,
    the `uint16_t` pulse total, the `unsigned long` duration total and the
    wattage histogram, followed by the average the report prints and the
    bars it draws.  The process-wide statics become one immutable
    `DailyState`, and the local clock reading becomes the `today` argument. */
module Aggregator {
  import opened Machine
  import opened Histogram

  /** `tm_yday` of a `struct tm`: days since the first of January. */
  type DayOfYear = d: int | 0 <= d <= 365

  /** The value `day` starts with before any sample; no day of the year. */
  const NO_DAY: int := -1

  const MS_PER_HOUR: nat := 3_600_000

  /** One decoded message: `{duration: %d, wattage: %d, pulses: %d}`. */
  datatype Sample = Sample(watts: Int32, pulses: Int32, duration: Int32)

  /** The statics `day`, `min`, `dayTotal`, `durationTotal`, `buckets`. */
  datatype DailyState = DailyState(
    day: int,
    minWatts: int,
    dayTotal: U16,
    durationTotal: ULong,
    buckets: Buckets)

  /** The statics as the firmware boots with them. */
  const INITIAL: DailyState := DailyState(NO_DAY, 0, 0, 0, Empty())

  /** The reset taken when the clock's day-of-year differs from `day`. */
  function Rollover(today: DayOfYear, watts: Int32): DailyState
  {
    DailyState(today, watts, 0, 0, Empty())
  }

  /** The contribution of one sample to the day it belongs to. */
  function Accumulate(st: DailyState, s: Sample): DailyState
  {
    DailyState(
      st.day,
      if s.watts < st.minWatts then s.watts else st.minWatts,
      ToU16(st.dayTotal + s.pulses),
      ToULong(st.durationTotal + s.duration),
      Deposit(st.buckets, BucketIndex(s.watts), s.pulses))
  }

  /** One call of `show_watts`, up to the report: reset on a new day, then
      add the sample.  On a new day nothing of the old state survives; on
      the same day the minimum can only fall, both totals and exactly one
      slot move by the sample's amounts (in their own widths), and every
      other slot keeps its value. */
  function Ingest(st: DailyState, today: DayOfYear, s: Sample): (r: DailyState)
    ensures r.day == today
    ensures r.minWatts <= s.watts
    ensures st.day != today ==>
      && r.minWatts == s.watts
      && (r.dayTotal - s.pulses) % U16_MODULUS == 0
      && (r.durationTotal - s.duration) % ULONG_MODULUS == 0
      && (r.buckets[BucketIndex(s.watts)] - s.pulses) % ULONG_MODULUS == 0
      && (forall i :: 0 <= i < BUCKETS && i != BucketIndex(s.watts) ==> r.buckets[i] == 0)
    ensures st.day == today ==>
      && r.minWatts <= st.minWatts
      && (r.minWatts == st.minWatts || r.minWatts == s.watts)
      && (r.dayTotal - (st.dayTotal + s.pulses)) % U16_MODULUS == 0
      && (r.durationTotal - (st.durationTotal + s.duration)) % ULONG_MODULUS == 0
      && (r.buckets[BucketIndex(s.watts)] - (st.buckets[BucketIndex(s.watts)] + s.pulses)) % ULONG_MODULUS == 0
      && (forall i :: 0 <= i < BUCKETS && i != BucketIndex(s.watts) ==> r.buckets[i] == st.buckets[i])
  {
    var base := if st.day != today then Rollover(today, s.watts) else st;
    Accumulate(base, s)
  }

  /** No day of the year equals the boot value, so the first sample always
      takes the rollover branch, whatever its day. */
  lemma FirstIngestRollsOver(today: DayOfYear, s: Sample)
    ensures INITIAL.day != today
    ensures Ingest(INITIAL, today, s) == Accumulate(Rollover(today, s.watts), s)
  {
  }

  /** Whether the `uint16_t` day total is the sum of the histogram's slots
      in its low sixteen bits. */
  predicate TotalsAgree(st: DailyState)
  {
    st.dayTotal == Sum(st.buckets) % U16_MODULUS
  }

  lemma InitialTotalsAgree()
    ensures TotalsAgree(INITIAL)
  {
    SumOfZeroes(INITIAL.buckets);
  }

  /** Every ingest leaves the day total equal to the histogram's sum modulo
      2^16, whether or not it rolls over, for pulse counts of either sign:
      the slots wrap at 2^32, a multiple of 2^16. */
  lemma IngestKeepsTotalsAgree(st: DailyState, today: DayOfYear, s: Sample)
    requires st.day == today ==> TotalsAgree(st)
    ensures TotalsAgree(Ingest(st, today, s))
  {
    var base := if st.day != today then Rollover(today, s.watts) else st;
    if st.day != today {
      SumOfZeroes(base.buckets);
    }
    assert TotalsAgree(base);
    var r := Accumulate(base, s);
    DepositMovesSum(base.buckets, BucketIndex(s.watts), s.pulses);
    assert (Sum(r.buckets) - (Sum(base.buckets) + s.pulses)) % ULONG_MODULUS == 0;
    ULongCongruenceIsU16Congruence(Sum(r.buckets), Sum(base.buckets) + s.pulses);
    ModAddReduced(Sum(base.buckets), s.pulses, U16_MODULUS);
  }

  /** On a fresh day the histogram's peak is zero exactly when the day's
      first sample brought no pulses, which is when the source's bar
      scaling divides by zero. */
  lemma FreshDayPeakIsZeroIffNoPulses(st: DailyState, today: DayOfYear, s: Sample)
    requires st.day != today
    ensures Peak(Ingest(st, today, s).buckets) == 0 <==> s.pulses == 0
  {
  }

  /** What the source's double division `dayTotal * 3600000.0 /
      durationTotal` yields, kept to its integer part when it is finite. */
  datatype Reading = Finite(value: nat) | Infinity | NaN

  /** The average as the source computes it: no guard on the divisor, so a
      zero duration total gives infinity, or NaN when no pulses came either. */
  function AverageAsWritten(dayTotal: U16, durationTotal: ULong): (r: Reading)
    ensures r.Finite? <==> durationTotal > 0
    ensures r.Finite? ==>
      r.value * durationTotal <= dayTotal * MS_PER_HOUR < (r.value + 1) * durationTotal
    ensures r.NaN? <==> durationTotal == 0 && dayTotal == 0
  {
    if durationTotal > 0 then Finite(dayTotal * MS_PER_HOUR / durationTotal)
    else if dayTotal == 0 then NaN
    else Infinity
  }

  /** The average with the divisor guarded: zero while the day has no
      duration, the source's quotient otherwise. */
  function Average(dayTotal: U16, durationTotal: ULong): (r: nat)
    ensures durationTotal == 0 ==> r == 0
    ensures durationTotal > 0 ==> AverageAsWritten(dayTotal, durationTotal) == Finite(r)
  {
    if durationTotal == 0 then 0 else dayTotal * MS_PER_HOUR / durationTotal
  }

  /** A first sample of the day with zero duration leaves the source with
      no finite average. */
  lemma ZeroDurationFirstSampleHasNoAverage(st: DailyState, today: DayOfYear, s: Sample)
    requires st.day != today && s.duration == 0
    ensures !AverageAsWritten(Ingest(st, today, s).dayTotal, Ingest(st, today, s).durationTotal).Finite?
    ensures Average(Ingest(st, today, s).dayTotal, Ingest(st, today, s).durationTotal) == 0
  {
  }

  /** The numbers the firmware puts on the display after an ingest. */
  datatype Report = Report(
    watts: int,
    minWatts: int,
    total: U16,
    average: nat,
    bars: seq<nat>)

  /** The values printed and the bars drawn for the state `st` and the
      latest wattage, with `height` the pixels left under the text. */
  function MakeReport(st: DailyState, watts: Int32, height: nat): (r: Report)
    ensures r.watts == watts && r.minWatts == st.minWatts && r.total == st.dayTotal
    ensures r.average * st.durationTotal <= st.dayTotal * MS_PER_HOUR
    ensures st.durationTotal > 0 ==> st.dayTotal * MS_PER_HOUR < (r.average + 1) * st.durationTotal
    ensures st.durationTotal == 0 ==> r.average == 0
    ensures r.bars == BarHeights(height, st.buckets)
    ensures |r.bars| == BUCKETS
    ensures forall i :: 0 <= i < BUCKETS ==> r.bars[i] <= height
    ensures forall i :: 0 <= i < BUCKETS && st.buckets[i] == 0 ==> r.bars[i] == 0
  {
    Report(watts, st.minWatts, st.dayTotal, Average(st.dayTotal, st.durationTotal),
      BarHeights(height, st.buckets))
  }
}
