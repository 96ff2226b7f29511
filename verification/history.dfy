/** Streams of samples fed one by one through `Ingest`, and an independent
    description of the state they leave: a summary computed directly from
    the samples of the current day, the trailing run of events that share
    the latest event's day-of-year. */
module History {
  import opened Machine
  import opened Histogram
  import opened Aggregator

  /** One callback: the clock's day-of-year and the decoded sample. */
  datatype Event = Event(day: DayOfYear, sample: Sample)

  /** The state after the events, oldest first, starting from `st`. */
  function Run(st: DailyState, events: seq<Event>): (r: DailyState)
    ensures |events| > 0 ==> r.day == events[|events| - 1].day
  {
    if |events| == 0 then st
    else
      var e := events[|events| - 1];
      Ingest(Run(st, events[..|events| - 1]), e.day, e.sample)
  }

  lemma RunAppend(st: DailyState, events: seq<Event>, e: Event)
    ensures Run(st, events + [e]) == Ingest(Run(st, events), e.day, e.sample)
  {
    assert (events + [e])[..|events|] == events;
  }

  /** The samples of the current day: the longest suffix of `events` whose
      days all equal the last event's day. */
  function CurrentDay(events: seq<Event>): (seg: seq<Sample>)
    requires |events| > 0
    ensures 0 < |seg| <= |events|
    ensures forall k :: 0 <= k < |seg| ==> seg[k] == events[|events| - |seg| + k].sample
    ensures forall k :: |events| - |seg| <= k < |events| ==> events[k].day == events[|events| - 1].day
    ensures |seg| < |events| ==> events[|events| - |seg| - 1].day != events[|events| - 1].day
  {
    var n := |events|;
    if n == 1 || events[n - 2].day != events[n - 1].day then [events[n - 1].sample]
    else CurrentDay(events[..n - 1]) + [events[n - 1].sample]
  }

  /** The least wattage among the samples, chosen as the source does. */
  function MinWatts(seg: seq<Sample>): (m: int)
    requires |seg| > 0
    ensures forall k :: 0 <= k < |seg| ==> m <= seg[k].watts
    ensures exists k :: 0 <= k < |seg| && seg[k].watts == m
  {
    if |seg| == 1 then seg[0].watts
    else
      var m := MinWatts(seg[..|seg| - 1]);
      var w := seg[|seg| - 1].watts;
      assert forall k :: 0 <= k < |seg| - 1 ==> seg[..|seg| - 1][k] == seg[k];
      if w < m then w else m
  }

  function TotalPulses(seg: seq<Sample>): int
  {
    if |seg| == 0 then 0 else TotalPulses(seg[..|seg| - 1]) + seg[|seg| - 1].pulses
  }

  function TotalDuration(seg: seq<Sample>): int
  {
    if |seg| == 0 then 0 else TotalDuration(seg[..|seg| - 1]) + seg[|seg| - 1].duration
  }

  /** The pulses of the samples whose wattage falls in slot `i`. */
  function PulsesIn(seg: seq<Sample>, i: nat): int
  {
    if |seg| == 0 then 0
    else
      var s := seg[|seg| - 1];
      PulsesIn(seg[..|seg| - 1], i) + (if BucketIndex(s.watts) == i then s.pulses else 0)
  }

  /** The state a day with these samples should end in, each field computed
      from the whole list and stored in its C width. */
  function Summary(day: DayOfYear, seg: seq<Sample>): DailyState
    requires |seg| > 0
  {
    DailyState(
      day,
      MinWatts(seg),
      ToU16(TotalPulses(seg)),
      ToULong(TotalDuration(seg)),
      seq(BUCKETS, i requires 0 <= i < BUCKETS => ToULong(PulsesIn(seg, i))))
  }

  /** The first sample of a day, on top of any state from another day,
      leaves the summary of that one sample. */
  lemma {:induction false} FirstSampleIsSummary(st: DailyState, today: DayOfYear, s: Sample)
    requires st.day != today
    ensures Ingest(st, today, s) == Summary(today, [s])
  {
    var r := Ingest(st, today, s);
    var t := Summary(today, [s]);
    assert [s][..0] == [];
    assert TotalPulses([s]) == s.pulses;
    assert TotalDuration([s]) == s.duration;
    assert r.minWatts == t.minWatts;
    assert r.dayTotal == t.dayTotal;
    assert r.durationTotal == t.durationTotal;
    forall i | 0 <= i < BUCKETS
      ensures r.buckets[i] == t.buckets[i]
    {
      assert PulsesIn([s], i) == if BucketIndex(s.watts) == i then s.pulses else 0;
    }
    assert r.buckets == t.buckets;
  }

  /** A further sample of the same day extends the day's summary by it. */
  lemma {:induction false} NextSampleExtendsSummary(today: DayOfYear, seg: seq<Sample>, s: Sample)
    requires |seg| > 0
    ensures Ingest(Summary(today, seg), today, s) == Summary(today, seg + [s])
  {
    var st := Summary(today, seg);
    var r := Ingest(st, today, s);
    var seg' := seg + [s];
    var t := Summary(today, seg');
    assert seg'[..|seg'| - 1] == seg;
    ModAddReduced(TotalPulses(seg), s.pulses, U16_MODULUS);
    ModAddReduced(TotalDuration(seg), s.duration, ULONG_MODULUS);
    forall i | 0 <= i < BUCKETS
      ensures r.buckets[i] == t.buckets[i]
    {
      ModAddReduced(PulsesIn(seg, i), s.pulses, ULONG_MODULUS);
    }
    assert r.buckets == t.buckets;
  }

  /** Feeding events one by one, from a state on a day other than the first
      event's (the boot state is one), ends in the summary of the current
      day's samples: every rollover discards the days before, and no event of
      the current day is ever discarded. */
  lemma {:induction false} RunIsSummaryOfCurrentDay(st: DailyState, events: seq<Event>)
    requires |events| > 0 && st.day != events[0].day
    ensures Run(st, events) == Summary(events[|events| - 1].day, CurrentDay(events))
  {
    var n := |events|;
    var e := events[n - 1];
    if n == 1 {
      assert events[..0] == [];
      FirstSampleIsSummary(st, e.day, e.sample);
    } else {
      var prev := events[..n - 1];
      assert prev[0] == events[0];
      RunIsSummaryOfCurrentDay(st, prev);
      if events[n - 2].day != e.day {
        FirstSampleIsSummary(Run(st, prev), e.day, e.sample);
      } else {
        NextSampleExtendsSummary(e.day, CurrentDay(prev), e.sample);
      }
    }
  }

  /** After any events since boot, the minimum is at most every wattage of
      the current day and is one of them. */
  lemma RunMinimumIsTodaysLeast(events: seq<Event>)
    requires |events| > 0
    ensures forall k :: |events| - |CurrentDay(events)| <= k < |events| ==>
      Run(INITIAL, events).minWatts <= events[k].sample.watts
    ensures exists k ::
      && |events| - |CurrentDay(events)| <= k < |events|
      && Run(INITIAL, events).minWatts == events[k].sample.watts
  {
    var r := Run(INITIAL, events);
    var seg := CurrentDay(events);
    assert r.minWatts == MinWatts(seg) by {
      RunIsSummaryOfCurrentDay(INITIAL, events);
    }
    SuffixMinimum(events, seg);
  }

  /** The least wattage of a suffix of the events, located in the events. */
  lemma {:induction false} SuffixMinimum(events: seq<Event>, seg: seq<Sample>)
    requires 0 < |seg| <= |events|
    requires forall k :: 0 <= k < |seg| ==> seg[k] == events[|events| - |seg| + k].sample
    ensures forall k :: |events| - |seg| <= k < |events| ==> MinWatts(seg) <= events[k].sample.watts
    ensures exists k :: |events| - |seg| <= k < |events| && MinWatts(seg) == events[k].sample.watts
  {
    var off := |events| - |seg|;
    var m := MinWatts(seg);
    forall k | off <= k < |events|
      ensures m <= events[k].sample.watts
    {
      assert seg[k - off] == events[k].sample;
    }
    var j :| 0 <= j < |seg| && seg[j].watts == m;
    assert events[off + j].sample == seg[j];
  }

  /** The day total equals the histogram's sum modulo 2^16 after every
      sequence of events, starting from the boot state. */
  lemma {:induction false} RunKeepsTotalsAgree(st: DailyState, events: seq<Event>)
    requires TotalsAgree(st)
    ensures TotalsAgree(Run(st, events))
  {
    if |events| > 0 {
      var e := events[|events| - 1];
      RunKeepsTotalsAgree(st, events[..|events| - 1]);
      IngestKeepsTotalsAgree(Run(st, events[..|events| - 1]), e.day, e.sample);
    }
  }

  lemma TotalsAgreeSinceBoot(events: seq<Event>)
    ensures TotalsAgree(Run(INITIAL, events))
  {
    InitialTotalsAgree();
    RunKeepsTotalsAgree(INITIAL, events);
  }

  /** Two samples on day 1 accumulate: the minimum falls to the smaller
      wattage and each sample's pulses land in its own slot. */
  lemma DayOneScenario()
    ensures var d1 := Run(INITIAL, [Event(1, Sample(500, 2, 1000)), Event(1, Sample(200, 1, 1000))]);
      && d1.minWatts == 200 && d1.dayTotal == 3 && d1.durationTotal == 2000
      && d1.buckets[5] == 2 && d1.buckets[2] == 1
  {
    var e1, e2 := Event(1, Sample(500, 2, 1000)), Event(1, Sample(200, 1, 1000));
    var a := DayOneFirstSample();
    assert [e1, e2] == [e1] + [e2];
    RunAppend(INITIAL, [e1], e2);
    assert BucketIndex(200) == 2;
    var b := Accumulate(a, e2.sample);
    assert b.minWatts == 200 && b.dayTotal == 3 && b.durationTotal == 2000;
    assert b.buckets[5] == 2 && b.buckets[2] == 1;
  }

  lemma DayOneFirstSample() returns (a: DailyState)
    ensures Run(INITIAL, [Event(1, Sample(500, 2, 1000))]) == a
    ensures a.day == 1 && a.minWatts == 500 && a.dayTotal == 2 && a.durationTotal == 1000
    ensures a.buckets[5] == 2 && a.buckets[2] == 0
  {
    var e1 := Event(1, Sample(500, 2, 1000));
    a := Accumulate(Rollover(1, 500), e1.sample);
    assert Run(INITIAL, [e1]) == a by {
      assert [e1] == [] + [e1];
      RunAppend(INITIAL, [], e1);
    }
    assert a.buckets[5] == 2 && a.buckets[2] == 0 by {
      assert BucketIndex(500) == 5;
    }
  }

  /** A sample on day 2 after the two of day 1 starts the histogram over. */
  lemma DayTwoScenario()
    ensures var d2 := Run(INITIAL, [Event(1, Sample(500, 2, 1000)), Event(1, Sample(200, 1, 1000)),
                                    Event(2, Sample(800, 5, 1000))]);
      && d2.day == 2 && d2.minWatts == 800 && d2.dayTotal == 5 && d2.durationTotal == 1000
      && d2.buckets[8] == 5
      && forall i :: 0 <= i < BUCKETS && i != 8 ==> d2.buckets[i] == 0
  {
    var e1, e2, e3 := Event(1, Sample(500, 2, 1000)), Event(1, Sample(200, 1, 1000)), Event(2, Sample(800, 5, 1000));
    assert [e1, e2, e3] == [e1, e2] + [e3];
    RunAppend(INITIAL, [e1, e2], e3);
    assert BucketIndex(800) == 8;
    assert Run(INITIAL, [e1, e2, e3]) == Accumulate(Rollover(2, 800), e3.sample);
  }
}
