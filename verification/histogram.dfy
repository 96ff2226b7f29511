/** The wattage histogram kept by `show_watts` (src/main.cpp): twenty
    `unsigned long` slots, each collecting the pulses of the samples whose
    wattage falls in one 100-watt band, the last slot absorbing everything
    from 1900 watts up.  Also the peak scan and the bar heights scaled by the
    peak that the firmware draws under its text report. */
module Histogram {
  import opened Machine

  const BUCKETS: nat := 20
  const BUCKET_WIDTH: nat := 100

  type Buckets = s: seq<ULong> | |s| == BUCKETS witness seq(20, _ => 0)

  /** The histogram of a day that has seen no pulses yet. */
  function Empty(): (r: Buckets)
    ensures forall i :: 0 <= i < BUCKETS ==> r[i] == 0
  {
    seq(BUCKETS, _ => 0)
  }

  /** The slot index exactly as the source computes it: `watts / 100.0`
      truncated toward zero on the store into an `int`, then clamped at the
      top only.  (For a 32-bit wattage the double quotient is never close
      enough to an integer for rounding to change the truncation.)  Nothing
      stops it from going below zero: every wattage of -100 or less yields
      a negative index. */
  function BucketIndexAsWritten(watts: Int32): (r: int)
    ensures r < BUCKETS
    ensures r >= 0 <==> watts > -(BUCKET_WIDTH as int)
    ensures 0 <= watts ==> r == if watts < (BUCKETS - 1) * BUCKET_WIDTH then watts / BUCKET_WIDTH else BUCKETS - 1
  {
    var q := TruncDiv(watts, BUCKET_WIDTH);
    if q >= BUCKETS then BUCKETS - 1 else q
  }

  /** The slot index with the missing lower clamp added: the band of
      `watts`, held inside the histogram at both ends. */
  function BucketIndex(watts: Int32): (r: nat)
    ensures r < BUCKETS
    ensures r == 0 <==> watts < BUCKET_WIDTH
    ensures r == BUCKETS - 1 <==> watts >= (BUCKETS - 1) * BUCKET_WIDTH
    ensures 0 < r < BUCKETS - 1 ==> r * BUCKET_WIDTH <= watts < (r + 1) * BUCKET_WIDTH
    ensures watts > -(BUCKET_WIDTH as int) ==> r == BucketIndexAsWritten(watts)
  {
    var q := TruncDiv(watts, BUCKET_WIDTH);
    if q < 0 then 0 else if q >= BUCKETS then BUCKETS - 1 else q
  }

  /** The wattage -100 is the first one the source sends outside the
      histogram. */
  lemma AsWrittenIndexLeavesHistogram()
    ensures BucketIndexAsWritten(-100) == -1
    ensures BucketIndex(-100) == 0
  {
  }

  /** The sum of a sequence of integers. */
  function Sum(s: seq<int>): int
  {
    if |s| == 0 then 0 else s[0] + Sum(s[1..])
  }

  /** Replacing one element changes the sum by exactly the difference. */
  lemma {:induction false} SumUpdate(s: seq<int>, i: nat, v: int)
    requires i < |s|
    ensures Sum(s[i := v]) == Sum(s) - s[i] + v
  {
    if i > 0 {
      assert s[i := v][1..] == s[1..][i - 1 := v];
      SumUpdate(s[1..], i - 1, v);
    }
  }

  lemma {:induction false} SumOfZeroes(s: seq<int>)
    requires forall i :: 0 <= i < |s| ==> s[i] == 0
    ensures Sum(s) == 0
  {
    if |s| > 0 {
      SumOfZeroes(s[1..]);
    }
  }

  /** `buckets[bucket] += pulses`: the signed pulse count is converted to
      `unsigned long` and the slot wraps modulo 2^32.  Exactly one slot
      changes. */
  function Deposit(b: Buckets, i: nat, pulses: int): (r: Buckets)
    requires i < BUCKETS
    ensures (r[i] - (b[i] + pulses)) % ULONG_MODULUS == 0
    ensures forall j :: 0 <= j < BUCKETS && j != i ==> r[j] == b[j]
  {
    b[i := ToULong(b[i] + pulses)]
  }

  /** A deposit moves the histogram's total by `pulses` modulo 2^32. */
  lemma DepositMovesSum(b: Buckets, i: nat, pulses: int)
    requires i < BUCKETS
    ensures (Sum(Deposit(b, i, pulses)) - (Sum(b) + pulses)) % ULONG_MODULUS == 0
  {
    var v := ToULong(b[i] + pulses);
    SumUpdate(b, i, v);
    assert Sum(b[i := v]) - (Sum(b) + pulses) == v - (b[i] + pulses);
  }

  /** The largest slot, scanning from the first slot upward and keeping
      the earlier maximum on ties, as the source's loop does. */
  function Peak(b: seq<ULong>): (r: ULong)
    requires |b| > 0
    ensures forall i :: 0 <= i < |b| ==> b[i] <= r
    ensures exists i :: 0 <= i < |b| && b[i] == r
  {
    if |b| == 1 then b[0]
    else
      var m := Peak(b[..|b| - 1]);
      assert forall i :: 0 <= i < |b| - 1 ==> b[..|b| - 1][i] == b[i];
      if b[|b| - 1] > m then b[|b| - 1] else m
  }

  /** The peak scan of the source: start from slot 0 and keep the larger of
      the running maximum and each later slot. */
  method FindPeak(b: Buckets) returns (m: ULong)
    ensures forall i :: 0 <= i < BUCKETS ==> b[i] <= m
    ensures exists i :: 0 <= i < BUCKETS && b[i] == m
    ensures m == Peak(b)
  {
    m := b[0];
    var i := 1;
    while i < BUCKETS
      invariant 1 <= i <= BUCKETS
      invariant m == Peak(b[..i])
    {
      assert b[..i + 1][..i] == b[..i];
      m := if b[i] > m then b[i] else m;
      i := i + 1;
    }
    assert b[..BUCKETS] == b;
  }

  /** `height * buckets[i] / max` evaluated in `unsigned long`: the product
      wraps modulo 2^32 before the division by `denom`. */
  function BarHeight(height: nat, value: ULong, denom: ULong): nat
    requires denom > 0
  {
    ToULong(height * value) / denom
  }

  lemma DivMonotone(x: int, y: int, d: int)
    requires 0 <= x <= y && d > 0
    ensures x / d <= y / d
  {
    if x / d > y / d {
      var qx, qy := x / d, y / d;
      assert qx >= qy + 1;
      assert qx * d >= (qy + 1) * d by { AtLeastOneMultiple(1, d); MulMonotone(qy + 1, qx, d); }
      assert false;
    }
  }

  lemma MulMonotone(a: int, b: int, c: nat)
    requires a <= b
    ensures a * c <= b * c
  {
    assert b * c - a * c == (b - a) * c;
  }

  lemma DivOfMultiple(h: nat, d: int)
    requires d > 0
    ensures (h * d) / d == h
  {
    ModUnique(h * d, h, 0, d);
  }

  /** A bar never rises above the drawing area, an empty slot draws no bar,
      and when the product does not wrap a slot equal to the denominator
      fills the area and a larger slot never draws a shorter bar. */
  lemma {:induction false} BarHeightFacts(height: nat, v: ULong, w: ULong, denom: ULong)
    requires 0 < denom && v <= w <= denom
    ensures BarHeight(height, v, denom) <= height
    ensures v == 0 ==> BarHeight(height, v, denom) == 0
    ensures height * denom < ULONG_MODULUS ==> BarHeight(height, v, denom) <= BarHeight(height, w, denom)
    ensures height * denom < ULONG_MODULUS && v == denom ==> BarHeight(height, v, denom) == height
  {
    var p := height * v;
    MulMonotone(v, denom, height);
    assert v * height == p && denom * height == height * denom;
    assert ToULong(p) <= p;
    DivMonotone(ToULong(p), height * denom, denom);
    DivOfMultiple(height, denom);
    if height * denom < ULONG_MODULUS {
      MulMonotone(w, denom, height);
      MulMonotone(v, w, height);
      assert w * height == height * w;
      DivMonotone(p, height * w, denom);
    }
  }

  /** The bar heights exactly as the source draws them: divided by the peak
      with no guard, so they exist only when some slot is non-zero. */
  function BarHeightsAsWritten(height: nat, b: Buckets): (r: seq<nat>)
    requires Peak(b) > 0
    ensures |r| == BUCKETS
    ensures forall i :: 0 <= i < BUCKETS ==> r[i] <= height
  {
    var peak := Peak(b);
    forall i | 0 <= i < BUCKETS
      ensures BarHeight(height, b[i], peak) <= height
    {
      BarHeightFacts(height, b[i], b[i], peak);
    }
    seq(BUCKETS, i requires 0 <= i < BUCKETS => BarHeight(height, b[i], peak))
  }

  /** The bar heights with the denominator held at one or more, so that an
      empty histogram draws twenty empty bars instead of dividing by zero. */
  function BarHeights(height: nat, b: Buckets): (r: seq<nat>)
    ensures |r| == BUCKETS
    ensures forall i :: 0 <= i < BUCKETS ==> r[i] <= height
    ensures forall i :: 0 <= i < BUCKETS && b[i] == 0 ==> r[i] == 0
    ensures Peak(b) > 0 ==> r == BarHeightsAsWritten(height, b)
    ensures height * Peak(b) < ULONG_MODULUS ==>
      forall i, j :: 0 <= i < BUCKETS && 0 <= j < BUCKETS && b[i] <= b[j] ==> r[i] <= r[j]
    ensures 0 < Peak(b) && height * Peak(b) < ULONG_MODULUS ==>
      forall i :: 0 <= i < BUCKETS && b[i] == Peak(b) ==> r[i] == height
  {
    var peak := Peak(b);
    var denom := if peak == 0 then 1 else peak;
    forall i, j | 0 <= i < BUCKETS && 0 <= j < BUCKETS
      ensures BarHeight(height, b[i], denom) <= height
      ensures b[i] == 0 ==> BarHeight(height, b[i], denom) == 0
      ensures height * peak < ULONG_MODULUS && b[i] <= b[j] ==>
        BarHeight(height, b[i], denom) <= BarHeight(height, b[j], denom)
      ensures 0 < peak && height * peak < ULONG_MODULUS && b[i] == peak ==>
        BarHeight(height, b[i], denom) == height
    {
      if b[i] <= b[j] {
        BarHeightFacts(height, b[i], b[j], denom);
      } else {
        BarHeightFacts(height, b[i], b[i], denom);
      }
      if peak == 0 {
        assert b[i] == 0;
      }
    }
    seq(BUCKETS, i requires 0 <= i < BUCKETS => BarHeight(height, b[i], denom))
  }
}
