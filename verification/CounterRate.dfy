/** The throughput query over Counter32 samples (chat-api/tools.go, rateQuery), as the meaning of its SQL
    on the selected rows in time order. */
module CounterRate {
  import opened Basics

  const WRAP: int := 4294967296

  datatype Sample = Sample(time: real, value: int)

  /** A row of the common table expression: the delta is NULL where LAG has no previous row. */
  datatype DeltaRow = DeltaRow(time: real, delta: Option<int>)

  function Deltas(samples: seq<Sample>): seq<DeltaRow> {
    seq(|samples|, i requires 0 <= i < |samples| =>
      DeltaRow(samples[i].time, if i == 0 then None else Some(samples[i].value - samples[i - 1].value)))
  }

  /** WHERE delta IS NOT NULL. */
  function NotNull(rows: seq<DeltaRow>): seq<DeltaRow> {
    if rows == [] then []
    else
      var rest, last := NotNull(rows[..|rows| - 1]), rows[|rows| - 1];
      if last.delta.Some? then rest + [last] else rest
  }

  /** CASE WHEN delta < 0 THEN delta + 4294967296 ELSE delta END. */
  function Clamp(delta: int): int {
    if delta < 0 then delta + WRAP else delta
  }

  function SumClamped(rows: seq<DeltaRow>): int {
    if rows == [] then 0
    else
      var last := rows[|rows| - 1];
      SumClamped(rows[..|rows| - 1]) + (if last.delta.Some? then Clamp(last.delta.value) else 0)
  }

  function MaxTime(rows: seq<DeltaRow>): real
    requires rows != []
  {
    var last := rows[|rows| - 1].time;
    if |rows| == 1 then last
    else
      var rest := MaxTime(rows[..|rows| - 1]);
      if rest > last then rest else last
  }

  function MinTime(rows: seq<DeltaRow>): real
    requires rows != []
  {
    var last := rows[|rows| - 1].time;
    if |rows| == 1 then last
    else
      var rest := MinTime(rows[..|rows| - 1]);
      if rest < last then rest else last
  }

  /** The single result row; both columns are NULL when no delta is left. */
  datatype RateRow = RateRow(totalBytes: int, spanSeconds: real)

  function RateQuery(samples: seq<Sample>): Option<RateRow> {
    var rows := NotNull(Deltas(samples));
    if rows == [] then None else Some(RateRow(SumClamped(rows), MaxTime(rows) - MinTime(rows)))
  }

  // ---------------------------------------------------------------- the sum

  /** The sum the query forms, directly over the samples. */
  function Total(samples: seq<Sample>): int {
    if |samples| <= 1 then 0
    else
      var n := |samples| - 1;
      Total(samples[..n]) + Clamp(samples[n].value - samples[n - 1].value)
  }

  lemma DeltasFront(samples: seq<Sample>)
    requires samples != []
    ensures |Deltas(samples)| == |samples| && Deltas(samples)[..|samples| - 1] == Deltas(samples[..|samples| - 1])
    ensures Deltas(samples)[|samples| - 1].delta ==
              if |samples| == 1 then None else Some(samples[|samples| - 1].value - samples[|samples| - 2].value)
  {
  }

  /** Dropping the first row and the last row commute. */
  lemma DropBoth<T>(rows: seq<T>)
    requires |rows| >= 2
    ensures rows[1..][..|rows| - 2] == rows[..|rows| - 1][1..]
    ensures rows[..|rows| - 1][1..] + [rows[|rows| - 1]] == rows[1..]
  {
  }

  lemma {:induction false} NotNullDropsFirst(samples: seq<Sample>)
    requires samples != []
    ensures |Deltas(samples)| == |samples|
    ensures NotNull(Deltas(samples)) == Deltas(samples)[1..]
    ensures SumClamped(Deltas(samples)[1..]) == Total(samples)
  {
    hide Deltas;
    var n := |samples| - 1;
    var rows := Deltas(samples);
    DeltasFront(samples);
    if n == 0 {
      assert rows[..0] == [];
      assert rows[1..] == [];
    } else {
      NotNullDropsFirst(samples[..n]);
      DropBoth(rows);
    }
  }

  predicate ThirtyTwoBit(samples: seq<Sample>) {
    forall i :: 0 <= i < |samples| ==> 0 <= samples[i].value < WRAP
  }

  /** How often a sample is below the one before it. */
  function Descents(samples: seq<Sample>): nat {
    if |samples| <= 1 then 0
    else
      var n := |samples| - 1;
      Descents(samples[..n]) + (if samples[n].value < samples[n - 1].value then 1 else 0)
  }

  /** For arbitrary samples the query's total is last minus first plus 2^32 for every descent. */
  lemma {:induction false} TotalCountsDescents(samples: seq<Sample>)
    requires samples != []
    ensures Total(samples) == samples[|samples| - 1].value - samples[0].value + 4294967296 * Descents(samples)
  {
    if |samples| > 1 {
      TotalCountsDescents(samples[..|samples| - 1]);
    }
  }

  /** What a 32-bit counter shows of a total. */
  function Low(total: nat): int {
    total % WRAP
  }

  function WholeWraps(bytes: int): int {
    bytes / WRAP
  }

  /** The samples are the low 32 bits of these totals, which never decrease. */
  predicate SamplesOf(samples: seq<Sample>, totals: seq<nat>) {
    && |samples| == |totals|
    && (forall i :: 0 <= i < |samples| ==> samples[i].value == Low(totals[i]))
    && (forall i :: 0 <= i < |totals| - 1 ==> totals[i] <= totals[i + 1])
  }

  /** No interval sees 2^32 or more. */
  predicate IncrementsFit(totals: seq<nat>) {
    forall i :: 0 <= i < |totals| - 1 ==> totals[i + 1] < totals[i] + 4294967296
  }

  lemma ClampedIncrement(a: nat, b: nat)
    requires a <= b
    ensures Clamp(b % WRAP - a % WRAP) == (b - a) % WRAP
    ensures (b - a) % WRAP <= b - a
    ensures (b - a) % WRAP == b - a <==> b - a < WRAP
  {
    var qa, qb, ra, rb := a / WRAP, b / WRAP, a % WRAP, b % WRAP;
    assert b - a == (qb - qa) * WRAP + (rb - ra);
    if rb >= ra {
      ModOf(b - a, qb - qa, rb - ra);
    } else {
      ModOf(b - a, qb - qa - 1, rb - ra + WRAP);
    }
  }

  lemma ModOf(x: int, q: int, r: int)
    requires x == q * WRAP + r && 0 <= r < WRAP
    ensures x % WRAP == r
  {
  }

  /** The total is the true number of bytes exactly when no single interval saw 2^32 of them or more;
      otherwise it falls short. */
  lemma TotalIsTrueIff(samples: seq<Sample>, totals: seq<nat>)
    requires samples != [] && SamplesOf(samples, totals)
    ensures totals[0] + Total(samples) <= totals[|totals| - 1]
    ensures totals[0] + Total(samples) == totals[|totals| - 1] <==> IncrementsFit(totals)
  {
    hide Total, LostWraps;
    TotalLosesWraps(samples, totals);
  }

  /** Totals of two windows that share a sample add up. */
  lemma {:induction false} TotalAddsUp(samples: seq<Sample>, k: nat)
    requires k < |samples|
    ensures Total(samples) == Total(samples[..k + 1]) + Total(samples[k..])
  {
    var n := |samples| - 1;
    if k == n {
      assert samples[..k + 1] == samples;
    } else {
      TotalAddsUp(samples[..n], k);
      assert samples[..n][..k + 1] == samples[..k + 1];
      assert samples[..n][k..] == samples[k..][..n - k];
    }
  }

  // ---------------------------------------------------------------- the rate

  predicate Increasing(samples: seq<Sample>) {
    forall i, j :: 0 <= i < j < |samples| ==> samples[i].time < samples[j].time
  }

  lemma {:induction false} SpanOfRows(rows: seq<DeltaRow>)
    requires rows != [] && forall i, j :: 0 <= i < j < |rows| ==> rows[i].time < rows[j].time
    ensures MaxTime(rows) == rows[|rows| - 1].time && MinTime(rows) == rows[0].time
  {
    if |rows| > 1 {
      SpanOfRows(rows[..|rows| - 1]);
    }
  }

  /** What the query returns over two or more samples at increasing times: the clamped total, and the time
      from the second sample, not the first, to the last. */
  lemma {:induction false} RateQueryExact(samples: seq<Sample>)
    requires Increasing(samples)
    ensures |samples| <= 1 ==> RateQuery(samples) == None
    ensures |samples| > 1 ==>
              RateQuery(samples) == Some(RateRow(Total(samples), samples[|samples| - 1].time - samples[1].time))
  {
    hide SumClamped, MaxTime, MinTime, NotNull, Total, Deltas, Increasing;
    if samples == [] {
      NothingNotNull(samples);
    } else {
      NotNullDropsFirst(samples);
      DeltaLength(samples);
      if |samples| > 1 {
        DeltaTimes(samples);
        SpanOfRows(Deltas(samples)[1..]);
      }
    }
  }

  lemma DeltaLength(samples: seq<Sample>)
    ensures |Deltas(samples)| == |samples|
  {
  }

  lemma DeltaTimes(samples: seq<Sample>)
    requires |samples| > 1 && Increasing(samples)
    ensures var rows := Deltas(samples)[1..];
            && |rows| == |samples| - 1 && rows[0].time == samples[1].time && rows[|rows| - 1].time == samples[|samples| - 1].time
            && forall i, j :: 0 <= i < j < |rows| ==> rows[i].time < rows[j].time
  {
    var rows := Deltas(samples)[1..];
    assert forall i :: 0 <= i < |rows| ==> rows[i].time == samples[i + 1].time;
  }

  lemma NothingNotNull(samples: seq<Sample>)
    requires samples == []
    ensures NotNull(Deltas(samples)) == []
  {
  }

  // ---------------------------------------------------------------- against the true totals

  /** What really passed between the first and the last sample. */
  function Passed(totals: seq<nat>): int
    requires totals != []
  {
    var last: int := totals[|totals| - 1];
    last - totals[0]
  }

  /** The whole multiples of 2^32 that pass between two samples, and so leave no trace in them. */
  function LostWraps(totals: seq<nat>): int {
    if |totals| <= 1 then 0
    else
      var n := |totals| - 1;
      LostWraps(totals[..n]) + WholeWraps(Passed([totals[n - 1], totals[n]]))
  }

  /** One interval: the clamped difference of the samples and the whole wraps make up what passed. */
  lemma IncrementSplits(a: nat, b: nat)
    requires a <= b
    ensures Passed([a, b]) == Clamp(Low(b) - Low(a)) + WRAP * WholeWraps(Passed([a, b])) && 0 <= WholeWraps(Passed([a, b]))
    ensures WholeWraps(Passed([a, b])) == 0 <==> b < a + WRAP
  {
    ClampedIncrement(a, b);
    DivMod(Passed([a, b]));
  }

  lemma DivMod(x: int)
    requires x >= 0
    ensures x == x % WRAP + WRAP * WholeWraps(x) && 0 <= WholeWraps(x) && (WholeWraps(x) == 0 <==> x < WRAP)
  {
  }

  lemma SamplesOfFront(samples: seq<Sample>, totals: seq<nat>)
    requires |samples| > 1 && SamplesOf(samples, totals)
    ensures |totals| == |samples|
    ensures SamplesOf(samples[..|samples| - 1], totals[..|totals| - 1])
    ensures totals[|totals| - 2] <= totals[|totals| - 1]
  {
    assert totals[|totals| - 2] <= totals[|totals| - 2 + 1];
  }

  /** The true increase is what the query counts plus 2^32 for every lost wrap, and no wrap is lost exactly
      when every single increment is below 2^32. */
  lemma {:induction false} TotalLosesWraps(samples: seq<Sample>, totals: seq<nat>)
    requires samples != [] && SamplesOf(samples, totals)
    ensures Passed(totals) == Total(samples) + WRAP * LostWraps(totals) && LostWraps(totals) >= 0
    ensures LostWraps(totals) == 0 <==> IncrementsFit(totals)
  {
    hide Total, LostWraps, Clamp, SamplesOf;
    if |samples| == 1 {
      NothingLost(samples, totals);
    } else {
      SamplesOfFront(samples, totals);
      LastInterval(samples, totals);
      TotalLosesWraps(samples[..|samples| - 1], totals[..|totals| - 1]);
      AllIntervals(totals);
    }
  }

  lemma NothingLost(samples: seq<Sample>, totals: seq<nat>)
    requires |samples| == 1 && SamplesOf(samples, totals)
    ensures |totals| == 1 && Total(samples) == 0 && LostWraps(totals) == 0
  {
  }

  /** What the last interval adds to the count and to the lost wraps. */
  lemma LastInterval(samples: seq<Sample>, totals: seq<nat>)
    requires |samples| > 1 && SamplesOf(samples, totals)
    ensures |totals| == |samples|
    ensures Passed(totals) == Passed(totals[..|totals| - 1]) + (Total(samples) - Total(samples[..|samples| - 1]))
                              + WRAP * (LostWraps(totals) - LostWraps(totals[..|totals| - 1]))
    ensures LostWraps(totals) >= LostWraps(totals[..|totals| - 1])
    ensures LostWraps(totals) == LostWraps(totals[..|totals| - 1]) <==> totals[|totals| - 1] < totals[|totals| - 2] + WRAP
  {
    hide Clamp, Low, WholeWraps;
    SamplesOfFront(samples, totals);
    IncrementSplits(totals[|totals| - 2], totals[|totals| - 1]);
  }

  lemma AllIntervals(totals: seq<nat>)
    requires |totals| > 1
    ensures IncrementsFit(totals)
        <==> (IncrementsFit(totals[..|totals| - 1]) && totals[|totals| - 1] < totals[|totals| - 2] + WRAP)
  {
    var n := |totals| - 1;
    assert totals[n - 1 + 1] == totals[n];
    assert forall i :: 0 <= i < n ==> totals[..n][i] == totals[i];
  }

  /** `rate` is the quotient of these bytes and this time. */
  predicate IsQuotient(rate: real, bytes: int, seconds: real) {
    seconds > 0.0 && rate * seconds == bytes as real
  }

  /** How the rate of the query compares with the true average over the sampled period, when the increments
      all fit: larger by the factor whole / span, and strictly so whenever bytes were seen. */
  predicate OverReports(rate: real, average: real, bytes: int, whole: real, span: real) {
    && 0.0 < span < whole
    && rate == average * (whole / span)
    && rate >= average
    && (bytes > 0 ==> rate > average)
  }

  function Whole(samples: seq<Sample>): real
    requires samples != []
  {
    samples[|samples| - 1].time - samples[0].time
  }

  function Span(samples: seq<Sample>): real
    requires |samples| > 1
  {
    samples[|samples| - 1].time - samples[1].time
  }

  lemma SpanBelowWhole(samples: seq<Sample>)
    requires Increasing(samples) && |samples| > 2
    ensures 0.0 < Span(samples) < Whole(samples)
  {
    assert samples[0].time < samples[1].time < samples[|samples| - 1].time;
  }

  lemma {:induction false} TotalNonNegative(samples: seq<Sample>)
    requires ThirtyTwoBit(samples)
    ensures Total(samples) >= 0
  {
    if |samples| > 1 {
      TotalNonNegative(samples[..|samples| - 1]);
    }
  }

  lemma SamplesAreThirtyTwoBit(samples: seq<Sample>, totals: seq<nat>)
    requires SamplesOf(samples, totals)
    ensures ThirtyTwoBit(samples)
  {
  }

  /** total_bytes / span_seconds; the program uses 0 unless the span is positive. */
  function RateAt(samples: seq<Sample>): real {
    match RateQuery(samples)
    case None => 0.0
    case Some(row) => if row.spanSeconds > 0.0 then row.totalBytes as real / row.spanSeconds else 0.0
  }

  function AverageAt(totals: seq<nat>, samples: seq<Sample>): real
    requires totals != [] && samples != []
  {
    if Whole(samples) > 0.0 then Passed(totals) as real / Whole(samples) else 0.0
  }

  lemma RateIsQuotient(totals: seq<nat>, samples: seq<Sample>)
    requires |totals| > 0 && |samples| > 2 && Increasing(samples)
    ensures IsQuotient(RateAt(samples), Total(samples), Span(samples))
    ensures IsQuotient(AverageAt(totals, samples), Passed(totals), Whole(samples))
  {
    hide RateQuery, Total, Increasing, IsQuotient, Span, Whole, Passed;
    RateQueryExact(samples);
    SpanBelowWhole(samples);
    assert RateQuery(samples) == Some(RateRow(Total(samples), Span(samples))) by { SpanOf(samples); }
    DivisionIsQuotient(Total(samples), Span(samples));
    DivisionIsQuotient(Passed(totals), Whole(samples));
  }

  lemma SpanOf(samples: seq<Sample>)
    requires |samples| > 1
    ensures Span(samples) == samples[|samples| - 1].time - samples[1].time
  {
  }

  lemma DivisionIsQuotient(bytes: int, seconds: real)
    requires seconds > 0.0
    ensures IsQuotient(bytes as real / seconds, bytes, seconds)
  {
  }

  /** For true totals whose increments stay below 2^32, the rate total / span never under-reports the true
      average over the sampled period, and over-reports it by exactly (t_n - t_0) / (t_n - t_1). */
  lemma {:induction false} RateOverReports(samples: seq<Sample>, totals: seq<nat>)
    requires |totals| == |samples| > 2 && Increasing(samples) && SamplesOf(samples, totals)
    requires IncrementsFit(totals)
    ensures OverReports(RateAt(samples), AverageAt(totals, samples), Passed(totals), Whole(samples), Span(samples))
  {
    hide IsQuotient, OverReports, RateAt, AverageAt, Total, Increasing, SamplesOf, ThirtyTwoBit, LostWraps;
    RateIsQuotient(totals, samples);
    TotalLosesWraps(samples, totals);
    SamplesAreThirtyTwoBit(samples, totals);
    TotalNonNegative(samples);
    SpanBelowWhole(samples);
    Quotients(RateAt(samples), AverageAt(totals, samples), Passed(totals), Whole(samples), Span(samples));
  }

  /** The exact condition in general: what was counted must make up, over the first interval, for the lost
      wraps over the rest. */
  lemma {:induction false} NeverUnderIff(samples: seq<Sample>, totals: seq<nat>)
    requires |totals| == |samples| > 2 && Increasing(samples) && SamplesOf(samples, totals)
    ensures RateAt(samples) >= AverageAt(totals, samples) <==>
              (WRAP * LostWraps(totals)) as real * Span(samples) <= Total(samples) as real * (Whole(samples) - Span(samples))
  {
    hide IsQuotient, RateAt, AverageAt, Total, Increasing, SamplesOf, LostWraps, Span, Whole;
    RateIsQuotient(totals, samples);
    TotalLosesWraps(samples, totals);
    SpanBelowWhole(samples);
    CompareQuotients(RateAt(samples), AverageAt(totals, samples), Total(samples), WRAP * LostWraps(totals), Span(samples), Whole(samples) - Span(samples));
  }

  /** Sampled at these times, these totals are not under-reported. */
  predicate NeverUnderAt(totals: seq<nat>, times: seq<real>)
    requires |totals| == |times| > 2
  {
    var samples := SamplesAt(totals, times);
    Increasing(samples) ==> RateAt(samples) >= AverageAt(totals, samples)
  }

  function SamplesAt(totals: seq<nat>, times: seq<real>): seq<Sample>
    requires |totals| == |times|
  {
    seq(|totals|, i requires 0 <= i < |totals| => Sample(times[i], Low(totals[i])))
  }

  predicate Nondecreasing(totals: seq<nat>) {
    forall i :: 0 <= i < |totals| - 1 ==> totals[i] <= totals[i + 1]
  }

  /** What these totals must satisfy for the rate never to under-report, whenever they are sampled: no
      interval may see 2^32 bytes or more. */
  lemma {:induction false} NeverUnderAtAllTimesIff(totals: seq<nat>)
    requires |totals| > 2 && Nondecreasing(totals)
    ensures (forall times: seq<real> :: |times| == |totals| ==> NeverUnderAt(totals, times))
        <==> IncrementsFit(totals)
  {
    hide NeverUnderAt;
    if IncrementsFit(totals) {
      forall times: seq<real> | |times| == |totals| ensures NeverUnderAt(totals, times) {
        FittingNeverUnder(totals, times);
      }
    } else {
      var times := LostWrapsUnder(totals);
    }
  }

  lemma FittingNeverUnder(totals: seq<nat>, times: seq<real>)
    requires |totals| == |times| > 2 && Nondecreasing(totals)
    requires IncrementsFit(totals)
    ensures NeverUnderAt(totals, times)
  {
    hide RateAt, AverageAt, Increasing, Whole, Span, Passed;
    var samples := SamplesAt(totals, times);
    if Increasing(samples) {
      RateOverReports(samples, totals);
    }
  }

  /** Sampling times for totals that lose a wrap: a first interval so short that it cannot make up for it. */
  lemma LostWrapsUnder(totals: seq<nat>) returns (times: seq<real>)
    requires |totals| > 2 && Nondecreasing(totals)
    requires !IncrementsFit(totals)
    ensures |times| == |totals| && !NeverUnderAt(totals, times)
  {
    hide NeverUnderAt, Increasing, SamplesOf, LostWraps;
    times := LateTimes(|totals|, if Passed(totals) < 0 then 0 else Passed(totals));
    var samples := SamplesAt(totals, times);
    LateSamples(totals, times);
    TotalLosesWraps(samples, totals);
    SamplesAreThirtyTwoBit(samples, totals);
    TotalNonNegative(samples);
    LateSamplesUnder(totals, times, samples);
  }

  lemma LateSamples(totals: seq<nat>, times: seq<real>)
    requires |totals| == |times| > 2 && Nondecreasing(totals)
    requires forall i, j :: 0 <= i < j < |times| ==> times[i] < times[j]
    ensures var samples := SamplesAt(totals, times);
            && SamplesOf(samples, totals) && Increasing(samples) && |samples| == |totals|
            && Span(samples) == times[|times| - 1] - times[1] && Whole(samples) - Span(samples) == times[1] - times[0]
  {
  }

  lemma LateSamplesUnder(totals: seq<nat>, times: seq<real>, samples: seq<Sample>)
    requires |totals| == |times| == |samples| > 2 && samples == SamplesAt(totals, times)
    requires SamplesOf(samples, totals) && Increasing(samples) && LostWraps(totals) >= 1 && Total(samples) >= 0
    requires Whole(samples) - Span(samples) == 1.0 && Span(samples) >= Total(samples) as real + 1.0
    ensures !NeverUnderAt(totals, times)
  {
    hide RateAt, AverageAt, Total, LostWraps, Increasing, SamplesOf, Whole, Span, SamplesAt;
    NeverUnderIff(samples, totals);
    ShortFirstInterval(Total(samples), LostWraps(totals), Span(samples));
  }

  /** 0, 1, and then steps longer than the number of bytes. */
  lemma LateTimes(n: nat, bytes: nat) returns (times: seq<real>)
    requires n > 2
    ensures |times| == n && times[0] == 0.0 && times[1] == 1.0 && times[n - 1] - times[1] >= bytes as real + 1.0
    ensures forall i, j :: 0 <= i < j < n ==> times[i] < times[j]
  {
    times := seq(n, i requires 0 <= i < n => if i < 2 then i as real else bytes as real + i as real);
  }

  lemma ShortFirstInterval(total: nat, lost: int, span: real)
    requires lost >= 1 && span >= total as real + 1.0
    ensures (WRAP * lost) as real * span > total as real * 1.0
  {
    MulAtLeast((WRAP * lost) as real, span);
  }

  lemma MulAtLeast(k: real, x: real)
    requires k >= 1.0 && x >= 0.0
    ensures k * x >= x
  {
    assert (k - 1.0) * x >= 0.0;
  }

  /** At this input the query counts nothing at all: 2^32 bytes pass in each of two intervals. */
  lemma WholeWrapsCountNothing()
    ensures var samples := SamplesAt([0, 4294967296, 8589934592], [0.0, 1.0, 2.0]);
            && Increasing(samples) && RateAt(samples) == 0.0 && AverageAt([0, 4294967296, 8589934592], samples) == 4294967296.0
  {
    hide RateQuery, Total;
    var samples := SamplesAt([0, 4294967296, 8589934592], [0.0, 1.0, 2.0]);
    assert samples == [Sample(0.0, 0), Sample(1.0, 0), Sample(2.0, 0)];
    RateQueryExact(samples);
    TotalCountsDescents(samples);
    NoDescents(samples);
  }

  lemma {:induction false} NoDescents(samples: seq<Sample>)
    requires forall i, j :: 0 <= i < j < |samples| ==> samples[i].value <= samples[j].value
    ensures Descents(samples) == 0
  {
    if |samples| > 1 {
      NoDescents(samples[..|samples| - 1]);
    }
  }

  // ---------------------------------------------------------------- quotients

  lemma RatioAboveOne(whole: real, span: real)
    requires 0.0 < span < whole
    ensures whole / span > 1.0
  {
    assert whole == (whole / span) * span;
  }

  lemma QuotientScales(rate: real, average: real, whole: real, span: real)
    requires span > 0.0 && rate * span == average * whole
    ensures rate == average * (whole / span)
  {
    assert rate == (average * whole) / span;
  }

  lemma QuotientSign(average: real, bytes: int, whole: real)
    requires bytes >= 0 && IsQuotient(average, bytes, whole)
    ensures average >= 0.0 && (bytes > 0 ==> average > 0.0)
  {
  }

  lemma ScaleUp(average: real, k: real)
    requires average >= 0.0 && k > 1.0
    ensures average * k >= average && (average > 0.0 ==> average * k > average)
  {
    assert average * k == average + average * (k - 1.0);
  }

  lemma Quotients(rate: real, average: real, bytes: int, whole: real, span: real)
    requires bytes >= 0 && 0.0 < span < whole
    requires IsQuotient(rate, bytes, span) && IsQuotient(average, bytes, whole)
    ensures OverReports(rate, average, bytes, whole, span)
  {
    SameBytes(rate, average, bytes, whole, span);
    RatioAboveOne(whole, span);
    QuotientScales(rate, average, whole, span);
    QuotientSign(average, bytes, whole);
    hide IsQuotient;
    ScaleUp(average, whole / span);
  }

  lemma SameBytes(rate: real, average: real, bytes: int, whole: real, span: real)
    requires IsQuotient(rate, bytes, span) && IsQuotient(average, bytes, whole)
    ensures rate * span == average * whole
  {
  }

  /** Comparing counted / span with (counted + lost) / (first + span). */
  lemma CompareQuotients(rate: real, average: real, counted: int, lost: int, span: real, first: real)
    requires span > 0.0 && first > 0.0
    requires IsQuotient(rate, counted, span) && IsQuotient(average, counted + lost, first + span)
    ensures rate >= average <==> lost as real * span <= counted as real * first
  {
    var whole := first + span;
    assert rate * span == counted as real && average * whole == (counted + lost) as real == counted as real + lost as real;
    ScaledOrder(rate, average, span * whole);
    assert span * whole > 0.0;
    assert rate * (span * whole) == counted as real * whole == counted as real * first + counted as real * span;
    assert average * (span * whole) == (counted as real + lost as real) * span == counted as real * span + lost as real * span;
  }

  lemma ScaledOrder(x: real, y: real, k: real)
    ensures k > 0.0 ==> (x >= y <==> x * k >= y * k)
  {
  }
}
