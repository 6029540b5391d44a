/**
 Histogram buckets: `getHistogramBuckets` of orchestrator/src/metrics/index.ts turns cumulative
 counts into per-bucket counts, and `_getSamplesCount` of orchestrator/src/networkNode.ts adds
 chosen buckets up again.
 */
module Histogram {
  import opened Wrappers
  import opened OrderedMap
  import opened LineParser
  import MetricIndex
  import SeriesKeys
  import Text

  type Buckets = Entries<string, int>

  /** The source appends the suffix to the text of the query, labels included. */
  function ResolvedName(metricName: string): string {
    if Text.Includes(metricName, "_bucket") then metricName else metricName + "_bucket"
  }

  /** Same name, and every label of the query is on the line with the same value. */
  ghost predicate Matches(query: Sample, s: Sample) {
    && query.name == s.name
    && forall i :: 0 <= i < |query.labels| ==> Get(s.labels, query.labels[i].0) == Some(query.labels[i].1)
  }

  /** The key a line is filed under: JavaScript writes a missing `le` as the text `undefined`. */
  function LeOf(s: Sample): string {
    if Has(s.labels, "le") then Get(s.labels, "le").value else "undefined"
  }

  /** The cumulative counts of the matching lines, each with its `le`. */
  ghost function Cumulative(query: Sample, samples: seq<Sample>, parseInt: string -> int): seq<(string, int)> {
    if samples == [] then []
    else
      var n := |samples| - 1;
      var before := Cumulative(query, samples[..n], parseInt);
      if Matches(query, samples[n]) then before + [(LeOf(samples[n]), parseInt(samples[n].value))] else before
  }

  ghost function Previous(cumulative: seq<(string, int)>, i: nat): int
    requires i <= |cumulative|
  {
    if i == 0 then 0 else cumulative[i - 1].1
  }

  ghost function Difference(cumulative: seq<(string, int)>, i: nat): int
    requires i < |cumulative|
  {
    cumulative[i].1 - Previous(cumulative, i)
  }

  /** The buckets of the cumulative counts: a repeated `le` overwrites. */
  ghost function Decumulate(cumulative: seq<(string, int)>): Buckets {
    if cumulative == [] then []
    else
      var n := |cumulative| - 1;
      Set(Decumulate(cumulative[..n]), cumulative[n].0, Difference(cumulative, n))
  }

  // ---- the source

  method MatchesQuery(query: Sample, s: Sample) returns (ok: bool)
    ensures ok == Matches(query, s)
  {
    if query.name != s.name {
      return false;
    }
    for i := 0 to |query.labels|
      invariant forall j :: 0 <= j < i ==> Get(s.labels, query.labels[j].0) == Some(query.labels[j].1)
    {
      var (k, v) := query.labels[i];
      if !Has(s.labels, k) || Get(s.labels, k) != Some(v) {
        return false;
      }
    }
    return true;
  }

  /** The loop's state after the lines that parsed to `done`. */
  ghost predicate InStep(query: Sample, done: seq<Sample>, parseInt: string -> int, buckets: Buckets, previous: int) {
    var c := Cumulative(query, done, parseInt);
    buckets == Decumulate(c) && previous == Previous(c, |c|)
  }

  /** The loop's body for a line that parsed: a matching line sets the bucket of its label. */
  method TakeLine(
      query: Sample, s: Sample, parseInt: string -> int, buckets: Buckets, previous: int, ghost done: seq<Sample>)
      returns (after: Buckets, last: int)
    requires InStep(query, done, parseInt, buckets, previous)
    ensures after == if Matches(query, s) then Set(buckets, LeOf(s), parseInt(s.value) - previous) else buckets
    ensures last == if Matches(query, s) then parseInt(s.value) else previous
    ensures InStep(query, done + [s], parseInt, after, last)
  {
    after, last := buckets, previous;
    var matching := MatchesQuery(query, s);
    if matching {
      var value := parseInt(s.value);
      after, last := Set(buckets, LeOf(s), value - previous), value;
    }
  }

  /** The buckets of a query on a text. */
  ghost function BucketsOf(metricName: string, text: string, parseInt: string -> int): Result<Buckets, ParseError> {
    var query :- Parse(ResolvedName(metricName));
    var samples :- MetricIndex.Samples(MetricIndex.Lines(text));
    Ok(Decumulate(Cumulative(query, samples, parseInt)))
  }

  /**
   `getHistogramBuckets` on a fetched text. Whatever the text, what the buckets hold and what later
   lines overwrote add up to the last cumulative count of the matching lines.
   */
  method GetHistogramBuckets(metricName: string, text: string, parseInt: string -> int)
      returns (r: Result<Buckets, ParseError>)
    ensures r == BucketsOf(metricName, text, parseInt)
    ensures r.Ok? <==> Parse(ResolvedName(metricName)).Ok? && MetricIndex.Samples(MetricIndex.Lines(text)).Ok?
    ensures r.Ok? ==>
              var c := Cumulative(Parse(ResolvedName(metricName)).value,
                                  MetricIndex.Samples(MetricIndex.Lines(text)).value, parseInt);
              && r.value == Decumulate(c)
              && Sum(r.value) + Overwritten(c) == Previous(c, |c|)
  {
    var previous := 0;
    var buckets: Buckets := [];
    var query := ParseLine(ResolvedName(metricName));
    if query.Err? {
      return Err(query.error);
    }
    var lines := MetricIndex.Lines(text);
    var i := 0;
    ghost var done: seq<Sample> := [];
    MetricIndex.ReadingStarts(lines);
    while i < |lines|
      invariant MetricIndex.Reading(lines, i, done) && InStep(query.value, done, parseInt, buckets, previous)
    {
      MetricIndex.ReadingStep(lines, i, done);
      var line := lines[i];
      i := i + 1;
      if MetricIndex.Comment(line) {
        continue;
      }
      var parsed := ParseLine(line);
      if parsed.Err? {
        return Err(parsed.error);
      }
      buckets, previous := TakeLine(query.value, parsed.value, parseInt, buckets, previous, done);
      done := done + [parsed.value];
    }
    MetricIndex.ReadingEnds(lines, done);
    NothingIsLost(Cumulative(query.value, done, parseInt));
    return Ok(buckets);
  }

  datatype CountError = MissingBucket(le: string)

  /** Adding up chosen buckets; the first missing one is an error. */
  function Count(buckets: Buckets, keys: seq<string>): Result<int, CountError> {
    if keys == [] then Ok(0)
    else if !Has(buckets, keys[0]) then Err(MissingBucket(keys[0]))
    else
      var rest :- Count(buckets, keys[1..]);
      Ok(Get(buckets, keys[0]).value + rest)
  }

  /** `_getSamplesCount` */
  method GetSamplesCount(buckets: Buckets, keys: seq<string>) returns (r: Result<int, CountError>)
    ensures r == Count(buckets, keys)
    ensures r.Ok? <==> forall i :: 0 <= i < |keys| ==> Has(buckets, keys[i])
  {
    var count := 0;
    assert keys[0..] == keys;
    for i := 0 to |keys|
      invariant forall j :: 0 <= j < i ==> Has(buckets, keys[j])
      invariant Count(buckets, keys) ==
                var rest := Count(buckets, keys[i..]);
                if rest.Ok? then Ok(count + rest.value) else rest
    {
      assert keys[i..][1..] == keys[i + 1..];
      if !Has(buckets, keys[i]) {
        return Err(MissingBucket(keys[i]));
      }
      count := count + Get(buckets, keys[i]).value;
    }
    return Ok(count);
  }

  // ---- conservation, whatever the text

  function Sum(buckets: Buckets): int {
    if buckets == [] then 0 else buckets[0].1 + Sum(buckets[1..])
  }

  /** The differences that a later line with the same `le` replaced. */
  ghost function Overwritten(cumulative: seq<(string, int)>): int {
    if cumulative == [] then 0
    else
      var n := |cumulative| - 1;
      var before := Decumulate(cumulative[..n]);
      Overwritten(cumulative[..n]) +
      if Has(before, cumulative[n].0) then Get(before, cumulative[n].0).value else 0
  }

  lemma {:induction false} SumAfterSet(buckets: Buckets, k: string, v: int)
    ensures Sum(Set(buckets, k, v)) == Sum(buckets) + v - if Has(buckets, k) then Get(buckets, k).value else 0
  {
    if buckets != [] && buckets[0].0 != k {
      SumAfterSet(buckets[1..], k, v);
    }
  }

  lemma {:induction false} NothingIsLost(cumulative: seq<(string, int)>)
    ensures Sum(Decumulate(cumulative)) + Overwritten(cumulative) == Previous(cumulative, |cumulative|)
  {
    if cumulative != [] {
      var n := |cumulative| - 1;
      NothingIsLost(cumulative[..n]);
      assert Previous(cumulative[..n], n) == Previous(cumulative, n);
      SumAfterSet(Decumulate(cumulative[..n]), cumulative[n].0, Difference(cumulative, n));
    }
  }

  // ---- one series: distinct `le` labels

  /** With distinct labels the buckets are the differences, in line order. */
  lemma {:induction false} BucketsAreDifferences(cumulative: seq<(string, int)>)
    requires DistinctKeys(cumulative)
    ensures var b := Decumulate(cumulative);
            && |b| == |cumulative| && DistinctKeys(b)
            && forall i :: 0 <= i < |b| ==> b[i] == (cumulative[i].0, Difference(cumulative, i))
    ensures Overwritten(cumulative) == 0
  {
    if cumulative != [] {
      var n := |cumulative| - 1;
      BucketsAreDifferences(cumulative[..n]);
      var before := Decumulate(cumulative[..n]);
      forall i | 0 <= i < n ensures before[i] == (cumulative[i].0, Difference(cumulative, i)) {
        assert Difference(cumulative[..n], i) == Difference(cumulative, i);
      }
      NewBucket(before, cumulative[n].0, Difference(cumulative, n));
    }
  }

  lemma NewBucket(before: Buckets, le: string, v: int)
    requires DistinctKeys(before) && forall i :: 0 <= i < |before| ==> before[i].0 != le
    ensures !Has(before, le) && Set(before, le, v) == before + [(le, v)] && DistinctKeys(before + [(le, v)])
  {
    SetAt(before, le, v);
  }

  /** The last line with the label `le`. */
  ghost function LastWith(cumulative: seq<(string, int)>, le: string): (i: nat)
    requires exists j :: 0 <= j < |cumulative| && cumulative[j].0 == le
    ensures i < |cumulative| && cumulative[i].0 == le
    ensures forall j :: i < j < |cumulative| ==> cumulative[j].0 != le
  {
    var n := |cumulative| - 1;
    if cumulative[n].0 == le then n else LastWith(cumulative[..n], le)
  }

  /** Whatever repeats, a bucket holds the difference at the last line with its label. */
  lemma {:induction false} BucketReads(cumulative: seq<(string, int)>, i: nat)
    requires i < |cumulative|
    ensures Get(Decumulate(cumulative), cumulative[i].0) ==
            Some(Difference(cumulative, LastWith(cumulative, cumulative[i].0)))
    decreases |cumulative|
  {
    var n := |cumulative| - 1;
    var before := Decumulate(cumulative[..n]);
    GetAfterSet(before, cumulative[n].0, Difference(cumulative, n), cumulative[i].0);
    if cumulative[i].0 != cumulative[n].0 {
      BucketReads(cumulative[..n], i);
      assert cumulative[..n][i] == cumulative[i];
    }
  }

  ghost function Les(cumulative: seq<(string, int)>, lo: nat, hi: nat): (keys: seq<string>)
    requires lo <= hi <= |cumulative|
    ensures |keys| == hi - lo && forall k :: 0 <= k < |keys| ==> keys[k] == cumulative[lo + k].0
  {
    seq(hi - lo, k requires 0 <= k < hi - lo => cumulative[lo + k].0)
  }

  /** Lines with the same label differ from the line before by the same amount. */
  ghost predicate RepeatsAgree(cumulative: seq<(string, int)>) {
    forall i, j :: 0 <= i < |cumulative| && 0 <= j < |cumulative| && cumulative[i].0 == cumulative[j].0 ==>
      Difference(cumulative, i) == Difference(cumulative, j)
  }

  /** Counting a run of buckets gives the difference of the cumulative counts at its ends. */
  ghost predicate Telescopes(cumulative: seq<(string, int)>, lo: nat, hi: nat)
    requires lo <= hi <= |cumulative|
  {
    Count(Decumulate(cumulative), Les(cumulative, lo, hi)) == Ok(Previous(cumulative, hi) - Previous(cumulative, lo))
  }

  /** Counting a run counts its first bucket and the others. */
  lemma CountFirst(buckets: Buckets, cumulative: seq<(string, int)>, lo: nat, hi: nat, v: int, rest: int)
    requires lo < hi <= |cumulative| && Get(buckets, cumulative[lo].0) == Some(v)
    requires Count(buckets, Les(cumulative, lo + 1, hi)) == Ok(rest)
    ensures Count(buckets, Les(cumulative, lo, hi)) == Ok(v + rest)
  {
    var keys := Les(cumulative, lo, hi);
    assert keys[1..] == Les(cumulative, lo + 1, hi);
    assert Has(buckets, keys[0]);
  }

  lemma {:induction false} RunTelescopes(cumulative: seq<(string, int)>, lo: nat, hi: nat)
    requires RepeatsAgree(cumulative) && lo <= hi <= |cumulative|
    ensures Telescopes(cumulative, lo, hi)
    decreases hi - lo
  {
    if lo < hi {
      BucketReads(cumulative, lo);
      RunTelescopes(cumulative, lo + 1, hi);
      CountFirst(Decumulate(cumulative), cumulative, lo, hi, Difference(cumulative, lo),
                 Previous(cumulative, hi) - Previous(cumulative, lo + 1));
    }
  }

  /**
   Main result: every contiguous run of buckets telescopes to a difference of two cumulative counts
   exactly when repeated labels repeat their difference too.
   */
  lemma AllTelescopeIff(cumulative: seq<(string, int)>)
    ensures (forall lo, hi :: 0 <= lo <= hi <= |cumulative| ==> Telescopes(cumulative, lo, hi)) <==>
            RepeatsAgree(cumulative)
  {
    if RepeatsAgree(cumulative) {
      forall lo, hi | 0 <= lo <= hi <= |cumulative| ensures Telescopes(cumulative, lo, hi) {
        RunTelescopes(cumulative, lo, hi);
      }
    } else {
      var i, j :| 0 <= i < |cumulative| && 0 <= j < |cumulative| && cumulative[i].0 == cumulative[j].0
                  && Difference(cumulative, i) != Difference(cumulative, j);
      BucketReads(cumulative, i);
      var v := Difference(cumulative, LastWith(cumulative, cumulative[i].0));
      CountFirst(Decumulate(cumulative), cumulative, i, i + 1, v, 0);
      CountFirst(Decumulate(cumulative), cumulative, j, j + 1, v, 0);
      assert !Telescopes(cumulative, i, i + 1) || !Telescopes(cumulative, j, j + 1);
    }
  }

  /** Counting every bucket gives the last cumulative count. */
  lemma AllBucketsCount(cumulative: seq<(string, int)>)
    requires RepeatsAgree(cumulative) && cumulative != []
    ensures Count(Decumulate(cumulative), Les(cumulative, 0, |cumulative|)) == Ok(cumulative[|cumulative| - 1].1)
  {
    RunTelescopes(cumulative, 0, |cumulative|);
  }

  /** The buckets are non-negative exactly when the counts never decrease. */
  lemma NonNegativeIffMonotone(cumulative: seq<(string, int)>)
    requires DistinctKeys(cumulative)
    ensures (forall i :: 0 <= i < |Decumulate(cumulative)| ==> Decumulate(cumulative)[i].1 >= 0) <==>
            (forall i :: 0 <= i < |cumulative| ==> Previous(cumulative, i) <= cumulative[i].1)
  {
    BucketsAreDifferences(cumulative);
    var b := Decumulate(cumulative);
    forall i | 0 <= i < |cumulative| ensures b[i].1 == cumulative[i].1 - Previous(cumulative, i) {
      assert b[i] == (cumulative[i].0, Difference(cumulative, i));
    }
    if forall i :: 0 <= i < |cumulative| ==> Previous(cumulative, i) <= cumulative[i].1 {
      forall i | 0 <= i < |b| ensures b[i].1 >= 0 {
        assert Previous(cumulative, i) <= cumulative[i].1;
      }
    }
  }

  /** The samples of two series, `a` and `b`, as a node serves them. */
  const TWO_SERIES: seq<Sample> := [
    BucketLine("a", "1", "2"), BucketLine("a", "2", "7"), BucketLine("b", "1", "3"), BucketLine("b", "2", "4")]

  function BucketLine(series: string, le: string, count: string): Sample {
    Sample("m_bucket", [("s", series), ("le", le)], count, None)
  }

  /**
   A concrete failure: on the text of `TWO_SERIES` a query for `m`, which both series answer, mixes them.
   The second series starts from the last count of the first, one bucket comes out negative, and what the
   first series counted is overwritten.
   */
  lemma TwoSeriesMix(parseInt: string -> int)
    requires parseInt("2") == 2 && parseInt("7") == 7 && parseInt("3") == 3 && parseInt("4") == 4
    ensures var read := MetricIndex.Samples(MetricIndex.Lines(SeriesKeys.Exposition(TWO_SERIES)));
            var query := Parse(ResolvedName("m"));
            && query.Ok? && read.Ok?
            && var c := Cumulative(query.value, read.value, parseInt);
               && Decumulate(c) == [("1", -4), ("2", 1)]
               && !RepeatsAgree(c) && Overwritten(c) == 7
  {
    TwoSeriesRead();
    QueryResolves();
    TwoSeriesCounts(parseInt);
    TwoSeriesBuckets();
  }

  lemma BucketLineIsLegal(series: string, le: string, count: string)
    requires count != "" && NoBlanks(count) && '\n' !in count
    ensures SeriesKeys.LegalSample(BucketLine(series, le, count))
  {
    assert LegalMetricName("m_bucket") && LegalLabelName("s") && LegalLabelName("le") && "s" != "le";
  }

  lemma TwoSeriesRead()
    ensures MetricIndex.Samples(MetricIndex.Lines(SeriesKeys.Exposition(TWO_SERIES))) == Ok(TWO_SERIES)
  {
    BucketLineIsLegal("a", "1", "2");
    BucketLineIsLegal("a", "2", "7");
    BucketLineIsLegal("b", "1", "3");
    BucketLineIsLegal("b", "2", "4");
    SeriesKeys.ExpositionReadsBack(TWO_SERIES);
  }

  lemma QueryResolves()
    ensures Parse(ResolvedName("m")) == Ok(Sample("m_bucket", [], "", None))
  {
    assert ResolvedName("m") == "m_bucket" by {
      assert forall i :: 0 <= i <= 1 ==> !("_bucket" <= "m"[i..]);
    }
    SeriesKeys.KeyParses("m_bucket", []);
  }

  lemma TwoSeriesCounts(parseInt: string -> int)
    requires parseInt("2") == 2 && parseInt("7") == 7 && parseInt("3") == 3 && parseInt("4") == 4
    ensures Cumulative(Sample("m_bucket", [], "", None), TWO_SERIES, parseInt) ==
            [("1", 2), ("2", 7), ("1", 3), ("2", 4)]
  {
    var t, q := TWO_SERIES, Sample("m_bucket", [], "", None);
    forall i | 0 <= i < 4 ensures Matches(q, t[i]) && LeOf(t[i]) == t[i].labels[1].1 {
      assert t[i].labels[1..][0] == t[i].labels[1];
      assert Get(t[i].labels, "le") == Get(t[i].labels[1..], "le");
    }
    assert t[..4] == t && t[..4][..3] == t[..3] && t[..3][..2] == t[..2] && t[..2][..1] == t[..1] && t[..1][..0] == [];
    assert Cumulative(q, t[..1], parseInt) == [("1", 2)];
    assert Cumulative(q, t[..2], parseInt) == [("1", 2), ("2", 7)];
    assert Cumulative(q, t[..3], parseInt) == [("1", 2), ("2", 7), ("1", 3)];
  }

  lemma TwoSeriesBuckets()
    ensures var c := [("1", 2), ("2", 7), ("1", 3), ("2", 4)];
            && Decumulate(c) == [("1", -4), ("2", 1)]
            && !RepeatsAgree(c) && Overwritten(c) == 7
  {
    var c := [("1", 2), ("2", 7), ("1", 3), ("2", 4)];
    var c1, c2, c3 := [("1", 2)], [("1", 2), ("2", 7)], [("1", 2), ("2", 7), ("1", 3)];
    assert c[..3] == c3 && c3[..2] == c2 && c2[..1] == c1 && c1[..0] == [];
    assert Decumulate(c1) == [("1", 2)];
    assert Decumulate(c2) == Set([("1", 2)], "2", 5);
    assert [("1", 2)][1..] == [];
    assert Decumulate(c2) == [("1", 2), ("2", 5)];
    assert Decumulate(c3) == Set([("1", 2), ("2", 5)], "1", -4);
    assert [("1", 2), ("2", 5)][1..] == [("2", 5)];
    assert Decumulate(c3) == [("1", -4), ("2", 5)];
    assert [("1", -4), ("2", 5)][1..] == [("2", 5)];
    assert Set([("2", 5)], "2", 1) == [("2", 1)];
    assert Decumulate(c) == Set([("1", -4), ("2", 5)], "2", 1);
    assert c[0].0 == c[2].0 && Difference(c, 0) != Difference(c, 2);
  }
}
