/** Which lines of a text a histogram query counts, and under which label: laws of module `Histogram`. */
module HistogramLaws {
  import opened Wrappers
  import opened OrderedMap
  import opened LineParser
  import opened Histogram
  import MetricIndex
  import Text

  /** The query is taken as it is when it holds `_bucket` anywhere, else that is appended to its text. */
  lemma QueryName(metricName: string)
    ensures (exists i :: 0 <= i <= |metricName| && "_bucket" <= metricName[i..]) ==>
              ResolvedName(metricName) == metricName
    ensures !(exists i :: 0 <= i <= |metricName| && "_bucket" <= metricName[i..]) ==>
              ResolvedName(metricName) == metricName + "_bucket"
  {
  }

  // ---- one line

  lemma CumulativeOfOne(query: Sample, s: Sample, parseInt: string -> int)
    ensures Cumulative(query, [s], parseInt) == if Matches(query, s) then [(LeOf(s), parseInt(s.value))] else []
  {
    assert [s][..0] == [];
    assert Cumulative(query, [], parseInt) == [];
  }

  /** A line of another metric does not count. */
  lemma OtherNameDoesNotCount(query: Sample, s: Sample, parseInt: string -> int)
    requires s.name != query.name
    ensures Cumulative(query, [s], parseInt) == []
  {
    CumulativeOfOne(query, s, parseInt);
  }

  lemma {:induction false} GetIffIn(labels: Labels, k: string, v: string)
    requires DistinctKeys(labels)
    ensures Get(labels, k) == Some(v) <==> (k, v) in labels
  {
    if Has(labels, k) {
      var i := GetFinds(labels, k);
    }
    if (k, v) in labels {
      var i :| 0 <= i < |labels| && labels[i] == (k, v);
      GetAt(labels, i);
    }
  }

  /** A line that lacks a label of the query, or has another value for it, does not count. */
  lemma MissingLabelDoesNotCount(query: Sample, s: Sample, parseInt: string -> int)
    requires DistinctKeys(s.labels) && exists pair :: pair in query.labels && pair !in s.labels
    ensures Cumulative(query, [s], parseInt) == []
  {
    CumulativeOfOne(query, s, parseInt);
    var pair :| pair in query.labels && pair !in s.labels;
    var i :| 0 <= i < |query.labels| && query.labels[i] == pair;
    GetIffIn(s.labels, pair.0, pair.1);
  }

  /**
   A line of that metric with all labels of the query counts with its value, under its own `le` wherever that
   stands among its labels, or under the text `undefined` when it has none.
   */
  lemma MatchingLineCounts(query: Sample, s: Sample, le: string, parseInt: string -> int)
    requires s.name == query.name && DistinctKeys(s.labels)
    requires forall pair :: pair in query.labels ==> pair in s.labels
    requires ("le", le) in s.labels || (le == "undefined" && forall v :: ("le", v) !in s.labels)
    ensures Cumulative(query, [s], parseInt) == [(le, parseInt(s.value))]
  {
    CumulativeOfOne(query, s, parseInt);
    forall i | 0 <= i < |query.labels| ensures Get(s.labels, query.labels[i].0) == Some(query.labels[i].1) {
      assert query.labels[i] in query.labels;
      assert query.labels[i] == (query.labels[i].0, query.labels[i].1);
      GetIffIn(s.labels, query.labels[i].0, query.labels[i].1);
    }
    GetIffIn(s.labels, "le", le);
    if Has(s.labels, "le") {
      GetIffIn(s.labels, "le", Get(s.labels, "le").value);
    }
  }

  // ---- counting buckets

  /** Counting stops at the first bucket that is not there, and names it. */
  lemma {:induction false} FirstMissingIsNamed(buckets: Buckets, keys: seq<string>, i: nat)
    requires i < |keys| && !Has(buckets, keys[i]) && forall j :: 0 <= j < i ==> Has(buckets, keys[j])
    ensures Count(buckets, keys) == Err(MissingBucket(keys[i]))
    decreases i
  {
    if i > 0 {
      FirstMissingIsNamed(buckets, keys[1..], i - 1);
    }
  }

  // ---- many lines

  /** Lines count one after the other. */
  lemma {:induction false} LinesCountInOrder(query: Sample, a: seq<Sample>, b: seq<Sample>, parseInt: string -> int)
    ensures Cumulative(query, a + b, parseInt) == Cumulative(query, a, parseInt) + Cumulative(query, b, parseInt)
    decreases |b|
  {
    if b == [] {
      assert a + b == a;
    } else {
      var n := |b| - 1;
      assert (a + b)[..|a + b| - 1] == a + b[..n];
      LinesCountInOrder(query, a, b[..n], parseInt);
    }
  }

  /** The lines without those of other metrics. */
  function OnlyOf(lines: seq<string>, name: string): (r: seq<string>)
    ensures forall x :: x in r ==> x in lines
  {
    if lines == [] then []
    else
      var rest, line := OnlyOf(lines[1..], name), lines[0];
      if line == "" || line[0] == '#' || (Parse(line).Ok? && Parse(line).value.name == name) then [line] + rest
      else rest
  }

  lemma {:induction false} OnlyOfCountsTheSame(lines: seq<string>, query: Sample, parseInt: string -> int)
    requires MetricIndex.Samples(lines).Ok?
    ensures MetricIndex.Samples(OnlyOf(lines, query.name)).Ok?
    ensures Cumulative(query, MetricIndex.Samples(OnlyOf(lines, query.name)).value, parseInt) ==
            Cumulative(query, MetricIndex.Samples(lines).value, parseInt)
  {
    if lines != [] {
      var line, more, name := lines[0], lines[1..], query.name;
      assert lines == [line] + more;
      MetricIndex.OneLineReads(line);
      MetricIndex.LinesReadInOrder([line], more);
      MetricIndex.LinesReadInOrder([line], OnlyOf(more, name));
      OnlyOfCountsTheSame(more, query, parseInt);
      var first := MetricIndex.Samples([line]).value;
      LinesCountInOrder(query, first, MetricIndex.Samples(more).value, parseInt);
      LinesCountInOrder(query, first, MetricIndex.Samples(OnlyOf(more, name)).value, parseInt);
      if first != [] && first[0].name != name {
        OtherNameDoesNotCount(query, first[0], parseInt);
        assert first == [first[0]];
      }
    }
  }

  /** The text without the lines of other metrics. */
  function TextOf(text: string, name: string): string {
    Text.Join(OnlyOf(MetricIndex.Lines(text), name), "\n")
  }

  /**
   Main result: deleting every line of another metric from a text that is read leaves the buckets of a query
   as they are.
   */
  lemma OtherMetricsDoNotMatter(metricName: string, text: string, parseInt: string -> int)
    requires BucketsOf(metricName, text, parseInt).Ok?
    ensures BucketsOf(metricName, TextOf(text, Parse(ResolvedName(metricName)).value.name), parseInt) ==
            BucketsOf(metricName, text, parseInt)
  {
    var query, lines := Parse(ResolvedName(metricName)).value, MetricIndex.Lines(text);
    var kept := OnlyOf(lines, query.name);
    OnlyOfCountsTheSame(lines, query, parseInt);
    if kept == [] {
      MetricIndex.OneLineReads("");
      assert MetricIndex.Lines("") == [""];
    } else {
      forall i | 0 <= i < |kept| ensures '\n' !in kept[i] {
        assert kept[i] in lines;
      }
      Text.SplitOfJoin(kept, '\n');
    }
  }
}
