/**
 What the keys of the metric index stand for: the keys that `_extractMetrics` of
 orchestrator/src/metrics/index.ts builds from a name and its labels, and what a lookup of a series by
 its key answers on a metrics text.
 */
module SeriesKeys {
  import opened Wrappers
  import opened OrderedMap
  import opened LineParser
  import opened MetricIndex
  import Text

  ghost predicate LegalLabels(labels: Labels) {
    DistinctKeys(labels) && forall i :: 0 <= i < |labels| ==> LegalLabelName(labels[i].0)
  }

  ghost predicate LegalSeries(name: string, labels: Labels) {
    LegalMetricName(name) && LegalLabels(labels)
  }

  // ---- a metrics text reads back

  /** A sample the format allows, with any label values. */
  ghost predicate LegalSample(s: Sample) {
    && LegalSeries(s.name, s.labels)
    && s.value != "" && NoBlanks(s.value) && '\n' !in s.value
    && (s.timestamp.Some? ==>
          s.timestamp.value != "" && NoBlanks(s.timestamp.value) && '\n' !in s.timestamp.value)
  }

  ghost predicate LegalSamples(samples: seq<Sample>) {
    forall i :: 0 <= i < |samples| ==> LegalSample(samples[i])
  }

  /** A metrics text: one printed sample a line. */
  function Exposition(samples: seq<Sample>): string {
    Text.Join(seq(|samples|, i requires 0 <= i < |samples| => Print(samples[i])), "\n")
  }

  lemma {:induction false} EscapedHasNoNewline(s: string)
    ensures '\n' !in Escape(s)
  {
    if s != "" {
      EscapedHasNoNewline(s[1..]);
    }
  }

  lemma {:induction false} LabelsHaveNoNewline(labels: Labels)
    requires LegalLabels(labels)
    ensures '\n' !in PrintMoreLabels(labels, PLAIN)
    ensures '\n' !in PrintLabels(labels, PLAIN)
    decreases |labels|
  {
    if labels != [] {
      assert LegalLabelName(labels[0].0);
      EscapedHasNoNewline(labels[0].1);
      assert '\n' !in PrintLabel(labels[0], PLAIN);
      LabelsHaveNoNewline(labels[1..]);
    }
  }

  lemma {:induction false} SamplesOfPrinted(lines: seq<string>, samples: seq<Sample>)
    requires |lines| == |samples|
    requires forall i :: 0 <= i < |lines| ==> !Comment(lines[i]) && Parse(lines[i]) == Ok(samples[i])
    ensures Samples(lines) == Ok(samples)
    decreases |lines|
  {
    if lines != [] {
      SamplesOfPrinted(lines[1..], samples[1..]);
      assert [samples[0]] + samples[1..] == samples;
    }
  }

  lemma PrintedSampleReadsBack(s: Sample)
    requires LegalSample(s)
    ensures '\n' !in Print(s) && !Comment(Print(s)) && Parse(Print(s)) == Ok(s)
  {
    LabelsHaveNoNewline(s.labels);
    LegalSamplesRoundTrip(s, PLAIN);
    assert Print(s)[0] == s.name[0];
  }

  /** Printing samples with any label values, one a line, and reading the text gives the samples back. */
  lemma ExpositionReadsBack(samples: seq<Sample>)
    requires LegalSamples(samples)
    ensures Samples(Lines(Exposition(samples))) == Ok(samples)
  {
    var lines := seq(|samples|, i requires 0 <= i < |samples| => Print(samples[i]));
    forall i | 0 <= i < |samples|
      ensures '\n' !in lines[i] && !Comment(lines[i]) && Parse(lines[i]) == Ok(samples[i])
    {
      PrintedSampleReadsBack(samples[i]);
    }
    if samples == [] {
      assert Lines("") == [""];
      assert Samples([""]) == Samples([""][1..]);
    } else {
      Text.SplitOfJoin(lines, '\n');
      SamplesOfPrinted(lines, samples);
    }
  }

  // ---- a key without escapes parses back

  /** Label values that need no escape. */
  ghost predicate PlainValues(labels: Labels) {
    forall i :: 0 <= i < |labels| ==> Escape(labels[i].1) == labels[i].1
  }

  /** No blanks anywhere, so that a printed series is exactly an index key. */
  const TIGHT := Layout("", "", "", "", "", "", "", "", " ", "")

  lemma {:induction false} LabelsPrintAsKey(labels: Labels)
    requires labels != [] && PlainValues(labels)
    ensures PrintLabels(labels, TIGHT) == Text.Join(LabelTexts(labels), ",") + "}"
    decreases |labels|
  {
    var more, texts := labels[1..], LabelTexts(labels);
    LabelPrintsAsText(labels[0]);
    assert texts[1..] == LabelTexts(more);
    if more == [] {
      assert PrintLabels(labels, TIGHT) == texts[0] + "}";
    } else {
      LabelsPrintAsKey(more);
      assert PrintMoreLabels(more, TIGHT) == "," + (Text.Join(LabelTexts(more), ",") + "}") by {
        assert "," + TIGHT.afterComma == ",";
        assert PrintMoreLabels(more, TIGHT) == "," + PrintLabels(more, TIGHT);
      }
      var rest := Text.Join(LabelTexts(more), ",");
      assert texts[0] + ("," + (rest + "}")) == texts[0] + "," + rest + "}";
    }
  }

  lemma LabelPrintsAsText(pair: (string, string))
    requires Escape(pair.1) == pair.1
    ensures PrintLabel(pair, TIGHT) == pair.0 + "=\"" + pair.1 + "\""
  {
    assert pair.0 + "" == pair.0;
    assert pair.0 + "=" + "" + "\"" == pair.0 + "=\"";
  }

  /** A key whose label values are plain parses back to the name and labels it was made from. */
  lemma KeyParses(name: string, labels: Labels)
    requires NameText(name) && LabelsText(labels) && PlainValues(labels)
    ensures Parse(KeyOf(name, labels)) == Ok(Sample(name, labels, "", None))
  {
    var s := Sample(name, labels, "", None);
    if labels == [] {
      RunName(START, name);
      assert START.name + name == name;
    } else {
      LabelsPrintAsKey(labels);
      RoundTrip(s, TIGHT);
      assert PrintWith(s, TIGHT) == KeyOf(name, labels);
    }
  }

  // ---- keys without double quotes

  /** No value holds a double quote. */
  ghost predicate QuoteFree(labels: Labels) {
    forall i :: 0 <= i < |labels| ==> '"' !in labels[i].1
  }

  /** The first occurrence of `c` cuts a string in one way. */
  lemma CutAtFirst(s1: string, t1: string, s2: string, t2: string, c: char)
    requires s1 + ([c] + t1) == s2 + ([c] + t2) && c !in s1 && c !in s2
    ensures s1 == s2 && t1 == t2
  {
    var s := s1 + ([c] + t1);
    assert s[|s1|] == c && s[|s2|] == c;
    assert forall i :: 0 <= i < |s1| ==> s[i] == s1[i];
    assert forall i :: 0 <= i < |s2| ==> s[i] == s2[i];
    assert |s1| == |s2|;
    assert s1 == s[..|s1|] && s2 == s[..|s2|] && t1 == s[|s1| + 1..] && t2 == s[|s2| + 1..];
  }

  /** The text of labels between the braces of a key. */
  function Body(labels: Labels): string { Text.Join(LabelTexts(labels), ",") }

  /** What follows the first label's value. */
  function Rest(labels: Labels): string
    requires labels != []
  {
    "\"" + if |labels| == 1 then "" else "," + Body(labels[1..])
  }

  lemma BodyParts(labels: Labels)
    requires labels != []
    ensures Body(labels) == labels[0].0 + ("=" + ("\"" + (labels[0].1 + Rest(labels))))
  {
    var texts := LabelTexts(labels);
    assert texts[1..] == LabelTexts(labels[1..]);
  }

  lemma KeyText(name: string, labels: Labels)
    requires NameText(name)
    ensures '{' !in name
    ensures labels != [] ==> KeyOf(name, labels) == name + (['{'] + (Body(labels) + "}"))
    ensures '{' in KeyOf(name, labels) <==> labels != []
  {
    if labels != [] {
      assert KeyOf(name, labels) == name + (['{'] + (Body(labels) + "}"));
      assert KeyOf(name, labels)[|name|] == '{';
    }
  }

  /** The name and the text of the labels can be read off a key. */
  lemma KeyParts(name1: string, labels1: Labels, name2: string, labels2: Labels)
    requires NameText(name1) && NameText(name2) && KeyOf(name1, labels1) == KeyOf(name2, labels2)
    ensures name1 == name2 && (labels1 == [] <==> labels2 == []) && Body(labels1) == Body(labels2)
  {
    KeyText(name1, labels1);
    KeyText(name2, labels2);
    if labels1 != [] {
      var b1, b2 := Body(labels1), Body(labels2);
      CutAtFirst(name1, b1 + "}", name2, b2 + "}", '{');
      assert b1 == (b1 + "}")[..|b1|] && b2 == (b2 + "}")[..|b2|];
    }
  }

  /** The first label's name can be read off the text of the labels. */
  lemma FirstName(labels1: Labels, labels2: Labels)
    requires labels1 != [] && labels2 != [] && Body(labels1) == Body(labels2)
    requires LegalLabelName(labels1[0].0) && LegalLabelName(labels2[0].0)
    ensures labels1[0].0 == labels2[0].0
    ensures labels1[0].1 + Rest(labels1) == labels2[0].1 + Rest(labels2)
  {
    BodyParts(labels1);
    BodyParts(labels2);
    assert '=' !in labels1[0].0 && '=' !in labels2[0].0;
    var t1, t2 := labels1[0].1 + Rest(labels1), labels2[0].1 + Rest(labels2);
    CutAtFirst(labels1[0].0, "\"" + t1, labels2[0].0, "\"" + t2, '=');
    assert ("\"" + t1)[1..] == t1 && ("\"" + t2)[1..] == t2;
  }

  lemma {:induction false} BodyIsInjective(labels1: Labels, labels2: Labels)
    requires labels1 != [] && labels2 != [] && Body(labels1) == Body(labels2)
    requires forall i :: 0 <= i < |labels1| ==> LegalLabelName(labels1[i].0)
    requires forall i :: 0 <= i < |labels2| ==> LegalLabelName(labels2[i].0)
    requires QuoteFree(labels1) && QuoteFree(labels2)
    ensures labels1 == labels2
    decreases |labels1|
  {
    FirstName(labels1, labels2);
    var r1, r2 := Rest(labels1)[1..], Rest(labels2)[1..];
    assert Rest(labels1) == ['"'] + r1 && Rest(labels2) == ['"'] + r2;
    CutAtFirst(labels1[0].1, r1, labels2[0].1, r2, '"');
    if |labels1| > 1 && |labels2| > 1 {
      assert r1[1..] == Body(labels1[1..]) && r2[1..] == Body(labels2[1..]);
      BodyIsInjective(labels1[1..], labels2[1..]);
      assert labels1 == [labels1[0]] + labels1[1..] && labels2 == [labels2[0]] + labels2[1..];
    }
  }

  /** Among series without double quotes in values a key names one series. */
  lemma KeysDiffer(name1: string, labels1: Labels, name2: string, labels2: Labels)
    requires NameText(name1) && LegalLabels(labels1) && QuoteFree(labels1)
    requires NameText(name2) && LegalLabels(labels2) && QuoteFree(labels2)
    ensures KeyOf(name1, labels1) == KeyOf(name2, labels2) <==> name1 == name2 && labels1 == labels2
  {
    if KeyOf(name1, labels1) == KeyOf(name2, labels2) {
      KeyParts(name1, labels1, name2, labels2);
      if labels1 != [] {
        BodyIsInjective(labels1, labels2);
      }
    }
  }

  // ---- which keys name one series

  /** No other series the format allows has the key. */
  ghost predicate KeyIsUnique(name: string, labels: Labels) {
    forall name2, labels2 :: LegalSeries(name2, labels2) && KeyOf(name2, labels2) == KeyOf(name, labels) ==>
      name2 == name && labels2 == labels
  }

  /** What a value looks like that shows a second label behind a first one's. */
  function Glue(p: string, x: string, q: string): string { p + ("\"" + ("," + (x + ("=" + ("\"" + q))))) }

  /** The value reads as if another label followed. */
  ghost predicate HidesLabel(pair: (string, string)) {
    exists p, x, q :: LegalLabelName(x) && x != pair.0 && pair.1 == Glue(p, x, q)
  }

  /** No labels, or one that hides no other. */
  ghost predicate OneReading(labels: Labels) {
    labels == [] || (|labels| == 1 && !HidesLabel(labels[0]))
  }

  /** Two labels have the text of one label that hides the second. */
  lemma MergedBody(a: string, p: string, x: string, q: string, more: Labels)
    ensures Body([(a, p), (x, q)] + more) == Body([(a, Glue(p, x, q))] + more)
  {
    var two, one := [(a, p), (x, q)] + more, [(a, Glue(p, x, q))] + more;
    BodyParts(two);
    BodyParts(one);
    assert two[1..] == [(x, q)] + more && one[1..] == more;
    BodyParts(two[1..]);
    assert two[1..][1..] == more;
    var rest := Rest(one);
    assert Rest(two[1..]) == rest;
    assert Rest(two) == "\"" + ("," + (x + ("=" + ("\"" + (q + rest)))));
    assert p + Rest(two) == Glue(p, x, q) + rest;
  }

  /** Another series with the same key, and not one that only has a `chain` label more. */
  lemma OtherReading(name: string, labels: Labels) returns (other: Labels)
    requires LegalSeries(name, labels) && !OneReading(labels)
    ensures LegalSeries(name, other) && other != labels && WithoutChain(other) != labels
    ensures KeyOf(name, other) == KeyOf(name, labels)
  {
    if |labels| > 1 {
      var a, p, x, q, more := labels[0].0, labels[0].1, labels[1].0, labels[1].1, labels[2..];
      other := [(a, Glue(p, x, q))] + more;
      assert labels == [(a, p), (x, q)] + more;
      MergedBody(a, p, x, q, more);
      ChainShortens(other);
    } else {
      var (a, v) := labels[0];
      var p, x, q :| LegalLabelName(x) && x != a && v == Glue(p, x, q);
      other := [(a, p), (x, q)];
      assert labels == [(a, v)] + [] && other == other + [];
      MergedBody(a, p, x, q, []);
      assert other[1..] == [(x, q)] && [(x, q)][1..] == [];
      assert |v| > |p|;
    }
  }

  lemma {:induction false} ChainShortens(labels: Labels)
    ensures |WithoutChain(labels)| <= |labels|
  {
    if labels != [] {
      ChainShortens(labels[1..]);
    }
  }

  /** A key of one reading has only that one. */
  lemma OneReadingIsUnique(name: string, labels: Labels, name2: string, labels2: Labels)
    requires LegalSeries(name, labels) && OneReading(labels) && LegalSeries(name2, labels2)
    requires KeyOf(name2, labels2) == KeyOf(name, labels)
    ensures name2 == name && labels2 == labels
  {
    KeyParts(name, labels, name2, labels2);
    if labels != [] {
      FirstName(labels, labels2);
      var v, v2 := labels[0].1, labels2[0].1;
      assert v + "\"" == v2 + Rest(labels2);
      if |labels2| == 1 {
        assert v == (v + "\"")[..|v|] && v2 == (v2 + "\"")[..|v2|];
        assert labels == [labels[0]] && labels2 == [labels2[0]];
      } else {
        HiddenLabel(v, labels2);
      }
    }
  }

  /** The first value of a longer list, read as one value with all that follows, hides the second label. */
  lemma HiddenLabel(v: string, labels: Labels)
    requires |labels| > 1 && LegalLabels(labels) && v + "\"" == labels[0].1 + Rest(labels)
    ensures HidesLabel((labels[0].0, v))
  {
    var p, x, w, more := labels[0].1, labels[1].0, labels[1].1, labels[1..];
    BodyParts(more);
    var t := w + Rest(more);
    assert t != "" && v + "\"" == Glue(p, x, t);
    var q := t[..|t| - 1];
    assert Glue(p, x, t)[..|Glue(p, x, t)| - 1] == Glue(p, x, q);
    assert v == (v + "\"")[..|v|];
    assert v == Glue(p, x, q) && x != labels[0].0;
  }

  /**
   Main result on keys: no other series has the key of a series exactly when it has no labels, or one
   whose value does not read as if another label followed. With two labels or more there always is
   another: the first value can be taken to go on over the second label.
   */
  lemma KeyIsUniqueIff(name: string, labels: Labels)
    requires LegalSeries(name, labels)
    ensures KeyIsUnique(name, labels) <==> OneReading(labels)
  {
    if OneReading(labels) {
      forall name2, labels2 | LegalSeries(name2, labels2) && KeyOf(name2, labels2) == KeyOf(name, labels)
        ensures name2 == name && labels2 == labels
      {
        OneReadingIsUnique(name, labels, name2, labels2);
      }
    } else {
      var other := OtherReading(name, labels);
    }
  }

  // ---- what a lookup of a series answers

  /** The sample is of that name and those labels, up to a `chain` label it may have besides. */
  predicate OfSeries(s: Sample, name: string, labels: Labels) {
    s.name == name && (s.labels == labels || WithoutChain(s.labels) == labels)
  }

  /** The value of the last sample of the series. */
  function LastOfSeries<V>(samples: seq<Sample>, name: string, labels: Labels, parseInt: string -> V): Option<V> {
    if samples == [] then None
    else
      var n := |samples| - 1;
      var s := samples[n];
      if OfSeries(s, name, labels) then Some(parseInt(s.value))
      else LastOfSeries(samples[..n], name, labels, parseInt)
  }

  /** What a node answers for a key when it was served a text of these samples. */
  ghost function Answer<V>(samples: seq<Sample>, key: string, parseInt: string -> V): Option<V> {
    var read := Samples(Lines(Exposition(samples)));
    if read.Ok? then Lookup(Index(read.value, parseInt), key) else None
  }

  lemma {:induction false} WithoutChainLegal(labels: Labels)
    requires LegalLabels(labels)
    ensures LegalLabels(WithoutChain(labels))
    ensures forall pair :: pair in WithoutChain(labels) <==> pair in labels && pair.0 != "chain"
  {
    if labels != [] {
      WithoutChainLegal(labels[1..]);
      var rest := WithoutChain(labels[1..]);
      assert labels == [labels[0]] + labels[1..];
      forall i | 0 <= i < |rest| ensures rest[i].0 != labels[0].0 {
        assert rest[i] in labels[1..];
      }
    }
  }

  /**
   Without double quotes in values the samples a key hits are those of exactly its name and labels, in
   that order, up to a `chain` label.
   */
  lemma KeyNamesSeries(s: Sample, name: string, labels: Labels)
    requires NameText(s.name) && LegalLabels(s.labels) && QuoteFree(s.labels)
    requires NameText(name) && LegalLabels(labels) && QuoteFree(labels)
    ensures Hits(s, s.name, KeyOf(name, labels)) <==> OfSeries(s, name, labels)
  {
    WithoutChainLegal(s.labels);
    KeysDiffer(s.name, s.labels, name, labels);
    KeysDiffer(s.name, WithoutChain(s.labels), name, labels);
  }

  /** With a key of one reading they are so whatever the sample's values hold. */
  lemma UniqueKeyNamesSeries(s: Sample, name: string, labels: Labels)
    requires LegalSeries(s.name, s.labels) && LegalSeries(name, labels) && OneReading(labels)
    ensures Hits(s, s.name, KeyOf(name, labels)) <==> OfSeries(s, name, labels)
  {
    WithoutChainLegal(s.labels);
    KeyIsUniqueIff(name, labels);
  }

  /** Where a key hits the samples of its series and no others, the last one filed is the last of the series. */
  lemma {:induction false} LastRawIsLastOfSeries<V>(
      samples: seq<Sample>, name: string, labels: Labels, parseInt: string -> V)
    requires forall i :: 0 <= i < |samples| ==>
               (Hits(samples[i], samples[i].name, KeyOf(name, labels)) <==> OfSeries(samples[i], name, labels))
    ensures LastRaw(samples, KeyOf(name, labels), parseInt) == LastOfSeries(samples, name, labels, parseInt)
    decreases |samples|
  {
    if samples != [] {
      LastRawIsLastOfSeries(samples[..|samples| - 1], name, labels, parseInt);
    }
  }

  lemma AnswerIsScan<V(!new)>(samples: seq<Sample>, key: string, parseInt: string -> V)
    requires LegalSamples(samples)
    ensures Answer(samples, key, parseInt) == Scan(samples, key, parseInt)
  {
    ExpositionReadsBack(samples);
    LookupIsScan(samples, key, parseInt);
  }

  /**
   End to end: in a metrics text without double quotes in label values, asking for a series by its key
   answers the value of the last line of that series, a `chain` label aside, whatever other series the
   text holds.
   */
  lemma SeriesIsFound<V(!new)>(samples: seq<Sample>, name: string, labels: Labels, parseInt: string -> V)
    requires LegalSamples(samples) && forall i :: 0 <= i < |samples| ==> QuoteFree(samples[i].labels)
    requires LegalSeries(name, labels) && QuoteFree(labels)
    requires LastOfSeries(samples, name, labels, parseInt).Some?
    ensures Answer(samples, KeyOf(name, labels), parseInt) == LastOfSeries(samples, name, labels, parseInt)
  {
    AnswerIsScan(samples, KeyOf(name, labels), parseInt);
    forall i | 0 <= i < |samples|
      ensures Hits(samples[i], samples[i].name, KeyOf(name, labels)) <==> OfSeries(samples[i], name, labels)
    {
      KeyNamesSeries(samples[i], name, labels);
    }
    LastRawIsLastOfSeries(samples, name, labels, parseInt);
  }

  /** Whatever legal text is served, a series that is in it is answered with its own last value. */
  ghost predicate AlwaysFound<V(!new)>(name: string, labels: Labels, parseInt: string -> V) {
    forall samples: seq<Sample> :: LegalSamples(samples) && LastOfSeries(samples, name, labels, parseInt).Some? ==>
      Answer(samples, KeyOf(name, labels), parseInt) == LastOfSeries(samples, name, labels, parseInt)
  }

  /**
   Main result on lookups: a series is answered with its own value in every text the format allows
   exactly when its key has one reading.
   */
  lemma AlwaysFoundIff<V(!new)>(name: string, labels: Labels, parseInt: string -> V)
    requires LegalSeries(name, labels) && parseInt("1") != parseInt("2")
    ensures AlwaysFound(name, labels, parseInt) <==> OneReading(labels)
  {
    if OneReading(labels) {
      forall samples: seq<Sample> | LegalSamples(samples) && LastOfSeries(samples, name, labels, parseInt).Some?
        ensures Answer(samples, KeyOf(name, labels), parseInt) == LastOfSeries(samples, name, labels, parseInt)
      {
        AnswerIsScan(samples, KeyOf(name, labels), parseInt);
        forall i | 0 <= i < |samples|
          ensures Hits(samples[i], samples[i].name, KeyOf(name, labels)) <==> OfSeries(samples[i], name, labels)
        {
          UniqueKeyNamesSeries(samples[i], name, labels);
        }
        LastRawIsLastOfSeries(samples, name, labels, parseInt);
      }
    } else {
      var other := OtherReading(name, labels);
      WrongAnswer(name, labels, other, parseInt);
    }
  }

  /** A line of the series, and one of another series behind it. */
  function TwoLines(name: string, labels: Labels, other: Labels): seq<Sample> {
    [Sample(name, labels, "1", None), Sample(name, other, "2", None)]
  }

  /** Two lines that make a node answer with the value of the other series. */
  lemma WrongAnswer<V(!new)>(name: string, labels: Labels, other: Labels, parseInt: string -> V)
    requires LegalSeries(name, labels) && LegalSeries(name, other)
    requires other != labels && WithoutChain(other) != labels && KeyOf(name, other) == KeyOf(name, labels)
    ensures var text := TwoLines(name, labels, other);
            && LegalSamples(text)
            && LastOfSeries(text, name, labels, parseInt) == Some(parseInt("1"))
            && Answer(text, KeyOf(name, labels), parseInt) == Some(parseInt("2"))
  {
    var text := TwoLines(name, labels, other);
    assert text[..1] == [text[0]];
    AnswerIsScan(text, KeyOf(name, labels), parseInt);
  }

  /**
   A concrete one: a node that serves `m{a="x",b="y"} 1` and, for a label `a` with quotes in its value,
   `m{a="x\",b=\"y"} 2` answers two for the first series.
   */
  lemma KeysCollide<V(!new)>(parseInt: string -> V)
    ensures var labels, other := [("a", "x"), ("b", "y")], [("a", "x\",b=\"y")];
            && KeyOf("m", other) == KeyOf("m", labels)
            && LastOfSeries(TwoLines("m", labels, other), "m", labels, parseInt) == Some(parseInt("1"))
            && Answer(TwoLines("m", labels, other), KeyOf("m", labels), parseInt) == Some(parseInt("2"))
  {
    var labels: Labels := [("a", "x"), ("b", "y")];
    var other: Labels := [("a", "x\",b=\"y")];
    assert Glue("x", "b", "y") == "x\",b=\"y";
    MergedBody("a", "x", "b", "y", []);
    assert labels + [] == labels && other + [] == other;
    assert other[1..] == [] && WithoutChain(other) == other;
    WrongAnswer("m", labels, other, parseInt);
  }
}
