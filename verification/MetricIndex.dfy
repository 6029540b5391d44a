/**
 The metric index of orchestrator/src/metrics/index.ts (`_extractMetrics`) and the lookups a node
 makes in it (`fetchMetrics`, `_getMetric` of orchestrator/src/networkNode.ts).
 Each sample is filed under up to four keys in two tables; a lookup tries the tables in the order
 they were created. `Scan` says the same without any table.
 */
module MetricIndex {
  import opened Wrappers
  import opened OrderedMap
  import opened LineParser
  import Text

  /** Namespaces in the order they were first seen, `_raw` first. */
  type Metrics<V> = Entries<string, map<string, V>>

  const RAW := "_raw"

  predicate Comment(line: string) { line == "" || line[0] == '#' }

  /** The samples of a text, or the parse error of its first bad line. */
  function Samples(lines: seq<string>): Result<seq<Sample>, ParseError> {
    if lines == [] then Ok([])
    else if Comment(lines[0]) then Samples(lines[1..])
    else
      var s :- Parse(lines[0]);
      var more :- Samples(lines[1..]);
      Ok([s] + more)
  }

  /** A line that is neither empty nor starts with a hash sign gives a sample, or the error of the text. */
  lemma OneLineReads(line: string)
    ensures Samples([line]) ==
            if line == "" || line[0] == '#' then Ok([])
            else if Parse(line).Ok? then Ok([Parse(line).value]) else Err(InvalidLine)
  {
    assert Samples([line][1..]) == Ok([]);
    assert Parse(line).Err? ==> Parse(line).error.InvalidLine?;
    assert Parse(line).Ok? ==> [Parse(line).value] + [] == [Parse(line).value];
  }

  /** Lines are read one after the other, whatever stands between them. */
  lemma {:induction false} LinesReadInOrder(a: seq<string>, b: seq<string>)
    ensures Samples(a + b) ==
            if Samples(a).Ok? && Samples(b).Ok? then Ok(Samples(a).value + Samples(b).value) else Err(InvalidLine)
  {
    if a == [] {
      assert a + b == b;
      assert Samples(b).Err? ==> Samples(b).error.InvalidLine?;
      assert Samples(b).Ok? ==> [] + Samples(b).value == Samples(b).value;
    } else {
      assert (a + b)[0] == a[0] && (a + b)[1..] == a[1..] + b;
      LinesReadInOrder(a[1..], b);
      assert Parse(a[0]).Err? ==> Parse(a[0]).error.InvalidLine?;
      if !Comment(a[0]) && Parse(a[0]).Ok? && Samples(a[1..]).Ok? && Samples(b).Ok? {
        var s, more, last := Parse(a[0]).value, Samples(a[1..]).value, Samples(b).value;
        assert [s] + (more + last) == [s] + more + last;
      }
    }
  }

  // ---- keys

  function Namespace(name: string): string { Text.Split(name, '_')[0] }

  function Stripped(name: string): string { Text.Join(Text.Split(name, '_')[1..], "_") }

  function LabelTexts(labels: Labels): (texts: seq<string>)
    ensures |texts| == |labels|
  {
    if labels == [] then [] else [labels[0].0 + "=\"" + labels[0].1 + "\""] + LabelTexts(labels[1..])
  }

  function WithoutChain(labels: Labels): Labels {
    if labels == [] then []
    else if labels[0].0 == "chain" then WithoutChain(labels[1..])
    else [labels[0]] + WithoutChain(labels[1..])
  }

  function KeyOf(name: string, labels: Labels): string {
    if labels == [] then name else name + "{" + Text.Join(LabelTexts(labels), ",") + "}"
  }

  /** The two keys of a sample whose name reads `name`: with every label, and without `chain`. */
  predicate Hits(s: Sample, name: string, key: string) {
    key == KeyOf(name, s.labels) || key == KeyOf(name, WithoutChain(s.labels))
  }

  // ---- the index

  function Table<V>(m: Metrics<V>, ns: string): map<string, V> {
    if Has(m, ns) then Get(m, ns).value else map[]
  }

  function File<V>(t: map<string, V>, s: Sample, name: string, v: V): map<string, V> {
    t[KeyOf(name, s.labels) := v][KeyOf(name, WithoutChain(s.labels)) := v]
  }

  function AddSample<V>(m: Metrics<V>, s: Sample, v: V): Metrics<V> {
    var ns := Namespace(s.name);
    var m1 := Set(m, ns, File(Table(m, ns), s, Stripped(s.name), v));
    Set(m1, RAW, File(Table(m1, RAW), s, s.name, v))
  }

  function Index<V>(samples: seq<Sample>, parseInt: string -> V): Metrics<V> {
    if samples == [] then [(RAW, map[])]
    else
      var n := |samples| - 1;
      AddSample(Index(samples[..n], parseInt), samples[n], parseInt(samples[n].value))
  }

  function Lookup<V>(m: Metrics<V>, key: string): Option<V> {
    if m == [] then None
    else if key in m[0].1 then Some(m[0].1[key])
    else Lookup(m[1..], key)
  }

  // ---- the same lookup as a scan over the samples

  /** The value of the last sample filed under `key` by its full name. */
  function LastRaw<V>(samples: seq<Sample>, key: string, parseInt: string -> V): Option<V> {
    if samples == [] then None
    else
      var n := |samples| - 1;
      if Hits(samples[n], samples[n].name, key) then Some(parseInt(samples[n].value))
      else LastRaw(samples[..n], key, parseInt)
  }

  /** The value of the last sample of namespace `ns` filed under `key` by its stripped name. */
  function LastIn<V>(samples: seq<Sample>, ns: string, key: string, parseInt: string -> V): Option<V> {
    if samples == [] then None
    else
      var n := |samples| - 1;
      if Namespace(samples[n].name) == ns && Hits(samples[n], Stripped(samples[n].name), key)
      then Some(parseInt(samples[n].value))
      else LastIn(samples[..n], ns, key, parseInt)
  }

  function FirstSeen(samples: seq<Sample>): seq<string> {
    if samples == [] then []
    else
      var n := |samples| - 1;
      var before, ns := FirstSeen(samples[..n]), Namespace(samples[n].name);
      if ns in before then before else before + [ns]
  }

  function FirstNamespaceWith<V>(nss: seq<string>, samples: seq<Sample>, key: string, parseInt: string -> V)
      : Option<V>
  {
    if nss == [] then None
    else
      var hit := LastIn(samples, nss[0], key, parseInt);
      if hit.Some? then hit else FirstNamespaceWith(nss[1..], samples, key, parseInt)
  }

  function Scan<V>(samples: seq<Sample>, key: string, parseInt: string -> V): Option<V> {
    var hit := LastRaw(samples, key, parseInt);
    if hit.Some? then hit else FirstNamespaceWith(FirstSeen(samples), samples, key, parseInt)
  }

  // ---- index and scan agree

  /** The tables of an index: their order, and what each holds. */
  ghost predicate Agrees<V(!new)>(m: Metrics<V>, samples: seq<Sample>, parseInt: string -> V) {
    && |m| == 1 + |FirstSeen(samples)|
    && m[0].0 == RAW
    && (forall i :: 0 <= i < |FirstSeen(samples)| ==> m[i + 1].0 == FirstSeen(samples)[i])
    && DistinctKeys(m)
    && (forall key :: Reads(Table(m, RAW), key) == LastRaw(samples, key, parseInt))
    && forall ns, key | ns != RAW :: Reads(Table(m, ns), key) == LastIn(samples, ns, key, parseInt)
  }

  ghost function Reads<V>(t: map<string, V>, key: string): Option<V> {
    if key in t then Some(t[key]) else None
  }

  lemma NamespaceIsNotRaw(name: string)
    ensures Namespace(name) != RAW
  {
    assert '_' !in Namespace(name);
    assert RAW[0] == '_';
  }

  lemma {:induction false} IndexAgrees<V(!new)>(samples: seq<Sample>, parseInt: string -> V)
    ensures Agrees(Index(samples, parseInt), samples, parseInt)
  {
    if samples == [] {
      var m := Index(samples, parseInt);
      assert m[1..] == [];
      forall ns | ns != RAW ensures Table(m, ns) == map[] {
        assert Get(m, ns) == Get(m[1..], ns);
      }
    } else {
      var n := |samples| - 1;
      IndexAgrees(samples[..n], parseInt);
      AddKeepsAgreement(Index(samples[..n], parseInt), samples, parseInt);
    }
  }

  lemma AddKeepsAgreement<V(!new)>(m: Metrics<V>, samples: seq<Sample>, parseInt: string -> V)
    requires samples != [] && Agrees(m, samples[..|samples| - 1], parseInt)
    ensures var s := samples[|samples| - 1];
            Agrees(AddSample(m, s, parseInt(s.value)), samples, parseInt)
  {
    var s := samples[|samples| - 1];
    var v, ns := parseInt(s.value), Namespace(s.name);
    NamespaceIsNotRaw(s.name);
    var t1 := File(Table(m, ns), s, Stripped(s.name), v);
    var m1 := Set(m, ns, t1);
    AddKeepsOrder(m, samples, ns, t1);
    var t2 := File(Table(m1, RAW), s, s.name, v);
    var m2 := Set(m1, RAW, t2);
    SetAt(m1, RAW, t2);
    GetAt(m1, 0);
    forall other {:trigger Table(m2, other)}
      ensures Table(m2, other) == if other == RAW then t2 else if other == ns then t1 else Table(m, other)
    {
      GetAfterSet(m, ns, t1, other);
      GetAfterSet(m1, RAW, t2, other);
    }
    GetAfterSet(m, ns, t1, RAW);
  }

  /** Filing under a namespace appends it exactly when it is new. */
  lemma AddKeepsOrder<V(!new)>(m: Metrics<V>, samples: seq<Sample>, ns: string, t: map<string, V>)
    requires samples != [] && ns == Namespace(samples[|samples| - 1].name) && ns != RAW
    requires var before := FirstSeen(samples[..|samples| - 1]);
             && |m| == 1 + |before| && m[0].0 == RAW && DistinctKeys(m)
             && forall i :: 0 <= i < |before| ==> m[i + 1].0 == before[i]
    ensures var after := FirstSeen(samples);
            && |Set(m, ns, t)| == 1 + |after| && Set(m, ns, t)[0].0 == RAW && DistinctKeys(Set(m, ns, t))
            && forall i :: 0 <= i < |after| ==> Set(m, ns, t)[i + 1].0 == after[i]
  {
    var before := FirstSeen(samples[..|samples| - 1]);
    SetAt(m, ns, t);
    if Has(m, ns) {
      var i := GetFinds(m, ns);
      assert before[i - 1] == ns;
    } else {
      assert forall i :: 0 <= i < |before| ==> m[i + 1].0 == before[i];
    }
  }

  /**
   Main result on the index: for any samples a lookup through the tables answers what the scan answers.
   */
  lemma LookupIsScan<V(!new)>(samples: seq<Sample>, key: string, parseInt: string -> V)
    ensures Lookup(Index(samples, parseInt), key) == Scan(samples, key, parseInt)
  {
    IndexAgrees(samples, parseInt);
    var m := Index(samples, parseInt);
    GetAt(m, 0);
    assert Reads(Table(m, RAW), key) == LastRaw(samples, key, parseInt);
    forall i | 1 <= i < |m|
      ensures Reads(m[i].1, key) == LastIn(samples, m[i].0, key, parseInt)
    {
      GetAt(m, i);
      assert m[i].0 != m[0].0;
      assert Table(m, m[i].0) == m[i].1;
    }
    assert forall i :: 0 <= i < |FirstSeen(samples)| ==> m[1..][i].0 == FirstSeen(samples)[i];
    LookupTail(m[1..], FirstSeen(samples), samples, key, parseInt);
  }

  lemma {:induction false} LookupTail<V(!new)>(
      m: Metrics<V>, nss: seq<string>, samples: seq<Sample>, key: string, parseInt: string -> V)
    requires |m| == |nss| && forall i :: 0 <= i < |m| ==> m[i].0 == nss[i]
    requires forall i :: 0 <= i < |m| ==> Reads(m[i].1, key) == LastIn(samples, m[i].0, key, parseInt)
    ensures Lookup(m, key) == FirstNamespaceWith(nss, samples, key, parseInt)
    decreases |m|
  {
    if m != [] {
      LookupTail(m[1..], nss[1..], samples, key, parseInt);
    }
  }

  // ---- the source

  /** The lines of a text as the source iterates over them. */
  function Lines(text: string): seq<string> { Text.Split(text, '\n') }

  /** The writes into one table, with and without the chain. */
  method FileUnder<V>(t: map<string, V>, s: Sample, name: string, v: V) returns (t': map<string, V>)
    ensures t' == File(t, s, name, v)
  {
    var chainless := WithoutChain(s.labels);
    t' := t;
    if |s.labels| > 0 {
      t' := t'[name + "{" + Text.Join(LabelTexts(s.labels), ",") + "}" := v];
    } else {
      t' := t'[name := v];
    }
    if |chainless| > 0 {
      t' := t'[name + "{" + Text.Join(LabelTexts(chainless), ",") + "}" := v];
    } else {
      t' := t'[name := v];
    }
  }

  /** One line that is not a comment extends what was read, or ends the reading. */
  lemma SamplesFrom(lines: seq<string>, i: nat, done: seq<Sample>)
    requires i < |lines| && !Comment(lines[i])
    ensures Parse(lines[i]).Err? ==> Prefixed(done, Samples(lines[i..])).Err?
    ensures Parse(lines[i]).Ok? ==>
              Prefixed(done, Samples(lines[i..])) == Prefixed(done + [Parse(lines[i]).value], Samples(lines[i + 1..]))
  {
    assert lines[i..][1..] == lines[i + 1..];
    if Parse(lines[i]).Ok? && Samples(lines[i + 1..]).Ok? {
      var s, more := Parse(lines[i]).value, Samples(lines[i + 1..]).value;
      assert done + ([s] + more) == done + [s] + more;
    }
  }

  ghost function Prefixed(done: seq<Sample>, r: Result<seq<Sample>, ParseError>): Result<seq<Sample>, ParseError> {
    if r.Ok? then Ok(done + r.value) else r
  }

  /** The loop over lines: what was read so far, and what the lines still to come will add to it. */
  ghost predicate Reading(lines: seq<string>, i: nat, done: seq<Sample>) {
    i <= |lines| && Samples(lines) == Prefixed(done, Samples(lines[i..]))
  }

  lemma ReadingStarts(lines: seq<string>)
    ensures Reading(lines, 0, [])
  {
    assert lines[0..] == lines;
    var r := Samples(lines);
    assert r.Ok? ==> [] + r.value == r.value;
  }

  lemma ReadingStep(lines: seq<string>, i: nat, done: seq<Sample>)
    requires i < |lines| && Reading(lines, i, done)
    ensures Comment(lines[i]) ==> Reading(lines, i + 1, done)
    ensures !Comment(lines[i]) && Parse(lines[i]).Ok? ==> Reading(lines, i + 1, done + [Parse(lines[i]).value])
    ensures !Comment(lines[i]) && Parse(lines[i]).Err? ==> Samples(lines).Err?
  {
    if Comment(lines[i]) {
      assert lines[i..][1..] == lines[i + 1..];
    } else {
      SamplesFrom(lines, i, done);
    }
  }

  lemma ReadingEnds(lines: seq<string>, done: seq<Sample>)
    requires Reading(lines, |lines|, done)
    ensures Samples(lines) == Ok(done)
  {
    assert done + [] == done;
  }

  /** A sample goes into the table of its namespace and into the raw one. */
  method FileSample<V>(metrics: Metrics<V>, s: Sample, v: V) returns (after: Metrics<V>)
    ensures after == AddSample(metrics, s, v)
  {
    var ns := Namespace(s.name);
    var t := FileUnder(Table(metrics, ns), s, Stripped(s.name), v);
    after := Set(metrics, ns, t);
    t := FileUnder(Table(after, RAW), s, s.name, v);
    after := Set(after, RAW, t);
  }

  lemma EveryLookupIsScan<V(!new)>(samples: seq<Sample>, parseInt: string -> V)
    ensures forall key :: Lookup(Index(samples, parseInt), key) == Scan(samples, key, parseInt)
  {
    forall key ensures Lookup(Index(samples, parseInt), key) == Scan(samples, key, parseInt) {
      LookupIsScan(samples, key, parseInt);
    }
  }

  /**
   `_extractMetrics`. It fails exactly when some line that is neither empty nor a comment does not
   parse; otherwise every lookup in its result is a scan over the samples of the text.
   */
  method ExtractMetrics<V(!new)>(text: string, parseInt: string -> V) returns (r: Result<Metrics<V>, ParseError>)
    ensures r.Ok? <==> Samples(Lines(text)).Ok?
    ensures r.Ok? ==> r.value == Index(Samples(Lines(text)).value, parseInt)
    ensures r.Ok? ==> forall key :: Lookup(r.value, key) == Scan(Samples(Lines(text)).value, key, parseInt)
  {
    var metrics: Metrics<V> := [(RAW, map[])];
    var lines := Lines(text);
    var i := 0;
    ghost var done: seq<Sample> := [];
    ReadingStarts(lines);
    while i < |lines|
      invariant metrics == Index(done, parseInt) && Reading(lines, i, done)
    {
      ReadingStep(lines, i, done);
      var line := lines[i];
      i := i + 1;
      if Comment(line) {
        continue;
      }
      var parsed := ParseLine(line);
      if parsed.Err? {
        return Err(parsed.error);
      }
      metrics := FileSample(metrics, parsed.value, parseInt(parsed.value.value));
      assert (done + [parsed.value])[..|done|] == done;
      done := done + [parsed.value];
    }
    ReadingEnds(lines, done);
    EveryLookupIsScan(done, parseInt);
    return Ok(metrics);
  }

  datatype MetricError = NotAvailable | NotFound(name: string)

  /** A network node as far as its metrics go. */
  class NetworkNode<V(!new)> {
    var cachedMetrics: Option<Metrics<V>>

    constructor ()
      ensures cachedMetrics == None
    {
      cachedMetrics := None;
    }

    method CleanMetricsCache()
      modifies this
      ensures cachedMetrics == None
    {
      cachedMetrics := None;
    }

    /** `fetchMetrics`: a failed fetch (`None`) and a text that does not parse both leave an empty index. */
    method FetchMetrics(response: Option<string>, parseInt: string -> V)
      modifies this
      ensures cachedMetrics.Some?
      ensures forall key ::
        Lookup(cachedMetrics.value, key) ==
        if response.Some? && Samples(Lines(response.value)).Ok?
        then Scan(Samples(Lines(response.value)).value, key, parseInt) else None
    {
      cachedMetrics := Some([]);
      if response.Some? {
        var r := ExtractMetrics(response.value, parseInt);
        if r.Ok? {
          cachedMetrics := Some(r.value);
        }
      }
    }

    /** `_getMetric`: the first table that has the name wins. */
    method GetMetric(metricName: string, metricShouldExist: bool) returns (r: Result<Option<V>, MetricError>)
      ensures cachedMetrics == None ==> r == Err(NotAvailable)
      ensures cachedMetrics.Some? ==>
                var hit := Lookup(cachedMetrics.value, metricName);
                r == if hit == None && metricShouldExist then Err(NotFound(metricName)) else Ok(hit)
    {
      if cachedMetrics == None {
        return Err(NotAvailable);
      }
      var metrics := cachedMetrics.value;
      for i := 0 to |metrics|
        invariant Lookup(metrics, metricName) == Lookup(metrics[i..], metricName)
      {
        if metricName in metrics[i].1 {
          return Ok(Some(metrics[i].1[metricName]));
        }
      }
      if metricShouldExist {
        return Err(NotFound(metricName));
      }
      return Ok(None);
    }
  }
}
