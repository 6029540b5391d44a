/**
 Keys without the namespace: how `_extractMetrics` of orchestrator/src/metrics/index.ts cuts a name, and
 what a lookup by the rest of a name answers. The tool's own queries, such as the best block height, leave the
 namespace out.
 */
module StrippedKeys {
  import opened Wrappers
  import opened OrderedMap
  import opened LineParser
  import opened MetricIndex
  import opened SeriesKeys
  import Text

  /** The name is the namespace, an underscore and the rest, or the namespace alone. */
  predicate Splits(name: string, ns: string, rest: string) {
    '_' !in ns && (name == ns + ("_" + rest) || (rest == "" && name == ns))
  }

  /** The namespace of a name ends at its first underscore, and the stripped name is what follows. */
  lemma NameSplits(name: string, ns: string, rest: string)
    ensures Namespace(name) == ns && Stripped(name) == rest <==> Splits(name, ns, rest)
  {
    var parts := Text.Split(name, '_');
    Text.JoinOfSplit(name, '_');
    if |parts| == 1 {
      assert parts[1..] == [] && parts == [name];
    } else {
      assert name == parts[0] + "_" + Text.Join(parts[1..], "_");
      assert name == parts[0] + ("_" + Text.Join(parts[1..], "_"));
    }
    if Splits(name, ns, rest) {
      if name == ns {
        Text.SplitOne(name, '_');
        assert parts[1..] == [];
      } else {
        Text.SplitAtFirst(ns, rest, '_');
        assert parts == [ns] + Text.Split(rest, '_');
        assert parts[1..] == Text.Split(rest, '_');
        Text.JoinOfSplit(rest, '_');
      }
    }
  }

  /** The labels are those of the series, up to a `chain` label besides. */
  predicate LabelsOf(s: Sample, labels: Labels) {
    s.labels == labels || WithoutChain(s.labels) == labels
  }

  lemma StrippedHits(s: Sample, ns: string, rest: string, labels: Labels)
    requires NameText(s.name) && LegalLabels(s.labels) && QuoteFree(s.labels)
    requires NameText(rest) && LegalLabels(labels) && QuoteFree(labels)
    ensures Namespace(s.name) == ns && Hits(s, Stripped(s.name), KeyOf(rest, labels)) <==>
            Splits(s.name, ns, rest) && LabelsOf(s, labels)
  {
    NameSplits(s.name, Namespace(s.name), Stripped(s.name));
    NameSplits(s.name, ns, rest);
    var n := |Namespace(s.name)|;
    assert NameText(Stripped(s.name)) by {
      assert Stripped(s.name) != "" ==>
               forall i :: 0 <= i < |Stripped(s.name)| ==> Stripped(s.name)[i] == s.name[n + 1 + i];
    }
    WithoutChainLegal(s.labels);
    KeysDiffer(Stripped(s.name), s.labels, rest, labels);
    KeysDiffer(Stripped(s.name), WithoutChain(s.labels), rest, labels);
  }

  lemma {:induction false} NoneIn<V>(samples: seq<Sample>, ns: string, key: string, parseInt: string -> V)
    requires forall i :: 0 <= i < |samples| ==>
               !(Namespace(samples[i].name) == ns && Hits(samples[i], Stripped(samples[i].name), key))
    ensures LastIn(samples, ns, key, parseInt) == None
    decreases |samples|
  {
    if samples != [] {
      NoneIn(samples[..|samples| - 1], ns, key, parseInt);
    }
  }

  /** Only one namespace has a hit: the order in which they are tried does not matter. */
  lemma {:induction false} OnlyNamespace<V>(
      nss: seq<string>, samples: seq<Sample>, ns: string, key: string, parseInt: string -> V)
    requires forall other :: other != ns ==> LastIn(samples, other, key, parseInt) == None
    ensures FirstNamespaceWith(nss, samples, key, parseInt) ==
            if ns in nss then LastIn(samples, ns, key, parseInt) else None
  {
    if nss != [] {
      OnlyNamespace(nss[1..], samples, ns, key, parseInt);
    }
  }

  lemma {:induction false} SeenWhenHit<V>(samples: seq<Sample>, ns: string, key: string, parseInt: string -> V)
    requires LastIn(samples, ns, key, parseInt).Some?
    ensures ns in FirstSeen(samples)
    decreases |samples|
  {
    var n := |samples| - 1;
    if !(Namespace(samples[n].name) == ns && Hits(samples[n], Stripped(samples[n].name), key)) {
      SeenWhenHit(samples[..n], ns, key, parseInt);
    }
  }

  /** The text holds the series in this namespace only, and none of that bare name. */
  ghost predicate InOneNamespace(samples: seq<Sample>, ns: string, rest: string, labels: Labels) {
    forall i :: 0 <= i < |samples| && LabelsOf(samples[i], labels) ==>
      && samples[i].name != rest
      && forall other :: Splits(samples[i].name, other, rest) ==> other == ns && samples[i].name == ns + ("_" + rest)
  }

  lemma {:induction false} LastInIsLastOfSeries<V>(
      samples: seq<Sample>, ns: string, rest: string, labels: Labels, parseInt: string -> V)
    requires LegalSamples(samples) && forall i :: 0 <= i < |samples| ==> QuoteFree(samples[i].labels)
    requires NameText(rest) && LegalLabels(labels) && QuoteFree(labels) && '_' !in ns
    requires InOneNamespace(samples, ns, rest, labels)
    ensures LastIn(samples, ns, KeyOf(rest, labels), parseInt) ==
            LastOfSeries(samples, ns + ("_" + rest), labels, parseInt)
    decreases |samples|
  {
    if samples != [] {
      var n := |samples| - 1;
      assert LegalSample(samples[n]);
      StrippedHits(samples[n], ns, rest, labels);
      LastInIsLastOfSeries(samples[..n], ns, rest, labels, parseInt);
    }
  }

  lemma OtherNamespaces<V>(
      samples: seq<Sample>, ns: string, other: string, rest: string, labels: Labels, parseInt: string -> V)
    requires LegalSamples(samples) && forall i :: 0 <= i < |samples| ==> QuoteFree(samples[i].labels)
    requires NameText(rest) && LegalLabels(labels) && QuoteFree(labels)
    requires InOneNamespace(samples, ns, rest, labels) && other != ns
    ensures LastIn(samples, other, KeyOf(rest, labels), parseInt) == None
  {
    forall i | 0 <= i < |samples|
      ensures !(Namespace(samples[i].name) == other && Hits(samples[i], Stripped(samples[i].name), KeyOf(rest, labels)))
    {
      assert LegalSample(samples[i]);
      StrippedHits(samples[i], other, rest, labels);
    }
    NoneIn(samples, other, KeyOf(rest, labels), parseInt);
  }

  ghost predicate NotBare(s: Sample, rest: string, labels: Labels) {
    LegalSample(s) && QuoteFree(s.labels) && (LabelsOf(s, labels) ==> s.name != rest)
  }

  lemma NotRaw(s: Sample, rest: string, labels: Labels)
    requires NotBare(s, rest, labels)
    requires NameText(rest) && LegalLabels(labels) && QuoteFree(labels)
    ensures !Hits(s, s.name, KeyOf(rest, labels))
  {
    KeyNamesSeries(s, rest, labels);
  }

  lemma {:induction false} NoneRaw<V>(samples: seq<Sample>, key: string, parseInt: string -> V)
    requires forall i :: 0 <= i < |samples| ==> !Hits(samples[i], samples[i].name, key)
    ensures LastRaw(samples, key, parseInt) == None
    decreases |samples|
  {
    if samples != [] {
      NoneRaw(samples[..|samples| - 1], key, parseInt);
    }
  }

  /** When no sample goes by the bare name the raw table has no answer. */
  lemma NothingRaw<V>(samples: seq<Sample>, rest: string, labels: Labels, parseInt: string -> V)
    requires forall i :: 0 <= i < |samples| ==> NotBare(samples[i], rest, labels)
    requires NameText(rest) && LegalLabels(labels) && QuoteFree(labels)
    ensures LastRaw(samples, KeyOf(rest, labels), parseInt) == None
  {
    forall i | 0 <= i < |samples| ensures !Hits(samples[i], samples[i].name, KeyOf(rest, labels)) {
      NotRaw(samples[i], rest, labels);
    }
    NoneRaw(samples, KeyOf(rest, labels), parseInt);
  }

  lemma RestIsName(ns: string, rest: string)
    requires NameText(ns + ("_" + rest))
    ensures NameText(rest)
  {
    var name := ns + ("_" + rest);
    assert forall i :: 0 <= i < |rest| ==> rest[i] == name[|ns| + 1 + i];
  }

  /** What the tables of all namespaces answer is what the table of the one namespace does. */
  lemma OneNamespaceAnswers<V(!new)>(
      samples: seq<Sample>, ns: string, rest: string, labels: Labels, parseInt: string -> V)
    requires LegalSamples(samples) && forall i :: 0 <= i < |samples| ==> QuoteFree(samples[i].labels)
    requires NameText(rest) && LegalLabels(labels) && QuoteFree(labels)
    requires InOneNamespace(samples, ns, rest, labels)
    ensures FirstNamespaceWith(FirstSeen(samples), samples, KeyOf(rest, labels), parseInt) ==
            LastIn(samples, ns, KeyOf(rest, labels), parseInt)
  {
    var key := KeyOf(rest, labels);
    forall other | other != ns ensures LastIn(samples, other, key, parseInt) == None {
      OtherNamespaces(samples, ns, other, rest, labels, parseInt);
    }
    OnlyNamespace(FirstSeen(samples), samples, ns, key, parseInt);
    if LastIn(samples, ns, key, parseInt).Some? {
      SeenWhenHit(samples, ns, key, parseInt);
    }
  }

  /**
   End to end without the namespace: asking for `rest` with the labels of a series `ns_rest` answers its last
   value, when no other namespace has that series and none goes by the bare name.
   */
  lemma SeriesIsFoundStripped<V(!new)>(
      samples: seq<Sample>, ns: string, rest: string, labels: Labels, parseInt: string -> V)
    requires LegalSamples(samples) && forall i :: 0 <= i < |samples| ==> QuoteFree(samples[i].labels)
    requires LegalSeries(ns + ("_" + rest), labels) && QuoteFree(labels) && '_' !in ns
    requires InOneNamespace(samples, ns, rest, labels)
    ensures Answer(samples, KeyOf(rest, labels), parseInt) ==
            LastOfSeries(samples, ns + ("_" + rest), labels, parseInt)
  {
    RestIsName(ns, rest);
    AnswerIsScan(samples, KeyOf(rest, labels), parseInt);
    forall i | 0 <= i < |samples| ensures NotBare(samples[i], rest, labels) {
      assert LegalSample(samples[i]);
    }
    NothingRaw(samples, rest, labels, parseInt);
    OneNamespaceAnswers(samples, ns, rest, labels, parseInt);
    LastInIsLastOfSeries(samples, ns, rest, labels, parseInt);
  }

  // ---- several namespaces

  /** Namespaces are listed once each, those of earlier lines before those of later ones. */
  lemma {:induction false} SeenInOrder(a: seq<Sample>, b: seq<Sample>)
    ensures FirstSeen(a) <= FirstSeen(a + b)
    ensures forall ns :: ns in FirstSeen(b) ==> ns in FirstSeen(a + b)
    ensures forall i, j :: 0 <= i < j < |FirstSeen(b)| ==> FirstSeen(b)[i] != FirstSeen(b)[j]
    decreases |b|
  {
    if b == [] {
      assert a + b == a;
    } else {
      var n := |b| - 1;
      assert (a + b)[..|a + b| - 1] == a + b[..n];
      SeenInOrder(a, b[..n]);
    }
  }

  lemma {:induction false} FirstOfNamespaces<V>(
      nss: seq<string>, more: seq<string>, samples: seq<Sample>, key: string, parseInt: string -> V)
    requires FirstNamespaceWith(nss, samples, key, parseInt).Some?
    ensures FirstNamespaceWith(nss + more, samples, key, parseInt) == FirstNamespaceWith(nss, samples, key, parseInt)
  {
    assert (nss + more)[0] == nss[0] && (nss + more)[1..] == nss[1..] + more;
    if LastIn(samples, nss[0], key, parseInt) == None {
      FirstOfNamespaces(nss[1..], more, samples, key, parseInt);
    }
  }

  /**
   Where several namespaces have a series of the key, the namespace of the first line answers, with its last
   value in the whole text.
   */
  lemma EarlierNamespaceWins<V(!new)>(s: Sample, more: seq<Sample>, key: string, parseInt: string -> V)
    requires LastRaw([s] + more, key, parseInt) == None
    requires LastIn([s] + more, Namespace(s.name), key, parseInt).Some?
    ensures Scan([s] + more, key, parseInt) == LastIn([s] + more, Namespace(s.name), key, parseInt)
  {
    var ns := Namespace(s.name);
    SeenInOrder([s], more);
    assert FirstSeen([s]) == [ns] by { assert [s][..0] == []; }
    var nss := FirstSeen([s] + more);
    assert nss == [ns] + nss[1..];
    FirstOfNamespaces([ns], nss[1..], [s] + more, key, parseInt);
  }

  /** Exactly the labels called `chain` are left out, the others stay in order. */
  lemma {:induction false} ChainIsLeftOut(a: Labels, b: Labels, k: string, v: string)
    ensures WithoutChain(a + b) == WithoutChain(a) + WithoutChain(b)
    ensures WithoutChain([(k, v)]) == if k == "chain" then [] else [(k, v)]
  {
    assert WithoutChain([(k, v)][1..]) == [];
    if a == [] {
      assert a + b == b;
    } else {
      assert (a + b)[1..] == a[1..] + b;
      ChainIsLeftOut(a[1..], b, k, v);
    }
  }

  // ---- the tool's own key

  const BEST_BLOCK := "block_height{status=\"best\"}"

  /** The best block height of a node is found whatever its namespace and its chain are. */
  lemma BestBlockIsFound<V(!new)>(ns: string, chain: string, value: string, parseInt: string -> V)
    requires LegalMetricName(ns) && '_' !in ns && '"' !in chain
    requires value != "" && NoBlanks(value) && '\n' !in value
    ensures var s := Sample(ns + ("_" + "block_height"), [("status", "best"), ("chain", chain)], value, None);
            Answer([s], BEST_BLOCK, parseInt) == Some(parseInt(value))
  {
    var labels: Labels := [("status", "best")];
    var s := Sample(ns + ("_" + "block_height"), [("status", "best"), ("chain", chain)], value, None);
    BestBlockKey(chain);
    BestBlockIsLegal(ns, chain, value);
    assert forall other :: Splits(s.name, other, "block_height") ==> other == ns by {
      NameSplits(s.name, ns, "block_height");
      forall other | Splits(s.name, other, "block_height") ensures other == ns {
        NameSplits(s.name, other, "block_height");
      }
    }
    assert |s.name| > |"block_height"|;
    assert LastOfSeries([s], s.name, labels, parseInt) == Some(parseInt(value));
    SeriesIsFoundStripped([s], ns, "block_height", labels, parseInt);
  }

  lemma BestBlockKey(chain: string)
    ensures KeyOf("block_height", [("status", "best")]) == BEST_BLOCK
    ensures WithoutChain([("status", "best"), ("chain", chain)]) == [("status", "best")]
  {
    assert [("status", "best")][1..] == [];
    assert LabelTexts([("status", "best")]) == ["status" + "=\"" + "best" + "\""];
    var both := [("status", "best"), ("chain", chain)];
    assert both[1..] == [("chain", chain)] && [("chain", chain)][1..] == [];
    assert WithoutChain([("chain", chain)]) == [];
    assert WithoutChain(both) == [both[0]] + WithoutChain(both[1..]);
  }

  lemma BestBlockIsLegal(ns: string, chain: string, value: string)
    requires LegalMetricName(ns) && '"' !in chain
    requires value != "" && NoBlanks(value) && '\n' !in value
    ensures LegalSample(Sample(ns + ("_" + "block_height"), [("status", "best"), ("chain", chain)], value, None))
    ensures QuoteFree([("status", "best"), ("chain", chain)]) && QuoteFree([("status", "best")])
    ensures LegalLabels([("status", "best")])
  {
    assert LegalLabelName("status") && LegalLabelName("chain") && "status" != "chain";
    assert LegalMetricName("block_height");
  }
}
