/**
 Detection of a node binary's argument version: `setSubstrateCliArgsVersion` and `getCliArgsVersion`
 of orchestrator/src/substrateCliArgsHelper.ts. Every distinct image and command is asked for its help
 text once; every node without a version then gets the one of its key.
 */
module CliVersion {
  import opened Wrappers
  import opened OrderedMap
  import Text

  datatype Scope = Relay | Para

  datatype Node = Node(image: string, command: string, version: Option<nat>)

  /** The first version is zero, which the source cannot tell from a missing one. */
  predicate Unset(n: Node) { n.version == None || n.version == Some(0) }

  /** What is asked for its help text, and for which kind of chain. */
  datatype Asked = Asked(image: string, command: string, scope: Scope)

  type Registry = Entries<string, Asked>

  datatype VersionError = ProbeFailed | MissingKey

  function KeyOf(n: Node): string { n.image + "_" + n.command }

  /** `getCliArgsVersion` */
  function VersionOf(help: string, scope: Scope): nat {
    if Text.Includes(help, "--ws-port <PORT>") then 0
    else if scope == Relay then
      if !Text.Includes(help, "--insecure-validator-i-know-what-i-do") then 1 else 2
    else if !Text.Includes(help, "export-genesis-head") then 2 else 3
  }

  // ---- registering keys

  /** Unset nodes whose key is new are registered, in order. */
  function Register(m: Registry, nodes: seq<Node>, scope: Scope): Registry {
    if nodes == [] then m
    else
      var n := |nodes| - 1;
      var before := Register(m, nodes[..n], scope);
      if Unset(nodes[n]) && !Has(before, KeyOf(nodes[n]))
      then Set(before, KeyOf(nodes[n]), Asked(nodes[n].image, nodes[n].command, scope)) else before
  }

  /** The collators of a parachain that are looked at: those before the first one with a version. */
  function Visible(collators: seq<Node>): (v: seq<Node>)
    ensures v <= collators && forall i :: 0 <= i < |v| ==> Unset(v[i])
    ensures |v| < |collators| ==> !Unset(collators[|v|])
  {
    if collators == [] || !Unset(collators[0]) then [] else [collators[0]] + Visible(collators[1..])
  }

  function RegisterParas(m: Registry, paras: seq<seq<Node>>): Registry {
    if paras == [] then m
    else Register(RegisterParas(m, paras[..|paras| - 1]), Visible(paras[|paras| - 1]), Para)
  }

  function Registered(relay: seq<Node>, paras: seq<seq<Node>>): Registry {
    RegisterParas(Register([], relay, Relay), paras)
  }

  // ---- setting versions

  type Help = (string, string) -> Option<string>

  function Detected(m: Registry, key: string, help: Help): Option<nat> {
    if Has(m, key) then
      var a := Get(m, key).value;
      var text := help(a.image, a.command);
      if text.Some? then Some(VersionOf(text.value, a.scope)) else None
    else None
  }

  function WithVersion(n: Node, m: Registry, help: Help): Node {
    if Unset(n) then n.(version := Detected(m, KeyOf(n), help)) else n
  }

  function WithVersions(nodes: seq<Node>, m: Registry, help: Help): (r: seq<Node>)
    ensures |r| == |nodes| && forall i :: 0 <= i < |nodes| ==> r[i] == WithVersion(nodes[i], m, help)
  {
    if nodes == [] then []
    else WithVersions(nodes[..|nodes| - 1], m, help) + [WithVersion(nodes[|nodes| - 1], m, help)]
  }

  ghost predicate AllKnown(nodes: seq<Node>, m: Registry) {
    forall i :: 0 <= i < |nodes| && Unset(nodes[i]) ==> Has(m, KeyOf(nodes[i]))
  }

  /** The nodes before the first unset one whose key is missing. */
  function KnownPrefix(nodes: seq<Node>, m: Registry): (k: nat)
    ensures k <= |nodes| && forall i :: 0 <= i < k && Unset(nodes[i]) ==> Has(m, KeyOf(nodes[i]))
    ensures k < |nodes| ==> Unset(nodes[k]) && !Has(m, KeyOf(nodes[k]))
    ensures k == |nodes| <==> AllKnown(nodes, m)
  {
    if nodes == [] || (Unset(nodes[0]) && !Has(m, KeyOf(nodes[0]))) then 0
    else
      var k := KnownPrefix(nodes[1..], m);
      assert forall i :: 0 < i < |nodes| ==> nodes[1..][i - 1] == nodes[i];
      1 + k
  }

  /** The versions are set up to a missing key. */
  function SetUpTo(nodes: seq<Node>, m: Registry, help: Help): (r: seq<Node>)
    ensures |r| == |nodes|
    ensures AllKnown(nodes, m) ==> r == WithVersions(nodes, m, help)
  {
    var k := KnownPrefix(nodes, m);
    var r := WithVersions(nodes[..k], m, help) + nodes[k..];
    assert k == |nodes| ==> nodes[..k] == nodes && r == WithVersions(nodes, m, help);
    r
  }

  ghost predicate NothingNeeded(relay: seq<Node>, paras: seq<seq<Node>>) {
    && (forall i :: 0 <= i < |relay| ==> !Unset(relay[i]))
    && forall p, i :: 0 <= p < |paras| && 0 <= i < |paras[p]| ==> !Unset(paras[p][i])
  }

  ghost predicate AllAnswer(m: Registry, help: Help) {
    forall i :: 0 <= i < |m| ==> !Fails(m[i].1, help)
  }

  predicate Fails(a: Asked, help: Help) { help(a.image, a.command).None? }

  // ---- the source

  class ComputedNetwork {
    var relay: seq<Node>
    var paras: seq<seq<Node>>

    constructor (r: seq<Node>, p: seq<seq<Node>>)
      ensures relay == r && paras == p
    {
      relay, paras := r, p;
    }

    method NeedsNothing() returns (b: bool)
      ensures b <==> NothingNeeded(relay, paras)
    {
      for i := 0 to |relay|
        invariant forall j :: 0 <= j < i ==> !Unset(relay[j])
      {
        if Unset(relay[i]) { return false; }
      }
      for p := 0 to |paras|
        invariant forall q, j :: 0 <= q < p && 0 <= j < |paras[q]| ==> !Unset(paras[q][j])
      {
        for i := 0 to |paras[p]|
          invariant forall j :: 0 <= j < i ==> !Unset(paras[p][j])
        {
          if Unset(paras[p][i]) { return false; }
        }
      }
      return true;
    }

    /** The table of distinct keys; a collator with a version ends the look at its parachain. */
    method CollectKeys() returns (m: Registry)
      ensures m == Registered(relay, paras)
    {
      m := [];
      for i := 0 to |relay|
        invariant m == Register([], relay[..i], Relay)
      {
        assert relay[..i + 1][..i] == relay[..i];
        var node := relay[i];
        if Unset(node) {
          var key := node.image + "_" + node.command;
          if !Has(m, key) {
            m := Set(m, key, Asked(node.image, node.command, Relay));
          }
        }
      }
      assert relay[..|relay|] == relay;
      for p := 0 to |paras|
        invariant m == RegisterParas(Register([], relay, Relay), paras[..p])
      {
        assert paras[..p + 1][..p] == paras[..p];
        var collators := paras[p];
        ghost var before := m;
        var i := 0;
        while i < |collators| && Unset(collators[i])
          invariant 0 <= i <= |Visible(collators)|
          invariant m == Register(before, collators[..i], Para)
        {
          assert collators[..i + 1][..i] == collators[..i];
          var key := collators[i].image + "_" + collators[i].command;
          if !Has(m, key) {
            m := Set(m, key, Asked(collators[i].image, collators[i].command, Para));
          }
          i := i + 1;
        }
        assert collators[..i] == Visible(collators);
      }
      assert paras[..|paras|] == paras;
    }

    /**
     `setSubstrateCliArgsVersion`. `asked` lists the probes made, in order. When a key is missing the
     relay chain's nodes already have their versions.
     */
    method SetVersions(help: Help) returns (r: Result<(), VersionError>, asked: seq<Asked>)
      modifies this
      ensures asked <= AskedOf(Registered(old(relay), old(paras)))
      ensures NothingNeeded(old(relay), old(paras)) ==>
                r == Ok(()) && asked == [] && relay == old(relay) && paras == old(paras)
      ensures var m := Registered(old(relay), old(paras));
              !NothingNeeded(old(relay), old(paras)) ==>
                if !AllAnswer(m, help) then r == Err(ProbeFailed) && relay == old(relay) && paras == old(paras)
                     && asked != [] && Fails(asked[|asked| - 1], help)
                else
                  && asked == AskedOf(m) && relay == WithVersions(old(relay), m, help)
                  && (r.Ok? <==> forall p :: 0 <= p < |old(paras)| ==> AllKnown(old(paras)[p], m))
                  && (r.Ok? ==> && |paras| == |old(paras)|
                                && forall p :: 0 <= p < |paras| ==> paras[p] == WithVersions(old(paras)[p], m, help))
                  && (r.Err? ==> r.error == MissingKey && StoppedAtMissing(old(paras), paras, m, help))
    {
      asked := [];
      var nothing := NeedsNothing();
      if nothing {
        return Ok(()), asked;
      }
      var m := CollectKeys();
      var answered;
      answered, asked := Probe(m, help);
      if !answered {
        return Err(ProbeFailed), asked;
      }
      RelayIsKnown(relay, paras);
      var known;
      known, relay := SetNodes(relay, m, help);
      known, paras := SetParas(paras, m, help);
      return if known then Ok(()) else Err(MissingKey), asked;
    }

    /** The loop over parachains; a missing key ends it. */
    static method SetParas(collators: seq<seq<Node>>, m: Registry, help: Help)
        returns (known: bool, after: seq<seq<Node>>)
      ensures known <==> forall p :: 0 <= p < |collators| ==> AllKnown(collators[p], m)
      ensures known ==>
                && |after| == |collators|
                && forall p :: 0 <= p < |after| ==> after[p] == WithVersions(collators[p], m, help)
      ensures !known ==> StoppedAtMissing(collators, after, m, help)
    {
      after := collators;
      for p := 0 to |collators|
        invariant forall q :: 0 <= q < p ==> AllKnown(collators[q], m)
        invariant ParasSetUpTo(collators, after, m, help, p)
      {
        var here;
        known, here := SetNodes(collators[p], m, help);
        after := after[p := here];
        if !known {
          assert StoppedAt(collators, after, m, help, p);
          return false, after;
        }
      }
      return true, after;
    }

    /** Asking for the help texts, until one fails. */
    static method Probe(m: Registry, help: Help) returns (answered: bool, asked: seq<Asked>)
      ensures answered <==> AllAnswer(m, help)
      ensures asked <= AskedOf(m) && (answered ==> asked == AskedOf(m))
      ensures !answered ==>
                && asked != [] && Fails(asked[|asked| - 1], help)
                && forall i :: 0 <= i < |asked| - 1 ==> !Fails(asked[i], help)
    {
      asked := [];
      for i := 0 to |m|
        invariant asked == AskedOf(m)[..i]
        invariant forall j :: 0 <= j < i ==> !Fails(m[j].1, help)
      {
        asked := asked + [m[i].1];
        if Fails(m[i].1, help) {
          return false, asked;
        }
      }
      return true, asked;
    }

    /** One loop over nodes that need a version; a missing key ends it, and what was set stays set. */
    static method SetNodes(nodes: seq<Node>, m: Registry, help: Help) returns (known: bool, after: seq<Node>)
      ensures known <==> AllKnown(nodes, m)
      ensures after == SetUpTo(nodes, m, help)
    {
      after := nodes;
      for i := 0 to |nodes|
        invariant |after| == |nodes| && i <= KnownPrefix(nodes, m)
        invariant forall j :: 0 <= j < |after| ==>
                    after[j] == if j < i then WithVersion(nodes[j], m, help) else nodes[j]
      {
        if Unset(after[i]) {
          var key := after[i].image + "_" + after[i].command;
          if !Has(m, key) {
            assert after == SetUpTo(nodes, m, help);
            return false, after;
          }
          after := after[i := after[i].(version := Detected(m, key, help))];
        }
      }
      assert after == WithVersions(nodes, m, help);
      return true, after;
    }
  }

  /** Parachain `p` is the first with a missing key: versions are set up to it, and not behind it. */
  ghost predicate StoppedAt(before: seq<seq<Node>>, after: seq<seq<Node>>, m: Registry, help: Help, p: nat) {
    && p < |before| && !AllKnown(before[p], m)
    && (forall q :: 0 <= q < p ==> AllKnown(before[q], m))
    && ParasSetUpTo(before, after, m, help, p + 1)
  }

  ghost predicate ParasSetUpTo(before: seq<seq<Node>>, after: seq<seq<Node>>, m: Registry, help: Help, p: nat) {
    && |after| == |before|
    && forall q :: 0 <= q < |after| ==> after[q] == if q < p then SetUpTo(before[q], m, help) else before[q]
  }

  ghost predicate StoppedAtMissing(before: seq<seq<Node>>, after: seq<seq<Node>>, m: Registry, help: Help) {
    exists p :: StoppedAt(before, after, m, help, p)
  }

  function AskedOf(m: Registry): (a: seq<Asked>)
    ensures |a| == |m| && forall i :: 0 <= i < |m| ==> a[i] == m[i].1
  {
    seq(|m|, i requires 0 <= i < |m| => m[i].1)
  }

  // ---- which keys are registered

  ghost predicate HasUnset(nodes: seq<Node>, key: string) {
    exists i :: 0 <= i < |nodes| && Unset(nodes[i]) && KeyOf(nodes[i]) == key
  }

  lemma HasUnsetGrows(nodes: seq<Node>, key: string)
    requires nodes != []
    ensures var n := |nodes| - 1;
            HasUnset(nodes, key) <==> HasUnset(nodes[..n], key) || (Unset(nodes[n]) && KeyOf(nodes[n]) == key)
  {
    var n := |nodes| - 1;
    if HasUnset(nodes[..n], key) {
      var i :| 0 <= i < n && Unset(nodes[..n][i]) && KeyOf(nodes[..n][i]) == key;
      assert nodes[i] == nodes[..n][i];
    }
    if HasUnset(nodes, key) {
      var i :| 0 <= i < |nodes| && Unset(nodes[i]) && KeyOf(nodes[i]) == key;
      assert i < n ==> nodes[..n][i] == nodes[i];
    }
  }

  /** Each registered key stands for the image and command it was made of. */
  ghost predicate KeysFit(m: Registry) {
    DistinctKeys(m) && forall i :: 0 <= i < |m| ==> m[i].0 == m[i].1.image + "_" + m[i].1.command
  }

  lemma {:induction false} RegisterKeys(m: Registry, nodes: seq<Node>, scope: Scope, key: string)
    requires KeysFit(m)
    ensures KeysFit(Register(m, nodes, scope))
    ensures Has(Register(m, nodes, scope), key) <==> Has(m, key) || HasUnset(nodes, key)
    ensures Has(m, key) ==> Get(Register(m, nodes, scope), key) == Get(m, key)
    decreases |nodes|
  {
    if nodes != [] {
      var n := |nodes| - 1;
      var before, node := Register(m, nodes[..n], scope), nodes[n];
      RegisterKeys(m, nodes[..n], scope, key);
      HasUnsetGrows(nodes, key);
      if Unset(node) && !Has(before, KeyOf(node)) {
        var a := Asked(node.image, node.command, scope);
        SetAppends(before, KeyOf(node), a);
        GetAfterSet(before, KeyOf(node), a, key);
      }
    }
  }

  ghost predicate VisibleIn(paras: seq<seq<Node>>, key: string) {
    exists p :: 0 <= p < |paras| && HasUnset(Visible(paras[p]), key)
  }

  lemma {:induction false} RegisterParasKeys(m: Registry, paras: seq<seq<Node>>, key: string)
    requires KeysFit(m)
    ensures KeysFit(RegisterParas(m, paras))
    ensures Has(RegisterParas(m, paras), key) <==> Has(m, key) || VisibleIn(paras, key)
    ensures Has(m, key) ==> Get(RegisterParas(m, paras), key) == Get(m, key)
    decreases |paras|
  {
    if paras != [] {
      var n := |paras| - 1;
      RegisterParasKeys(m, paras[..n], key);
      RegisterKeys(RegisterParas(m, paras[..n]), Visible(paras[n]), Para, key);
    }
  }

  /** A key is registered exactly when an unset relay node or a visible collator has it. */
  lemma RegisteredIff(relay: seq<Node>, paras: seq<seq<Node>>, key: string)
    ensures Has(Registered(relay, paras), key) <==> HasUnset(relay, key) || VisibleIn(paras, key)
    ensures KeysFit(Registered(relay, paras))
    ensures HasUnset(relay, key) ==> Get(Registered(relay, paras), key) == Get(Register([], relay, Relay), key)
  {
    RegisterKeys([], relay, Relay, key);
    RegisterParasKeys(Register([], relay, Relay), paras, key);
  }

  lemma RelayIsKnown(relay: seq<Node>, paras: seq<seq<Node>>)
    ensures AllKnown(relay, Registered(relay, paras))
  {
    forall i | 0 <= i < |relay| && Unset(relay[i]) ensures Has(Registered(relay, paras), KeyOf(relay[i])) {
      RegisteredIff(relay, paras, KeyOf(relay[i]));
    }
  }

  // ---- results

  /** No image and command is asked twice. */
  lemma EachAskedOnce(relay: seq<Node>, paras: seq<seq<Node>>, i: nat, j: nat)
    requires i < j < |AskedOf(Registered(relay, paras))|
    ensures var a := AskedOf(Registered(relay, paras));
            !(a[i].image == a[j].image && a[i].command == a[j].command)
  {
    RegisteredIff(relay, paras, "");
    var m := Registered(relay, paras);
    assert m[i].0 != m[j].0;
  }

  /** What `nodes` would register, in order, repetitions included. */
  function Candidates(nodes: seq<Node>, scope: Scope): seq<Asked> {
    if nodes == [] then []
    else
      var n := |nodes| - 1;
      var before := Candidates(nodes[..n], scope);
      if Unset(nodes[n]) then before + [Asked(nodes[n].image, nodes[n].command, scope)] else before
  }

  /** Relay nodes first, then the visible collators, parachain by parachain. */
  function AllCandidates(relay: seq<Node>, paras: seq<seq<Node>>): seq<Asked> {
    if paras == [] then Candidates(relay, Relay)
    else AllCandidates(relay, paras[..|paras| - 1]) + Candidates(Visible(paras[|paras| - 1]), Para)
  }

  function FirstWith(asked: seq<Asked>, key: string): Option<Asked> {
    if asked == [] then None
    else if asked[0].image + "_" + asked[0].command == key then Some(asked[0])
    else FirstWith(asked[1..], key)
  }

  lemma {:induction false} FirstOfTwo(a: seq<Asked>, b: seq<Asked>, key: string)
    ensures FirstWith(a + b, key) == if FirstWith(a, key).Some? then FirstWith(a, key) else FirstWith(b, key)
  {
    if a == [] {
      assert a + b == b;
    } else {
      assert (a + b)[1..] == a[1..] + b;
      FirstOfTwo(a[1..], b, key);
    }
  }

  lemma {:induction false} RegisterReads(m: Registry, nodes: seq<Node>, scope: Scope, key: string)
    ensures Get(Register(m, nodes, scope), key) ==
            if Has(m, key) then Get(m, key) else FirstWith(Candidates(nodes, scope), key)
    decreases |nodes|
  {
    if nodes != [] {
      var n := |nodes| - 1;
      var node, before := nodes[n], Register(m, nodes[..n], scope);
      var a := Asked(node.image, node.command, scope);
      RegisterReads(m, nodes[..n], scope, key);
      FirstOfTwo(Candidates(nodes[..n], scope), [a], key);
      assert [a][1..] == [];
      if Unset(node) && !Has(before, KeyOf(node)) {
        GetAfterSet(before, KeyOf(node), a, key);
      }
    }
  }

  /** The table answers with the first candidate of a key. */
  lemma {:induction false} RegisteredIsFirst(relay: seq<Node>, paras: seq<seq<Node>>, key: string)
    ensures Get(Registered(relay, paras), key) == FirstWith(AllCandidates(relay, paras), key)
    decreases |paras|
  {
    if paras == [] {
      RegisterReads([], relay, Relay, key);
    } else {
      var n := |paras| - 1;
      RegisteredIsFirst(relay, paras[..n], key);
      RegisterReads(Registered(relay, paras[..n]), Visible(paras[n]), Para, key);
      FirstOfTwo(AllCandidates(relay, paras[..n]), Candidates(Visible(paras[n]), Para), key);
    }
  }

  /**
   A version that is set and not zero is never changed; an unset node gets the version told by the help
   text of the first candidate with its key, for that candidate's kind of chain. Hence unset nodes of
   one key get one version.
   */
  lemma VersionComesFromTheFirst(relay: seq<Node>, paras: seq<seq<Node>>, help: Help, n: Node)
    ensures n.version.Some? && n.version.value != 0 ==> WithVersion(n, Registered(relay, paras), help) == n
    ensures n.version in {None, Some(0)} && FirstWith(AllCandidates(relay, paras), KeyOf(n)).Some? ==>
              var a := FirstWith(AllCandidates(relay, paras), KeyOf(n)).value;
              help(a.image, a.command).Some? ==>
                WithVersion(n, Registered(relay, paras), help) ==
                n.(version := Some(VersionOf(help(a.image, a.command).value, a.scope)))
  {
    RegisteredIsFirst(relay, paras, KeyOf(n));
  }

  /**
   Main result: no collator's key is missing exactly when every collator that needs a version comes
   before the first one of its parachain that has one, or shares its key with an unset relay node or
   with a collator that does.
   */
  lemma NothingMissingIff(relay: seq<Node>, paras: seq<seq<Node>>)
    ensures (forall p :: 0 <= p < |paras| ==> AllKnown(paras[p], Registered(relay, paras))) <==>
            forall p, i :: 0 <= p < |paras| && |Visible(paras[p])| <= i < |paras[p]| && Unset(paras[p][i]) ==>
              HasUnset(relay, KeyOf(paras[p][i])) || VisibleIn(paras, KeyOf(paras[p][i]))
  {
    var m := Registered(relay, paras);
    forall p, i | 0 <= p < |paras| && 0 <= i < |paras[p]| && Unset(paras[p][i])
      ensures Has(m, KeyOf(paras[p][i])) <==>
              HasUnset(relay, KeyOf(paras[p][i])) || VisibleIn(paras, KeyOf(paras[p][i]))
      ensures i < |Visible(paras[p])| ==> Has(m, KeyOf(paras[p][i]))
    {
      RegisteredIff(relay, paras, KeyOf(paras[p][i]));
      if i < |Visible(paras[p])| {
        assert Visible(paras[p])[i] == paras[p][i];
        assert HasUnset(Visible(paras[p]), KeyOf(paras[p][i]));
      }
    }
  }

  /**
   A concrete failure: a collator that needs a version behind one that has it, of a key nobody else has,
   makes the whole detection fail.
   */
  lemma PresetHidesUnset()
    ensures var collators := [Node("i", "preset", Some(1)), Node("i", "unset", None)];
            !AllKnown(collators, Registered([], [collators])) && !NothingNeeded([], [collators])
  {
    var collators := [Node("i", "preset", Some(1)), Node("i", "unset", None)];
    assert Unset(collators[1]) && Visible(collators) == [];
    var paras := [collators];
    RegisteredIff([], paras, KeyOf(collators[1]));
    assert paras[0][1] == collators[1];
  }

  // ---- whose answer a node gets

  /** An underscore within the image of `a` is the one that ends the image of `b`. */
  ghost predicate Shifted(a: Node, b: Node) {
    exists w: string :: a.image == b.image + ("_" + w) && b.command == w + ("_" + a.command)
  }

  /** Main result on keys: which images and commands share one. */
  lemma KeysEqualIff(a: Node, b: Node)
    ensures KeyOf(a) == KeyOf(b) <==>
            (a.image == b.image && a.command == b.command) || Shifted(a, b) || Shifted(b, a)
  {
    if KeyOf(a) == KeyOf(b) {
      if |a.image| > |b.image| {
        EqualKeysShift(a, b);
      } else if |b.image| > |a.image| {
        EqualKeysShift(b, a);
      } else {
        assert a.image == KeyOf(a)[..|a.image|] && b.image == KeyOf(b)[..|b.image|];
        assert a.command == KeyOf(a)[|a.image| + 1..] && b.command == KeyOf(b)[|b.image| + 1..];
      }
    }
  }

  lemma EqualKeysShift(a: Node, b: Node)
    requires KeyOf(a) == KeyOf(b) && |a.image| > |b.image|
    ensures Shifted(a, b)
  {
    var k, n := KeyOf(a), |b.image|;
    var w := k[n + 1..|a.image|];
    assert a.image == k[..|a.image|] && b.image == k[..n] && k[n] == '_' && k[|a.image|] == '_';
    assert a.image == b.image + ("_" + w);
    assert b.command == k[n + 1..] && a.command == k[|a.image| + 1..];
    assert b.command == w + ("_" + a.command);
  }

  /** Among commands without an underscore the key tells image and command apart. */
  lemma KeysDiffer(a: Node, b: Node)
    requires KeyOf(a) == KeyOf(b) && '_' !in a.command && '_' !in b.command
    ensures a.image == b.image && a.command == b.command
  {
    KeysEqualIff(a, b);
  }

  /** Whatever the help texts say, the node gets what its own one says by the rule for `scope`. */
  ghost predicate GetsOwnAnswer(n: Node, m: Registry, scope: Scope) {
    forall help: Help :: (forall image, command :: help(image, command).Some?) ==>
      WithVersion(n, m, help).version == Some(VersionOf(help(n.image, n.command).value, scope))
  }

  /** A help text that only one image and command has. */
  function Telling(image: string, command: string): Help {
    (i, c) => if i == image && c == command then Some("--ws-port <PORT>") else Some("")
  }

  /** Another image, command or kind of chain answers differently for some help texts. */
  lemma OwnTextTells(a: Asked, n: Node, scope: Scope) returns (help: Help)
    requires a != Asked(n.image, n.command, scope)
    ensures forall image, command :: help(image, command).Some?
    ensures VersionOf(help(a.image, a.command).value, a.scope) != VersionOf(help(n.image, n.command).value, scope)
  {
    assert VersionOf("--ws-port <PORT>", scope) == 0 && VersionOf("", Relay) == 1 && VersionOf("", Para) == 2;
    help := if a.image != n.image || a.command != n.command then Telling(n.image, n.command) else (i, c) => Some("");
  }

  /**
   Main result on answers: an unset node gets, for every help text, what its own binary tells by its own
   rule exactly when the first candidate of its key has its image, its command and its kind of chain.
   */
  lemma OwnAnswerIff(relay: seq<Node>, paras: seq<seq<Node>>, n: Node, scope: Scope)
    requires Unset(n)
    ensures GetsOwnAnswer(n, Registered(relay, paras), scope) <==>
            FirstWith(AllCandidates(relay, paras), KeyOf(n)) == Some(Asked(n.image, n.command, scope))
  {
    RegisteredIsFirst(relay, paras, KeyOf(n));
    var m, first := Registered(relay, paras), FirstWith(AllCandidates(relay, paras), KeyOf(n));
    if first.Some? && first.value != Asked(n.image, n.command, scope) {
      var help := OwnTextTells(first.value, n, scope);
      assert WithVersion(n, m, help).version != Some(VersionOf(help(n.image, n.command).value, scope));
    } else if first.None? {
      var help: Help := (i, c) => Some("");
      assert forall image, command :: help(image, command).Some?;
      assert WithVersion(n, m, help).version == None;
    }
  }

  lemma {:induction false} CandidatesOf(nodes: seq<Node>, scope: Scope, key: string)
    ensures var first := FirstWith(Candidates(nodes, scope), key);
            (first.Some? <==> HasUnset(nodes, key)) && (first.Some? ==> first.value.scope == scope)
  {
    if nodes != [] {
      var n := |nodes| - 1;
      CandidatesOf(nodes[..n], scope, key);
      HasUnsetGrows(nodes, key);
      var a := Asked(nodes[n].image, nodes[n].command, scope);
      FirstOfTwo(Candidates(nodes[..n], scope), [a], key);
      assert [a][1..] == [];
    }
  }

  lemma {:induction false} RelayComesFirst(relay: seq<Node>, paras: seq<seq<Node>>, key: string)
    requires HasUnset(relay, key)
    ensures FirstWith(AllCandidates(relay, paras), key) == FirstWith(Candidates(relay, Relay), key)
    ensures FirstWith(AllCandidates(relay, paras), key).Some?
    ensures FirstWith(AllCandidates(relay, paras), key).value.scope == Relay
    decreases |paras|
  {
    CandidatesOf(relay, Relay, key);
    if paras != [] {
      var n := |paras| - 1;
      RelayComesFirst(relay, paras[..n], key);
      FirstOfTwo(AllCandidates(relay, paras[..n]), Candidates(Visible(paras[n]), Para), key);
    }
  }

  /**
   A collator that shares its key with an unset relay node is judged by the relay rule, so it never gets
   its own answer, even with the relay node's image and command.
   */
  lemma CollatorJudgedAsRelay(relay: seq<Node>, paras: seq<seq<Node>>, n: Node)
    requires Unset(n) && HasUnset(relay, KeyOf(n))
    ensures !GetsOwnAnswer(n, Registered(relay, paras), Para)
  {
    RelayComesFirst(relay, paras, KeyOf(n));
    OwnAnswerIff(relay, paras, n, Para);
  }

  /** In general an underscore may belong to either, and the first pair registered answers for both. */
  lemma KeysCollide(help: Help)
    ensures var a, b := Node("a_b", "c", None), Node("a", "b_c", None);
            var m := Registered([a, b], []);
            && m == [("a_b_c", Asked("a_b", "c", Relay))]
            && WithVersion(b, m, help).version == WithVersion(a, m, help).version
            && GetsOwnAnswer(a, m, Relay) && !GetsOwnAnswer(b, m, Relay)
  {
    var a, b := Node("a_b", "c", None), Node("a", "b_c", None);
    assert "a_b" + "_" + "c" == "a_b_c" == "a" + "_" + "b_c";
    assert KeyOf(a) == "a_b_c" == KeyOf(b);
    assert [a, b][..1] == [a] && [a][..0] == [];
    var m := Register([], [a], Relay);
    assert Register([], [], Relay) == [];
    assert m == Set([], "a_b_c", Asked("a_b", "c", Relay));
    assert m == [("a_b_c", Asked("a_b", "c", Relay))];
    assert Register([], [a, b], Relay) == m;
    RegisteredIsFirst([a, b], [], "a_b_c");
    OwnAnswerIff([a, b], [], a, Relay);
    OwnAnswerIff([a, b], [], b, Relay);
  }

  // ---- what a help text tells

  /** The text shows the flag somewhere. */
  ghost predicate Shows(help: string, flag: string) {
    exists i :: 0 <= i <= |help| && flag <= help[i..]
  }

  /** The whole table of versions, for every help text. */
  lemma VersionTable(help: string, scope: Scope)
    ensures VersionOf(help, scope) == 0 <==> Shows(help, "--ws-port <PORT>")
    ensures VersionOf(help, scope) == 1 <==>
            scope == Relay && !Shows(help, "--ws-port <PORT>") && !Shows(help, "--insecure-validator-i-know-what-i-do")
    ensures VersionOf(help, scope) == 2 <==>
            && !Shows(help, "--ws-port <PORT>")
            && if scope == Relay then Shows(help, "--insecure-validator-i-know-what-i-do")
               else !Shows(help, "export-genesis-head")
    ensures VersionOf(help, scope) == 3 <==>
            scope == Para && !Shows(help, "--ws-port <PORT>") && Shows(help, "export-genesis-head")
  {
  }

  lemma {:induction false} ParaComesFirst(relay: seq<Node>, paras: seq<seq<Node>>, key: string)
    requires !HasUnset(relay, key) && FirstWith(AllCandidates(relay, paras), key).Some?
    ensures FirstWith(AllCandidates(relay, paras), key).value.scope == Para
    decreases |paras|
  {
    CandidatesOf(relay, Relay, key);
    if paras != [] {
      var n := |paras| - 1;
      FirstOfTwo(AllCandidates(relay, paras[..n]), Candidates(Visible(paras[n]), Para), key);
      CandidatesOf(Visible(paras[n]), Para, key);
      if FirstWith(AllCandidates(relay, paras[..n]), key).Some? {
        ParaComesFirst(relay, paras[..n], key);
      }
    }
  }

  /** The help text of the first node with the key of `n`. */
  ghost function FirstHelp(relay: seq<Node>, paras: seq<seq<Node>>, help: Help, n: Node): Option<string> {
    var first := FirstWith(AllCandidates(relay, paras), KeyOf(n));
    if first.Some? then help(first.value.image, first.value.command) else None
  }

  /**
   An unset relay node ends with zero when the first node of its key shows the websocket port, with two when it
   shows the insecure validator flag and not that port, with one when it shows neither.
   */
  lemma RelayNodeGets(relay: seq<Node>, paras: seq<seq<Node>>, help: Help, n: Node)
    requires n in relay && n.version in {None, Some(0)} && FirstHelp(relay, paras, help, n).Some?
    ensures var text := FirstHelp(relay, paras, help, n).value;
            var v := WithVersion(n, Registered(relay, paras), help).version;
            && (v == Some(0) <==> Shows(text, "--ws-port <PORT>"))
            && (v == Some(2) <==>
                  !Shows(text, "--ws-port <PORT>") && Shows(text, "--insecure-validator-i-know-what-i-do"))
            && (v == Some(1) <==>
                  !Shows(text, "--ws-port <PORT>") && !Shows(text, "--insecure-validator-i-know-what-i-do"))
  {
    var i :| 0 <= i < |relay| && relay[i] == n;
    assert HasUnset(relay, KeyOf(n));
    RelayComesFirst(relay, paras, KeyOf(n));
    VersionComesFromTheFirst(relay, paras, help, n);
    VersionTable(FirstHelp(relay, paras, help, n).value, Relay);
  }

  /**
   An unset collator whose key no unset relay node has ends with zero when the first node of its key shows the
   websocket port, with three when it shows the export of the genesis head and not that port, with two when it
   shows neither.
   */
  lemma CollatorGets(relay: seq<Node>, paras: seq<seq<Node>>, help: Help, n: Node)
    requires n.version in {None, Some(0)} && !HasUnset(relay, KeyOf(n)) && FirstHelp(relay, paras, help, n).Some?
    ensures var text := FirstHelp(relay, paras, help, n).value;
            var v := WithVersion(n, Registered(relay, paras), help).version;
            && (v == Some(0) <==> Shows(text, "--ws-port <PORT>"))
            && (v == Some(3) <==> !Shows(text, "--ws-port <PORT>") && Shows(text, "export-genesis-head"))
            && (v == Some(2) <==> !Shows(text, "--ws-port <PORT>") && !Shows(text, "export-genesis-head"))
  {
    ParaComesFirst(relay, paras, KeyOf(n));
    VersionComesFromTheFirst(relay, paras, help, n);
    VersionTable(FirstHelp(relay, paras, help, n).value, Para);
  }
}
