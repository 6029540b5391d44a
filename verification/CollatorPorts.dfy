/**
 Ports of the relay-chain part of a collator: the port handling of `genCumulusCollatorCmd` in
 orchestrator/src/cmdGenerator.ts. A port the user chose is replaced when the parachain part uses it
 already; ports not dealt with are added at the end.
 */
module CollatorPorts {
  import opened Wrappers
  import Text

  const PORT_FLAGS: seq<string> := ["--port", "--rpc-port", "--prometheus-port"]

  /** How numerals are read, the ports of the parachain part, and the flags that take ports. */
  datatype World = World(parseInt: string -> Option<int>, taken: set<int>, flags: seq<string>)

  /** The default ports for peers and the two kinds of requests. */
  const DEFAULT_PORTS: set<int> := {30333, 9933, 9944}

  /** `own` are the ports the parachain part was given. */
  function CollatorWorld(parseInt: string -> Option<int>, own: set<int>): World {
    World(parseInt, DEFAULT_PORTS + own, PORT_FLAGS)
  }

  /** `parseInt` reads no number from a port flag and reads back the numerals it is given. */
  ghost predicate Sane(w: World) {
    && Distinct(w.flags)
    && (forall f :: f in w.flags ==> w.parseInt(f) == None)
    && forall n: nat :: w.parseInt(Text.Decimal(n)) == Some(n)
  }

  predicate IsTaken(arg: string, w: World) {
    w.parseInt(arg).Some? && w.parseInt(arg).value in w.taken
  }

  /** Token `i` is a port flag whose value the parachain part uses. */
  predicate Conflicts(args: seq<string>, i: nat, w: World) {
    i + 1 < |args| && args[i] in w.flags && IsTaken(args[i + 1], w)
  }

  /** Some occurrence of the flag conflicts; only then does the code count the flag as dealt with. */
  ghost predicate DealtWith(args: seq<string>, flag: string, w: World) {
    exists i :: 0 <= i < |args| && args[i] == flag && Conflicts(args, i, w)
  }

  /** The flags that get a value at the end, in order. */
  ghost function Missing(args: seq<string>, flags: seq<string>, w: World): (r: seq<string>)
    ensures forall f :: f in r <==> f in flags && !DealtWith(args, f, w)
  {
    if flags == [] then []
    else
      var n := |flags| - 1;
      var before := Missing(args, flags[..n], w);
      assert flags == flags[..n] + [flags[n]];
      if DealtWith(args, flags[n], w) then before else before + [flags[n]]
  }

  ghost predicate IsPort(arg: string, ports: seq<nat>) {
    exists q :: q in ports && arg == Text.Decimal(q)
  }

  /** How many tokens before `i` conflict: so many ports were asked for by then. */
  ghost function ConflictCount(args: seq<string>, i: nat, w: World): (n: nat)
    ensures n <= i
  {
    if i == 0 then 0 else ConflictCount(args, i - 1, w) + if Conflicts(args, i - 1, w) then 1 else 0
  }

  /** The user's arguments, the value after each conflict replaced by the next port. */
  ghost predicate Replaced(args: seq<string>, head: seq<string>, w: World, ports: seq<nat>) {
    ReplacedUpTo(args, head, w, ports, |args|)
  }

  /** The same as far as the values at positions up to `index` go. */
  ghost predicate ReplacedUpTo(args: seq<string>, head: seq<string>, w: World, ports: seq<nat>, index: nat) {
    |head| == |args| <= |ports| && forall i :: 0 <= i < |args| ==> head[i] == TokenAt(args, w, ports, index, i)
  }

  ghost function TokenAt(args: seq<string>, w: World, ports: seq<nat>, index: nat, i: nat): string
    requires i < |args| <= |ports|
  {
    if 0 < i <= index && Conflicts(args, i - 1, w) then Text.Decimal(ports[ConflictCount(args, i - 1, w)]) else args[i]
  }

  /** Flags, each followed by a port, in the order of the ports. */
  ghost predicate Appended(flags: seq<string>, tail: seq<string>, ports: seq<nat>) {
    if flags == [] then tail == []
    else
      var n, m := |flags| - 1, |tail| - 2;
      && m >= 0 && Appended(flags[..n], tail[..m], ports)
      && n < |ports| && tail[m] == flags[n] && tail[m + 1] == Text.Decimal(ports[n])
  }

  ghost predicate Distinct(s: seq<string>) {
    forall i, j :: 0 <= i < j < |s| ==> s[i] != s[j]
  }

  // ---- the source

  /** `ports` are the answers of `getRandomPort`, none of them zero. */
  method ResolvePorts(argsFullNode: seq<string>, w: World, ports: seq<nat>) returns (args: seq<string>)
    requires Sane(w) && |ports| >= |argsFullNode| + |w.flags| && 0 !in ports
    ensures Resolved(argsFullNode, args, w, ports)
    ensures forall flag :: flag in w.flags ==>
              Count(args, flag) == Count(argsFullNode, flag) + if DealtWith(argsFullNode, flag, w) then 0 else 1
  {
    var collatorPorts, next;
    args, collatorPorts, next := ReplaceTaken(argsFullNode, w, ports);
    ghost var tail;
    args, tail := AddMissing(args, collatorPorts, ports[next..], argsFullNode, w);
    assert args[|argsFullNode|..] == tail;
    forall flag | flag in w.flags
      ensures Count(args, flag) == Count(argsFullNode, flag) + if DealtWith(argsFullNode, flag, w) then 0 else 1
    {
      FlagCount(argsFullNode, args, w, ports, flag);
    }
  }

  /** The table holds a port for exactly the flags dealt with. */
  ghost predicate PortsSet(original: seq<string>, collatorPorts: map<string, nat>, w: World) {
    forall f :: f in w.flags ==> f in collatorPorts && (collatorPorts[f] != 0 <==> DealtWith(original, f, w))
  }

  /** The first loop: it reads the list it writes, one position ahead. */
  method ReplaceTaken(argsFullNode: seq<string>, w: World, ports: seq<nat>)
      returns (args: seq<string>, collatorPorts: map<string, nat>, next: nat)
    requires Sane(w) && |ports| >= |argsFullNode| && 0 !in ports
    ensures Replaced(argsFullNode, args, w, ports)
    ensures next == ConflictCount(argsFullNode, |argsFullNode|, w)
    ensures PortsSet(argsFullNode, collatorPorts, w)
  {
    collatorPorts := map f | f in w.flags :: 0;
    next := 0;
    args := argsFullNode;
    for index := 0 to |args|
      invariant next == ConflictCount(argsFullNode, index, w) && ReplacedUpTo(argsFullNode, args, w, ports, index)
      invariant PortsUpTo(argsFullNode, collatorPorts, w, index)
    {
      var arg := args[index];
      FlagsStay(argsFullNode, args, index, w, ports);
      if arg in collatorPorts && index + 1 < |args| {
        var selectedPort := w.parseInt(args[index + 1]);
        if selectedPort.Some? && selectedPort.value in w.taken {
          var randomPort := ports[next];
          ReplaceStep(argsFullNode, args, w, ports, index);
          next := next + 1;
          collatorPorts := collatorPorts[arg := randomPort];
          args := args[index + 1 := Text.Decimal(randomPort)];
          continue;
        }
      }
      KeepStep(argsFullNode, args, collatorPorts, w, ports, index);
    }
  }

  lemma ReplaceStep(original: seq<string>, args: seq<string>, w: World, ports: seq<nat>, index: nat)
    requires ReplacedUpTo(original, args, w, ports, index) && Conflicts(original, index, w)
    ensures var port := Text.Decimal(ports[ConflictCount(original, index, w)]);
            ReplacedUpTo(original, args[index + 1 := port], w, ports, index + 1)
  {
  }

  lemma KeepStep(
      original: seq<string>, args: seq<string>, collatorPorts: map<string, nat>, w: World, ports: seq<nat>, index: nat)
    requires ReplacedUpTo(original, args, w, ports, index) && PortsUpTo(original, collatorPorts, w, index)
    requires !Conflicts(original, index, w)
    ensures ReplacedUpTo(original, args, w, ports, index + 1) && PortsUpTo(original, collatorPorts, w, index + 1)
  {
  }

  /** The table has an entry for each flag, set once an occurrence before `index` conflicted. */
  ghost predicate PortsUpTo(original: seq<string>, collatorPorts: map<string, nat>, w: World, index: nat) {
    && (forall f :: f in collatorPorts <==> f in w.flags)
    && forall f :: f in w.flags ==> (collatorPorts[f] != 0 <==> DealtWithBefore(original, f, w, index))
  }

  ghost predicate DealtWithBefore(args: seq<string>, flag: string, w: World, index: nat) {
    exists i :: 0 <= i < index && i < |args| && args[i] == flag && Conflicts(args, i, w)
  }

  /** The second loop: flags still at zero get a port. */
  method AddMissing(
      head: seq<string>, collatorPorts: map<string, nat>, ports: seq<nat>, ghost original: seq<string>, w: World)
      returns (args: seq<string>, ghost tail: seq<string>)
    requires |ports| >= |w.flags|
    requires PortsSet(original, collatorPorts, w)
    ensures args == head + tail && Appended(Missing(original, w.flags, w), tail, ports)
  {
    args := head;
    tail := [];
    var next := 0;
    for k := 0 to |w.flags|
      invariant args == head + tail
      invariant Added(original, w, k, next, tail, ports)
    {
      var portArg := w.flags[k];
      AddStep(original, w, k, next, tail, ports);
      if collatorPorts[portArg] == 0 {
        var randomPort := Text.Decimal(ports[next]);
        next := next + 1;
        args := args + [portArg, randomPort];
        tail := tail + [portArg, randomPort];
      }
    }
    assert w.flags[..|w.flags|] == w.flags;
  }

  /** The missing ones among the first `k` flags are added, with the first `next` ports. */
  ghost predicate Added(original: seq<string>, w: World, k: nat, next: nat, tail: seq<string>, ports: seq<nat>) {
    && next <= k <= |w.flags| && next == |Missing(original, w.flags[..k], w)|
    && Appended(Missing(original, w.flags[..k], w), tail, ports)
  }

  lemma AddStep(original: seq<string>, w: World, k: nat, next: nat, tail: seq<string>, ports: seq<nat>)
    requires k < |w.flags| <= |ports| && Added(original, w, k, next, tail, ports)
    ensures if DealtWith(original, w.flags[k], w) then Added(original, w, k + 1, next, tail, ports)
            else Added(original, w, k + 1, next + 1, tail + [w.flags[k], Text.Decimal(ports[next])], ports)
  {
    assert w.flags[..k + 1][..k] == w.flags[..k];
    AppendedGrows(Missing(original, w.flags[..k], w), tail, ports, w.flags[k]);
  }

  lemma AppendedGrows(flags: seq<string>, tail: seq<string>, ports: seq<nat>, flag: string)
    requires Appended(flags, tail, ports) && |flags| < |ports|
    ensures Appended(flags + [flag], tail + [flag, Text.Decimal(ports[|flags|])], ports)
  {
    var port := Text.Decimal(ports[|flags|]);
    assert (flags + [flag])[..|flags|] == flags && (tail + [flag, port])[..|tail|] == tail;
  }

  /** A position holding a port flag still holds it, and a position holding none holds none. */
  lemma FlagsStay(original: seq<string>, args: seq<string>, index: nat, w: World, ports: seq<nat>)
    requires Sane(w) && index < |args| && ReplacedUpTo(original, args, w, ports, index)
    ensures args[index] in w.flags <==> original[index] in w.flags
    ensures original[index] in w.flags ==> args[index] == original[index]
    ensures index + 1 < |args| ==> args[index + 1] == original[index + 1]
  {
    if index > 0 && Conflicts(original, index - 1, w) {
      PortIsNoFlag(args[index], w, ports);
    }
  }

  lemma PortIsNoFlag(arg: string, w: World, ports: seq<nat>)
    requires Sane(w) && IsPort(arg, ports)
    ensures arg !in w.flags
  {
  }

  // ---- results

  function Count(s: seq<string>, x: string): nat {
    if s == [] then 0 else Count(s[..|s| - 1], x) + if s[|s| - 1] == x then 1 else 0
  }

  lemma {:induction false} CountSplits(a: seq<string>, b: seq<string>, x: string)
    ensures Count(a + b, x) == Count(a, x) + Count(b, x)
    decreases |b|
  {
    if b == [] {
      assert a + b == a;
    } else {
      assert (a + b)[..|a + b| - 1] == a + b[..|b| - 1];
      CountSplits(a, b[..|b| - 1], x);
    }
  }

  lemma {:induction false} CountSame(a: seq<string>, b: seq<string>, x: string)
    requires |a| == |b| && forall i :: 0 <= i < |a| ==> (a[i] == x <==> b[i] == x)
    ensures Count(a, x) == Count(b, x)
  {
    if a != [] {
      CountSame(a[..|a| - 1], b[..|b| - 1], x);
    }
  }

  lemma {:induction false} CountDistinct(s: seq<string>, x: string)
    requires Distinct(s)
    ensures Count(s, x) == if x in s then 1 else 0
  {
    if s != [] {
      var n := |s| - 1;
      CountDistinct(s[..n], x);
      assert s == s[..n] + [s[n]];
    }
  }

  lemma {:induction false} CountZero(s: seq<string>, x: string)
    ensures Count(s, x) == 0 <==> x !in s
  {
    if s != [] {
      var n := |s| - 1;
      CountZero(s[..n], x);
      assert s == s[..n] + [s[n]];
    }
  }

  lemma {:induction false} CountAppended(flags: seq<string>, tail: seq<string>, w: World, ports: seq<nat>, flag: string)
    requires Sane(w) && Appended(flags, tail, ports) && flag in w.flags
    ensures Count(tail, flag) == Count(flags, flag)
    decreases |flags|
  {
    if flags != [] {
      var n, m := |flags| - 1, |tail| - 2;
      CountAppended(flags[..n], tail[..m], w, ports, flag);
      PortIsNoFlag(tail[m + 1], w, ports);
      assert tail[..m + 1][..m] == tail[..m];
    }
  }

  lemma {:induction false} MissingOnce(args: seq<string>, flags: seq<string>, w: World)
    requires Distinct(flags)
    ensures Distinct(Missing(args, flags, w))
  {
    if flags != [] {
      var n := |flags| - 1;
      MissingOnce(args, flags[..n], w);
      assert flags[n] !in flags[..n];
    }
  }

  lemma HeadKeepsFlags(args: seq<string>, head: seq<string>, w: World, ports: seq<nat>, flag: string)
    requires Sane(w) && Replaced(args, head, w, ports) && flag in w.flags
    ensures forall i :: 0 <= i < |args| ==> (args[i] == flag <==> head[i] == flag)
  {
    forall i | 0 <= i < |args| ensures args[i] == flag <==> head[i] == flag {
      if i > 0 && Conflicts(args, i - 1, w) {
        PortIsNoFlag(head[i], w, ports);
      }
    }
  }

  /** The ports asked for after the first loop. */
  ghost function Unused(args: seq<string>, w: World, ports: seq<nat>): (rest: seq<nat>)
    requires |args| <= |ports|
    ensures forall q :: q in rest ==> q in ports
  {
    ports[ConflictCount(args, |args|, w)..]
  }

  /** What a call leaves: the user's arguments with conflicting values replaced, then the missing flags. */
  ghost predicate Resolved(args: seq<string>, out: seq<string>, w: World, ports: seq<nat>) {
    && |out| >= |args|
    && Replaced(args, out[..|args|], w, ports)
    && Appended(Missing(args, w.flags, w), out[|args|..], Unused(args, w, ports))
  }

  lemma HeadCount(args: seq<string>, head: seq<string>, w: World, ports: seq<nat>, flag: string)
    requires Sane(w) && Replaced(args, head, w, ports) && flag in w.flags
    ensures Count(head, flag) == Count(args, flag)
  {
    HeadKeepsFlags(args, head, w, ports, flag);
    CountSame(args, head, flag);
  }

  lemma TailCount(args: seq<string>, tail: seq<string>, w: World, ports: seq<nat>, flag: string)
    requires Sane(w) && Appended(Missing(args, w.flags, w), tail, ports) && flag in w.flags
    ensures Count(tail, flag) == if DealtWith(args, flag, w) then 0 else 1
  {
    var missing := Missing(args, w.flags, w);
    CountAppended(missing, tail, w, ports, flag);
    MissingOnce(args, w.flags, w);
    CountDistinct(missing, flag);
  }

  /** The user's occurrences of a flag stay; one more comes in exactly when none of them conflicted. */
  lemma FlagCount(args: seq<string>, out: seq<string>, w: World, ports: seq<nat>, flag: string)
    requires Sane(w) && Resolved(args, out, w, ports) && flag in w.flags
    ensures Count(out, flag) == Count(args, flag) + if DealtWith(args, flag, w) then 0 else 1
  {
    var head, tail := out[..|args|], out[|args|..];
    HeadCount(args, head, w, ports, flag);
    TailCount(args, tail, w, Unused(args, w, ports), flag);
    CountSplits(head, tail, flag);
    assert head + tail == out;
  }

  /**
   Main result: a port flag is on the resulting command line exactly once if and only if the user left
   it out, or gave it once and with a port the parachain part uses. A port the user chose freely is
   kept, and the flag comes in a second time.
   */
  lemma FlagOnceIff(args: seq<string>, out: seq<string>, w: World, ports: seq<nat>, flag: string)
    requires Sane(w) && Resolved(args, out, w, ports) && flag in w.flags
    ensures Count(out, flag) == 1 <==>
            flag !in args || (Count(args, flag) == 1 && DealtWith(args, flag, w))
  {
    FlagCount(args, out, w, ports, flag);
    CountZero(args, flag);
  }

  /** The world of a collator meets what is asked of it. */
  lemma CollatorWorldIsSane(own: set<int>)
    ensures Sane(CollatorWorld(Text.ParseInt, own))
  {
    forall n: nat ensures Text.ParseInt(Text.Decimal(n)) == Some(n) {
      Text.ParseIntReadsBack(n);
    }
    assert "--port"[1] == '-' && "--rpc-port"[1] == '-' && "--prometheus-port"[1] == '-';
    assert |"--port"| == 6 && |"--rpc-port"| == 10 && |"--prometheus-port"| == 17;
    assert Text.LeadingDigits("--port"[1..]) == "" && Text.LeadingDigits("--rpc-port"[1..]) == ""
           && Text.LeadingDigits("--prometheus-port"[1..]) == "";
  }

  /** A concrete failure: a user's `--port` with any port that is free is on the command line twice. */
  lemma FreePortComesTwice(port: nat, own: set<int>, ports: seq<nat>, out: seq<string>)
    requires port !in {30333, 9933, 9944} + own
    requires Resolved(["--port", Text.Decimal(port)], out, CollatorWorld(Text.ParseInt, own), ports)
    ensures Count(out, "--port") == 2
  {
    var args, w := ["--port", Text.Decimal(port)], CollatorWorld(Text.ParseInt, own);
    CollatorWorldIsSane(own);
    assert !DealtWith(args, "--port", w) by {
      Text.ParseIntReadsBack(port);
      assert !Conflicts(args, 0, w) && !Conflicts(args, 1, w);
    }
    assert "--port" in w.flags by { assert PORT_FLAGS[0] == "--port"; }
    FlagCount(args, out, w, ports, "--port");
    assert "--port" != args[1] by { assert w.parseInt(args[1]) == Some(port); }
    FirstCounts("--port", args[1]);
  }

  lemma FirstCounts(flag: string, value: string)
    requires flag != value
    ensures Count([flag, value], flag) == 1
  {
    assert [flag, value][..1] == [flag];
    assert Count([flag], flag) == Count([flag][..0], flag) + 1;
  }

  /** Without arguments the three port flags come in, in this order, with the first three ports. */
  lemma AllFlagsAdded(own: set<int>, ports: seq<nat>, out: seq<string>)
    requires Resolved([], out, CollatorWorld(Text.ParseInt, own), ports)
    ensures |ports| >= 3
    ensures out == ["--port", Text.Decimal(ports[0]), "--rpc-port", Text.Decimal(ports[1]),
                    "--prometheus-port", Text.Decimal(ports[2])]
  {
    var w := CollatorWorld(Text.ParseInt, own);
    ThreeMissing([], w);
    assert out[0..] == out && ports[0..] == ports;
    ThreeAppended(out, ports);
  }

  lemma ThreeMissing(args: seq<string>, w: World)
    requires w.flags == PORT_FLAGS && forall f :: f in w.flags ==> !DealtWith(args, f, w)
    ensures Missing(args, w.flags, w) == ["--port", "--rpc-port", "--prometheus-port"]
  {
    var flags := PORT_FLAGS;
    assert flags[..2] == ["--port", "--rpc-port"] && flags[..2][..1] == ["--port"] && flags[..2][..1][..0] == [];
    assert Missing(args, flags[..2][..1][..0], w) == [];
    assert Missing(args, flags[..2][..1], w) == ["--port"];
    assert Missing(args, flags[..2], w) == ["--port", "--rpc-port"];
  }

  lemma ThreeAppended(tail: seq<string>, ports: seq<nat>)
    requires Appended(["--port", "--rpc-port", "--prometheus-port"], tail, ports)
    ensures |ports| >= 3
    ensures tail == ["--port", Text.Decimal(ports[0]), "--rpc-port", Text.Decimal(ports[1]),
                     "--prometheus-port", Text.Decimal(ports[2])]
  {
    var flags := ["--port", "--rpc-port", "--prometheus-port"];
    assert flags[..2] == ["--port", "--rpc-port"] && flags[..2][..1] == ["--port"] && flags[..2][..1][..0] == [];
    var two := tail[..|tail| - 2];
    assert Appended(flags[..2], two, ports);
    var one := two[..|two| - 2];
    assert Appended(["--port"], one, ports);
    assert Appended([], one[..|one| - 2], ports);
  }

  /** A user's `--port` with a default port, or with one of the parachain part, gets the first fresh port. */
  lemma TakenPortReplaced(port: nat, own: set<int>, ports: seq<nat>, out: seq<string>)
    requires port in {30333, 9933, 9944} + own
    requires Resolved(["--port", Text.Decimal(port)], out, CollatorWorld(Text.ParseInt, own), ports)
    ensures |ports| >= 2 && |out| >= 2
    ensures out[0] == "--port" && out[1] == Text.Decimal(ports[0])
  {
    var args, w := ["--port", Text.Decimal(port)], CollatorWorld(Text.ParseInt, own);
    CollatorWorldIsSane(own);
    Text.ParseIntReadsBack(port);
    assert "--port" in w.flags by { assert PORT_FLAGS[0] == "--port"; }
    assert Conflicts(args, 0, w) && ConflictCount(args, 0, w) == 0;
    assert out[..2][1] == TokenAt(args, w, ports, 2, 1);
    assert out[..2][0] == TokenAt(args, w, ports, 2, 0);
  }

  /** Among appended flags and ports, a flag is followed by a port. */
  lemma {:induction false} FlagThenPort(flags: seq<string>, tail: seq<string>, w: World, ports: seq<nat>, j: nat)
    requires Sane(w) && Appended(flags, tail, ports) && j < |tail| && tail[j] in w.flags
    ensures j + 1 < |tail| && IsPort(tail[j + 1], ports)
    decreases |flags|
  {
    var n, m := |flags| - 1, |tail| - 2;
    if j < m {
      FlagThenPort(flags[..n], tail[..m], w, ports, j);
    } else {
      assert tail[m + 1] !in w.flags by { PortIsNoFlag(tail[m + 1], w, ports); }
    }
  }

  lemma {:induction false} AppendedStartsWithFlag(flags: seq<string>, tail: seq<string>, ports: seq<nat>)
    requires Appended(flags, tail, ports) && tail != []
    ensures flags != [] && tail[0] == flags[0]
  {
    var n, m := |flags| - 1, |tail| - 2;
    if m > 0 {
      AppendedStartsWithFlag(flags[..n], tail[..m], ports);
    } else {
      assert tail[..m] == [];
    }
  }

  /** No port flag is left with a port of the parachain part, as long as the fresh ports are others. */
  lemma NoTakenPortLeft(args: seq<string>, out: seq<string>, w: World, ports: seq<nat>, j: nat)
    requires Sane(w) && Resolved(args, out, w, ports)
    requires forall q :: q in ports ==> q !in w.taken
    requires j + 1 < |out| && out[j] in w.flags
    ensures !IsTaken(out[j + 1], w)
  {
    var head, tail, missing := out[..|args|], out[|args|..], Missing(args, w.flags, w);
    var rest := Unused(args, w, ports);
    if j + 1 < |args| {
      HeadKeepsFlags(args, head, w, ports, out[j]);
      assert head[j] == out[j] && head[j + 1] == out[j + 1];
      if Conflicts(args, j, w) {
        assert out[j + 1] == Text.Decimal(ports[ConflictCount(args, j, w)]);
      }
    } else if j >= |args| {
      assert tail[j - |args|] == out[j];
      FlagThenPort(missing, tail, w, rest, j - |args|);
      assert tail[j - |args| + 1] == out[j + 1];
    } else {
      assert tail[0] == out[j + 1];
      AppendedStartsWithFlag(missing, tail, rest);
      assert missing[0] in missing;
    }
  }

}
